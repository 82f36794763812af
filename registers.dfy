/** The current register bank (`CPU->mCurrentRegisters`) and the names patches use for it. */
module Registers {
  import opened Words

  /** Number of slots in the current bank. */
  const REGISTER_COUNT: int := 16

  type RegIndex = i: int | 0 <= i < REGISTER_COUNT

  /** A register bank: sixteen 32-bit words. */
  type RegFile = s: seq<Word> | |s| == REGISTER_COUNT witness seq(REGISTER_COUNT, _ => 0)

  /** The names a patch writes: `R0`..`R15` by number, and the three architectural aliases. */
  datatype RegName = R(index: RegIndex) | SP | LR | PC

  /** The bank slot a name denotes. The aliases denote slots 13, 14 and 15 themselves,
      not copies of them. */
  function Slot(n: RegName): RegIndex {
    match n
    case R(i) => i
    case SP => 13
    case LR => 14
    case PC => 15
  }

  /** Reading a register name: the word in its slot of the current bank. */
  function Read(rf: RegFile, n: RegName): Word {
    rf[Slot(n)]
  }

  /** Assigning through a register name: only its slot changes. */
  function Write(rf: RegFile, n: RegName, v: Word): (r: RegFile) {
    rf[Slot(n) := v]
  }

  /** A read after a write sees the written word exactly when both names denote one slot,
      and the old contents otherwise. */
  lemma ReadAfterWrite(rf: RegFile, a: RegName, b: RegName, v: Word)
    ensures Read(Write(rf, a, v), b) == if Slot(a) == Slot(b) then v else Read(rf, b)
  {
  }

  /** A write changes no slot other than the one its name denotes. */
  lemma WriteFrame(rf: RegFile, n: RegName, v: Word)
    ensures forall i: RegIndex :: i != Slot(n) ==> Write(rf, n, v)[i] == rf[i]
  {
  }

  /** `SP`, `LR` and `PC` share storage with `R13`, `R14` and `R15`: a write through either
      name of a pair is seen through the other, in both directions. */
  lemma AliasesShareStorage(rf: RegFile, v: Word)
    ensures Read(Write(rf, SP, v), R(13)) == v && Read(Write(rf, R(13), v), SP) == v
    ensures Read(Write(rf, LR, v), R(14)) == v && Read(Write(rf, R(14), v), LR) == v
    ensures Read(Write(rf, PC, v), R(15)) == v && Read(Write(rf, R(15), v), PC) == v
  {
  }
}
