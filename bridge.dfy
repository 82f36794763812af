/** The guest state a native patch sees — the current register bank and guest memory — and
    what each accessor does to it, as functions of that state. */
module Bridge {
  import opened Words
  import opened Registers
  import opened GuestMemory
  import opened Conversions

  /** The state the accessors reach through `CPU` and `MEM`. */
  datatype Machine = Machine(regs: RegFile, mem: Memory)

  /** The word argument of `PUSH`: a register, read when the macro reaches it, or a local value. */
  datatype Source = FromReg(reg: RegName) | FromValue(value: Word)

  /** The word argument of `POP` and `RPOP`: a register assigned in place, or a local. */
  datatype Target = IntoReg(reg: RegName) | IntoLocal

  /** A stack load: the state afterwards and the word loaded. */
  datatype Transfer = Transfer(machine: Machine, word: Word)

  /** The value of a source operand in register bank `rf`. */
  function Fetch(rf: RegFile, src: Source): Word {
    match src
    case FromReg(r) => Read(rf, r)
    case FromValue(v) => v
  }

  /** Delivering a loaded word to a target operand. */
  function Deliver(rf: RegFile, dst: Target, w: Word): RegFile {
    match dst
    case IntoReg(r) => Write(rf, r, w)
    case IntoLocal => rf
  }

  /** True when a source operand is the stack-pointer register itself (under any name). */
  predicate SourceIsSp(src: Source, sp: RegName) {
    src.FromReg? && Slot(src.reg) == Slot(sp)
  }

  /** True when a target operand is the stack-pointer register itself (under any name). */
  predicate TargetIsSp(dst: Target, sp: RegName) {
    dst.IntoReg? && Slot(dst.reg) == Slot(sp)
  }

  // ---------------------------------------------------------------- EXIT

  /** `EXIT(addr)`: the program counter (`R15`) becomes `addr + 4`, modulo 2^32. */
  function Exit(m: Machine, addr: Word): Machine {
    m.(regs := Write(m.regs, R(15), Wrap(addr + 4)))
  }

  /** EXIT sets the program counter to `addr + 4` modulo 2^32 and touches nothing else. */
  lemma ExitEffect(m: Machine, addr: Word)
    ensures Read(Exit(m, addr).regs, PC) == (addr + 4) % WORD_MOD
    ensures forall i: RegIndex :: i != 15 ==> Exit(m, addr).regs[i] == m.regs[i]
    ensures Exit(m, addr).mem == m.mem
  {
  }

  /** The exit offset wraps: the last word address resumes at 0, the first at 4. */
  lemma ExitWraps(m: Machine)
    ensures Read(Exit(m, 0xFFFF_FFFC).regs, PC) == 0
    ensures Read(Exit(m, 0).regs, PC) == 4
  {
  }

  // ---------------------------------------------------------------- PUSH, POP, RPOP

  /** `PUSH(sp, w)` (one word of `stmdb`): `sp -= 4`, then the word is written at the new `sp`.
      The source is read after the decrement. */
  function Push(m: Machine, sp: RegName, src: Source): Machine {
    var regs := Write(m.regs, sp, Wrap(Read(m.regs, sp) - 4));
    Machine(regs, Store(m.mem, Read(regs, sp), Fetch(regs, src)))
  }

  /** `POP(sp, w)` (one word of `ldmia`): the word at `sp` is loaded into the target, then
      `sp += 4`, applied to whatever `sp` holds after the load. */
  function Pop(m: Machine, sp: RegName, dst: Target): Transfer {
    var w := Load(m.mem, Read(m.regs, sp));
    var regs := Deliver(m.regs, dst, w);
    Transfer(Machine(Write(regs, sp, Wrap(Read(regs, sp) + 4)), m.mem), w)
  }

  /** `RPOP(sp, w)` (one word of `ldmdb`): `sp -= 4`, then the word at the new `sp` is loaded
      into the target. */
  function RPop(m: Machine, sp: RegName, dst: Target): Transfer {
    var regs := Write(m.regs, sp, Wrap(Read(m.regs, sp) - 4));
    var w := Load(m.mem, Read(regs, sp));
    Transfer(Machine(Deliver(regs, dst, w), m.mem), w)
  }

  /** The word a PUSH stores: the source's value, except that pushing the stack pointer itself
      stores its already decremented value. */
  function PushedWord(m: Machine, sp: RegName, src: Source): Word {
    if SourceIsSp(src, sp) then Wrap(Read(m.regs, sp) - 4) else Fetch(m.regs, src)
  }

  /** PUSH from `sp = S` leaves `sp = S - 4` (mod 2^32), stores the pushed word there, and
      changes no other register and no other memory word. */
  lemma PushEffect(m: Machine, sp: RegName, src: Source)
    ensures var s := Read(m.regs, sp);
            && Read(Push(m, sp, src).regs, sp) == Wrap(s - 4)
            && Push(m, sp, src).mem == m.mem[Wrap(s - 4) := PushedWord(m, sp, src)]
            && forall i: RegIndex :: i != Slot(sp) ==> Push(m, sp, src).regs[i] == m.regs[i]
  {
  }

  /** POP from `sp = S` into a target other than `sp` yields the word at `S`, delivers it,
      leaves `sp = S + 4` (mod 2^32), and never writes memory. */
  lemma PopEffect(m: Machine, sp: RegName, dst: Target)
    requires !TargetIsSp(dst, sp)
    ensures var s := Read(m.regs, sp);
            var t := Pop(m, sp, dst);
            && t.word == Load(m.mem, s)
            && t.machine.regs == Write(Deliver(m.regs, dst, t.word), sp, Wrap(s + 4))
            && t.machine.mem == m.mem
  {
  }

  /** POP into the stack pointer itself: `sp` ends as the loaded word plus 4. */
  lemma PopIntoSp(m: Machine, sp: RegName)
    ensures var t := Pop(m, sp, IntoReg(sp));
            Read(t.machine.regs, sp) == Wrap(Load(m.mem, Read(m.regs, sp)) + 4)
  {
  }

  /** RPOP from `sp = S` yields the word at `S - 4` (mod 2^32), delivers it after the
      decrement, leaves `sp = S - 4` when the target is not `sp`, and never writes memory. */
  lemma RPopEffect(m: Machine, sp: RegName, dst: Target)
    ensures var s := Read(m.regs, sp);
            var t := RPop(m, sp, dst);
            && t.word == Load(m.mem, Wrap(s - 4))
            && t.machine.regs == Deliver(Write(m.regs, sp, Wrap(s - 4)), dst, t.word)
            && (!TargetIsSp(dst, sp) ==> Read(t.machine.regs, sp) == Wrap(s - 4))
            && t.machine.mem == m.mem
  {
  }

  /** POP immediately after PUSH on the same `sp` yields the pushed word and restores `sp`;
      the only register that changes is the target. */
  lemma PushPopRoundTrip(m: Machine, sp: RegName, src: Source, dst: Target)
    requires !TargetIsSp(dst, sp)
    ensures var t := Pop(Push(m, sp, src), sp, dst);
            && t.word == PushedWord(m, sp, src)
            && Read(t.machine.regs, sp) == Read(m.regs, sp)
            && t.machine.regs == Deliver(m.regs, dst, t.word)
            && t.machine.mem == Push(m, sp, src).mem
  {
  }

  /** RPOP immediately after POP on the same `sp` restores `sp` and re-reads the same word. */
  lemma PopRPopRoundTrip(m: Machine, sp: RegName, d1: Target, d2: Target)
    requires !TargetIsSp(d1, sp) && !TargetIsSp(d2, sp)
    ensures var a := Pop(m, sp, d1);
            var b := RPop(a.machine, sp, d2);
            && b.word == a.word == Load(m.mem, Read(m.regs, sp))
            && Read(b.machine.regs, sp) == Read(m.regs, sp)
            && b.machine.regs == Deliver(Deliver(m.regs, d1, a.word), d2, a.word)
            && b.machine.mem == m.mem
  {
  }

  /** RPOP right after PUSH does not undo it: it moves `sp` down a second word, to `S - 8`, and
      loads the word found there, not the one just pushed. */
  lemma PushThenRPop(m: Machine, sp: RegName, src: Source, dst: Target)
    requires !TargetIsSp(dst, sp)
    ensures var s := Read(m.regs, sp);
            var t := RPop(Push(m, sp, src), sp, dst);
            && t.word == Load(Push(m, sp, src).mem, Wrap(s - 8))
            && Read(t.machine.regs, sp) == Wrap(s - 8)
  {
  }

  /** From an aligned stack pointer, PUSH leaves it aligned. */
  lemma PushKeepsAlignment(m: Machine, sp: RegName, src: Source)
    requires Aligned(Read(m.regs, sp))
    ensures Aligned(Read(Push(m, sp, src).regs, sp))
  {
  }

  /** From an aligned stack pointer, POP and RPOP into a target other than `sp` leave it aligned. */
  lemma PopKeepsAlignment(m: Machine, sp: RegName, dst: Target)
    requires Aligned(Read(m.regs, sp))
    requires !TargetIsSp(dst, sp)
    ensures Aligned(Read(Pop(m, sp, dst).machine.regs, sp))
    ensures Aligned(Read(RPop(m, sp, dst).machine.regs, sp))
  {
  }

  // ---------------------------------------------------------------- PEEK_W, POKE_W

  /** `PEEK_W(addr)`: the word at `addr`. Reading changes nothing. */
  function PeekW(m: Machine, addr: Word): Word {
    Load(m.mem, addr)
  }

  /** `POKE_W(addr, w)`: `w` is written at `addr`. */
  function PokeW(m: Machine, addr: Word, w: Word): Machine {
    m.(mem := Store(m.mem, addr, w))
  }

  /** PEEK_W after POKE_W at the same address returns the poked word; POKE_W changes no
      register and no other word. */
  lemma PeekAfterPoke(m: Machine, a: Word, b: Word, w: Word)
    ensures PeekW(PokeW(m, a, w), b) == if a == b then w else PeekW(m, b)
    ensures PokeW(m, a, w).regs == m.regs
  {
  }

  // ---------------------------------------------------------------- typed accessors

  /** `GetG<name>()` of `GLOBAL_GETSET_W(addr, type, name)`: the word at the global, as `type`. */
  function GetGlobalW(m: Machine, addr: Word, t: IntType): (v: int)
    requires WellFormed(t)
    ensures InRange(t, v)
  {
    DecodeWord(t, PeekW(m, addr))
  }

  /** `SetG<name>(v)` of `GLOBAL_GETSET_W`: `v` as a word, written at the global. */
  function SetGlobalW(m: Machine, addr: Word, v: int): Machine {
    PokeW(m, addr, EncodeWord(v))
  }

  /** `GetG<name>()` of `GLOBAL_GETSET_P(addr, type, name)`: the word at the global as a pointer. */
  function GetGlobalP(m: Machine, addr: Word): (p: HostPtr)
    ensures p < WORD_MOD
  {
    DecodePointer(PeekW(m, addr))
  }

  /** `SetG<name>(p)` of `GLOBAL_GETSET_P`: the pointer truncated to a word, written at the global. */
  function SetGlobalP(m: Machine, addr: Word, p: HostPtr): Machine {
    PokeW(m, addr, EncodePointer(p))
  }

  /** The address of a member: the handle `this` cast to a 32-bit base, plus the offset,
      modulo 2^32, recomputed on every access. */
  function MemberAddress(self: HostPtr, offset: int): Word {
    Wrap(EncodePointer(self) + offset)
  }

  /** `Get<name>()` of `T_GETSET_MEMBER_W(offset, type, name)`. */
  function GetMemberW(m: Machine, self: HostPtr, offset: int, t: IntType): (v: int)
    requires WellFormed(t)
    ensures InRange(t, v)
  {
    DecodeWord(t, PeekW(m, MemberAddress(self, offset)))
  }

  /** `Set<name>(v)` of `T_GETSET_MEMBER_W`. */
  function SetMemberW(m: Machine, self: HostPtr, offset: int, v: int): Machine {
    PokeW(m, MemberAddress(self, offset), EncodeWord(v))
  }

  /** `Get<name>()` of `T_GETSET_MEMBER_P(offset, type, name)`. */
  function GetMemberP(m: Machine, self: HostPtr, offset: int): (p: HostPtr)
    ensures p < WORD_MOD
  {
    DecodePointer(PeekW(m, MemberAddress(self, offset)))
  }

  /** `Set<name>(p)` of `T_GETSET_MEMBER_P`. */
  function SetMemberP(m: Machine, self: HostPtr, offset: int, p: HostPtr): Machine {
    PokeW(m, MemberAddress(self, offset), EncodePointer(p))
  }

  /** Word-policy global round trip: a value of a type of at most 32 bits reads back unchanged;
      the setter changes no register and no other word. */
  lemma GlobalWRoundTrip(m: Machine, addr: Word, t: IntType, v: int)
    requires WellFormed(t) && InRange(t, v) && t.bits <= 32
    ensures GetGlobalW(SetGlobalW(m, addr, v), addr, t) == v
    ensures SetGlobalW(m, addr, v).regs == m.regs
    ensures forall a: Word :: a != addr ==> PeekW(SetGlobalW(m, addr, v), a) == PeekW(m, a)
  {
    WordPolicyRoundTrip(t, v);
  }

  /** Pointer-policy global round trip: the pointer comes back modulo 2^32, which is the
      pointer itself exactly when it lies below 2^32. */
  lemma GlobalPRoundTrip(m: Machine, addr: Word, p: HostPtr)
    ensures GetGlobalP(SetGlobalP(m, addr, p), addr) == p % WORD_MOD
    ensures GetGlobalP(SetGlobalP(m, addr, p), addr) == p <==> p < WORD_MOD
  {
  }

  /** Two handles reach the same member word exactly when their 32-bit bases coincide. */
  lemma MemberAddressesCoincide(b1: HostPtr, b2: HostPtr, offset: int)
    ensures MemberAddress(b1, offset) == MemberAddress(b2, offset)
            <==> EncodePointer(b1) == EncodePointer(b2)
  {
  }

  /** Two fields of one object share a word exactly when their offsets agree modulo 2^32. */
  lemma FieldAddressesCoincide(self: HostPtr, o1: int, o2: int)
    ensures MemberAddress(self, o1) == MemberAddress(self, o2) <==> Wrap(o1) == Wrap(o2)
  {
  }

  /** Word-policy member round trip on one object: a value of a type of at most 32 bits reads
      back unchanged. */
  lemma MemberWRoundTrip(m: Machine, self: HostPtr, offset: int, t: IntType, v: int)
    requires WellFormed(t) && InRange(t, v) && t.bits <= 32
    ensures GetMemberW(SetMemberW(m, self, offset, v), self, offset, t) == v
  {
    WordPolicyRoundTrip(t, v);
  }

  /** Pointer-policy member round trip on one object: the pointer comes back modulo 2^32,
      which is the pointer itself exactly when it lies below 2^32. */
  lemma MemberPRoundTrip(m: Machine, self: HostPtr, offset: int, p: HostPtr)
    ensures GetMemberP(SetMemberP(m, self, offset, p), self, offset) == p % WORD_MOD
    ensures GetMemberP(SetMemberP(m, self, offset, p), self, offset) == p <==> p < WORD_MOD
  {
    PointerPolicyRoundTrip(p);
  }

  /** Member setters of either policy, for any type, leave the same field of an object with
      a different 32-bit base untouched. */
  lemma MemberSetFrame(m: Machine, b1: HostPtr, b2: HostPtr, offset: int, v: int, p: HostPtr)
    requires EncodePointer(b1) != EncodePointer(b2)
    ensures PeekW(SetMemberW(m, b2, offset, v), MemberAddress(b1, offset))
            == PeekW(m, MemberAddress(b1, offset))
    ensures PeekW(SetMemberP(m, b2, offset, p), MemberAddress(b1, offset))
            == PeekW(m, MemberAddress(b1, offset))
  {
    MemberAddressesCoincide(b1, b2, offset);
  }

  /** Member independence: objects with different 32-bit bases never see each other's field.
      Setting `v1` through `b1`, then `v2` through `b2` at the same offset, leaves `v1` at `b1`. */
  lemma MembersIndependent(m: Machine, b1: HostPtr, b2: HostPtr, offset: int, t: IntType, v1: int, v2: int)
    requires EncodePointer(b1) != EncodePointer(b2)
    requires WellFormed(t) && InRange(t, v1) && t.bits <= 32
    ensures var m2 := SetMemberW(SetMemberW(m, b1, offset, v1), b2, offset, v2);
            GetMemberW(m2, b1, offset, t) == v1
  {
    MemberAddressesCoincide(b1, b2, offset);
    WordPolicyRoundTrip(t, v1);
  }
}
