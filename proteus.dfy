/** The accessor layer as native patches call it: one object standing for the emulator's `CPU`
    (its current register bank) and `MEM` (guest memory), passed explicitly instead of through
    global pointers, with the operations that change that state in place. */
module Proteus {
  import opened Words
  import opened Registers
  import opened GuestMemory
  import opened Conversions
  import opened Bridge

  /** What `EXIT` hands back to the dispatcher: `nullptr`, "no native continuation". */
  datatype Continuation = NoNativeContinuation

  class Context {
    /** `CPU->mCurrentRegisters`: the slots of the current bank, updated in place. */
    const registers: array<Word>
    /** The words of guest memory behind `MEM`. */
    var memory: Memory

    ghost predicate Valid()
      reads this
    {
      registers.Length == REGISTER_COUNT
    }

    /** The guest state as the specification functions see it. */
    function State(): Machine
      reads this, registers
      requires Valid()
    {
      Machine(registers[..], memory)
    }

    constructor (rf: RegFile, mem: Memory)
      ensures Valid() && fresh(registers)
      ensures State() == Machine(rf, mem)
    {
      registers := new Word[REGISTER_COUNT](i requires 0 <= i < REGISTER_COUNT => rf[i]);
      memory := mem;
      new;
      assert registers[..] == rf;
    }

    /** Assignment through a register macro (`R0 = v` … `PC = v`). */
    method SetRegister(n: RegName, v: Word)
      requires Valid()
      modifies registers
      ensures Valid()
      ensures State() == old(State()).(regs := Write(old(State()).regs, n, v))
    {
      registers[Slot(n)] := v;
    }

    /** `EXIT(addr)`: the program counter is pointed four bytes past `addr`, and the patch
        ends by handing back the null continuation. */
    method Exit(addr: Word) returns (k: Continuation)
      requires Valid()
      modifies registers
      ensures Valid()
      ensures State() == Bridge.Exit(old(State()), addr)
      ensures k == NoNativeContinuation
    {
      registers[15] := Wrap(addr + 4);
      return NoNativeContinuation;
    }

    /** `PUSH(sp, w)`: the stack pointer moves down one word first, and the word is then
        stored where it now points. */
    method Push(sp: RegName, src: Source)
      requires Valid()
      modifies this, registers
      ensures Valid()
      ensures State() == Bridge.Push(old(State()), sp, src)
    {
      var s := Slot(sp);
      registers[s] := Wrap(registers[s] as int - 4);
      var w := match src
        case FromReg(r) => registers[Slot(r)]
        case FromValue(v) => v;
      memory := memory[registers[s] := w];
    }

    /** `POP(sp, w)`: the word the stack pointer addresses is loaded into the target, and the
        stack pointer then moves up one word. Returns the loaded word. */
    method Pop(sp: RegName, dst: Target) returns (w: Word)
      requires Valid()
      modifies registers
      ensures Valid()
      ensures Bridge.Pop(old(State()), sp, dst) == Transfer(State(), w)
    {
      var s := Slot(sp);
      w := memory[registers[s]];
      if dst.IntoReg? {
        registers[Slot(dst.reg)] := w;
      }
      registers[s] := Wrap(registers[s] as int + 4);
    }

    /** `RPOP(sp, w)`: the stack pointer moves down one word first, and the word it now
        addresses is loaded into the target. Returns the loaded word. */
    method RPop(sp: RegName, dst: Target) returns (w: Word)
      requires Valid()
      modifies registers
      ensures Valid()
      ensures Bridge.RPop(old(State()), sp, dst) == Transfer(State(), w)
    {
      var s := Slot(sp);
      registers[s] := Wrap(registers[s] as int - 4);
      w := memory[registers[s]];
      if dst.IntoReg? {
        registers[Slot(dst.reg)] := w;
      }
    }

    /** `POKE_W(addr, w)`: one word stored at a guest address. */
    method PokeW(addr: Word, w: Word)
      requires Valid()
      modifies this
      ensures Valid()
      ensures State() == Bridge.PokeW(old(State()), addr, w)
    {
      memory := memory[addr := w];
    }

    /** `SetG<name>(v)` generated by `GLOBAL_GETSET_W(addr, type, name)`. */
    method SetGlobalW(addr: Word, v: int)
      requires Valid()
      modifies this
      ensures Valid()
      ensures State() == Bridge.SetGlobalW(old(State()), addr, v)
    {
      var w := EncodeWord(v);
      memory := memory[addr := w];
    }

    /** `SetG<name>(p)` generated by `GLOBAL_GETSET_P(addr, type, name)`. */
    method SetGlobalP(addr: Word, p: HostPtr)
      requires Valid()
      modifies this
      ensures Valid()
      ensures State() == Bridge.SetGlobalP(old(State()), addr, p)
    {
      var w := EncodePointer(p);
      memory := memory[addr := w];
    }

    /** `Set<name>(v)` generated by `T_GETSET_MEMBER_W(offset, type, name)`, called on `self`. */
    method SetMemberW(self: HostPtr, offset: int, v: int)
      requires Valid()
      modifies this
      ensures Valid()
      ensures State() == Bridge.SetMemberW(old(State()), self, offset, v)
    {
      var w := EncodeWord(v);
      memory := memory[Wrap(EncodePointer(self) + offset) := w];
    }

    /** `Set<name>(p)` generated by `T_GETSET_MEMBER_P(offset, type, name)`, called on `self`. */
    method SetMemberP(self: HostPtr, offset: int, p: HostPtr)
      requires Valid()
      modifies this
      ensures Valid()
      ensures State() == Bridge.SetMemberP(old(State()), self, offset, p)
    {
      var w := EncodePointer(p);
      memory := memory[Wrap(EncodePointer(self) + offset) := w];
    }
  }
}
