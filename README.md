# Proteus guest-state accessors

Einstein's Proteus layer lets native C++ "patches" stand in for routines of the emulated
Newton ROM. `Proteus/TProteusMacros.h` gives those patches their view of the emulated ARM machine:

- names for the sixteen registers of the current bank, plus the aliases `SP`, `LR` and `PC`;
- `EXIT`, which hands control back to the interpreter at `addr + 4`;
- single-word stack moves `PUSH` (`stmdb`), `POP` (`ldmia`) and `RPOP` (`ldmdb`);
- raw word access `PEEK_W` and `POKE_W`;
- generated getter/setter pairs for globals at fixed guest addresses and for members at
  `this + offset`. Each comes in a word-sized policy (`_W`) and a host-pointer policy (`_P`).

The model keeps the two pieces of state the macros touch. The register bank is an `array` of
sixteen 32-bit words. Guest memory is a total map from 32-bit address to 32-bit word. All
address and register arithmetic wraps modulo 2^32, as `KUInt32` arithmetic does.

Modules (one file each):

- `Words` (`words.dfy`): the 32-bit word type, the reduction `Wrap`, wrap-around and alignment lemmas.
- `Registers` (`registers.dfy`): the bank, the register names and the slot each name denotes.
- `GuestMemory` (`memory.dfy`): the word store behind `MEM->Read` / `MEM->Write`.
- `Conversions` (`conversions.dfy`): the casts of the two accessor policies.
- `Bridge` (`bridge.dfy`): the machine state and each operation as a function of it, with the lemmas.
  `PEEK_W` and every generated getter are functions here, of the state `Context.State()` returns.
- `Proteus` (`proteus.dfy`): class `Context`, standing for `CPU` and `MEM`. Every macro that
  assigns a register or writes memory is a method with a `modifies` clause. Each method is proved
  to produce exactly the new state the matching `Bridge` function gives.

`PUSH`'s word argument is a `Source`: a register, read after `sp` has been decremented, or a
local value. `POP`'s and `RPOP`'s is a `Target`: a register assigned in place, or a local.
This keeps the macros' evaluation order when the operand is the stack pointer itself.
For example, `POP(SP, SP)` leaves `SP` equal to the loaded word plus 4.

A reverse pop directly after a push does not re-read the pushed word. `PUSH` (line 70) and
`RPOP` (line 76) each decrement `sp`, so the second load comes from `S - 8`
(`Bridge.PushThenRPop`). The round trip that does hold is `RPOP` after `POP`
(`Bridge.PopRPopRoundTrip`).

Every macro from line 70 to line 115 throws away what `MEM->Read` and `MEM->Write` return, so
the model passes no memory faults on.

## Model

| member | source | states |
|---|---|---|
| `Words.Wrap` | Proteus/TProteusMacros.h:67-76 | The reduction of an integer to a `KUInt32` is the word congruent to it modulo 2^32, and is the integer itself when it already fits |
| `Words.SubThenAdd` | Proteus/TProteusMacros.h:70-73 | Lowering an address by `k` and raising it by `k` again returns the address, wrap-around at 0 included |
| `Words.AddThenSub` | Proteus/TProteusMacros.h:73-76 | Raising an address by `k` and lowering it by `k` again returns the address, wrap-around at 2^32-1 included |
| `Words.ShiftInjective` | Proteus/TProteusMacros.h:111-115 | Adding one displacement to two addresses gives equal results if and only if the addresses were equal |
| `Words.AlignedWordsDisjoint` | Proteus/TProteusMacros.h:79-82 | Distinct 4-aligned addresses `a` and `b` have disjoint byte ranges `[a, a+4)` and `[b, b+4)` |
| `Words.ShiftKeepsAlignment` | Proteus/TProteusMacros.h:70-76 | A displacement by a multiple of 4, modulo 2^32, keeps an aligned address aligned |
| `Registers.ReadAfterWrite` | Proteus/TProteusMacros.h:46-64 | Reading a name after writing one yields the written word if both names denote the same slot, and the old word otherwise |
| `Registers.WriteFrame` | Proteus/TProteusMacros.h:46-64 | A register write changes no slot other than the one its name denotes |
| `Registers.AliasesShareStorage` | Proteus/TProteusMacros.h:59-64 | `SP`/`R13`, `LR`/`R14` and `PC`/`R15` are one storage each: a write through either name is seen through the other, both ways |
| `GuestMemory.LoadAfterStore` | Proteus/TProteusMacros.h:79-82 | A read after a write at the same address yields the written word |
| `GuestMemory.StoreFrame` | Proteus/TProteusMacros.h:82 | A write leaves every other address unchanged |
| `GuestMemory.StoreSame` | Proteus/TProteusMacros.h:82 | Writing back the word just read changes nothing |
| `GuestMemory.StoreStore` | Proteus/TProteusMacros.h:82 | A second write to an address overwrites the first |
| `GuestMemory.StoreCommute` | Proteus/TProteusMacros.h:82 | Writes to distinct addresses commute |
| `Conversions.DecodeWord` | Proteus/TProteusMacros.h:91 | `(type)w` yields a value of the type that is congruent to `w` modulo 2^bits |
| `Conversions.CongruentValuesEqual` | Proteus/TProteusMacros.h:91 | Two values of one integer type that agree modulo 2^bits are equal, so the cast's result is unique |
| `Conversions.WordPolicyRoundTrip` | Proteus/TProteusMacros.h:91-92 | `(type)(KUInt32)v == v` if and only if the type has at most 32 bits or `v` lies in `[0, 2^32)` |
| `Conversions.NarrowRoundTrip` | Proteus/TProteusMacros.h:91-92 | For a type of at most 32 bits, `(type)(KUInt32)v == v` for every value `v` of the type |
| `Conversions.WideRoundTrip` | Proteus/TProteusMacros.h:91-92 | For a type wider than 32 bits, `(type)(KUInt32)v == v` exactly when `v` lies in `[0, 2^32)` |
| `Conversions.PointerPolicyRoundTrip` | Proteus/TProteusMacros.h:101-102 | A pointer through `(KUInt32)(uintptr_t)` and back comes out as `p mod 2^32`; it equals `p` exactly when `p < 2^32`; null survives |
| `Bridge.ExitEffect` | Proteus/TProteusMacros.h:67 | `EXIT(addr)` sets the program counter to `(addr + 4) mod 2^32` and changes no other register and no memory |
| `Bridge.ExitWraps` | Proteus/TProteusMacros.h:67 | `EXIT(0xFFFFFFFC)` resumes at 0 and `EXIT(0)` at 4 |
| `Bridge.PushEffect` | Proteus/TProteusMacros.h:70 | `PUSH` from `sp = S` leaves `sp = (S - 4) mod 2^32` and stores the pushed word there; no other register and no other word changes |
| `Bridge.PopEffect` | Proteus/TProteusMacros.h:73 | `POP` from `sp = S` yields the word at `S`, delivers it to the target, leaves `sp = (S + 4) mod 2^32` and writes no memory |
| `Bridge.PopIntoSp` | Proteus/TProteusMacros.h:73 | `POP` into the stack pointer itself leaves it equal to the loaded word plus 4 |
| `Bridge.RPopEffect` | Proteus/TProteusMacros.h:76 | `RPOP` from `sp = S` yields the word at `(S - 4) mod 2^32` and delivers it after the decrement; it leaves `sp` at `S - 4` when the target is not `sp`, and writes no memory |
| `Bridge.PushPopRoundTrip` | Proteus/TProteusMacros.h:70-73 | When the `POP` target is not `sp`, `POP` right after `PUSH` yields the pushed word and restores `sp`; only the target register changes (`POP(SP, SP)` is covered by `PopIntoSp`) |
| `Bridge.PopRPopRoundTrip` | Proteus/TProteusMacros.h:73-76 | When neither target is `sp`, `RPOP` right after `POP` restores `sp` and re-reads the same word; memory is unchanged |
| `Bridge.PushThenRPop` | Proteus/TProteusMacros.h:70-76 | When the `RPOP` target is not `sp`, `RPOP` right after `PUSH` moves `sp` to `S - 8` and loads the word there, not the pushed one |
| `Bridge.PushKeepsAlignment` | Proteus/TProteusMacros.h:70 | `PUSH` keeps an aligned stack pointer aligned, whatever it pushes |
| `Bridge.PopKeepsAlignment` | Proteus/TProteusMacros.h:73-76 | `POP` and `RPOP` into a target other than `sp` keep an aligned stack pointer aligned |
| `Bridge.PeekAfterPoke` | Proteus/TProteusMacros.h:79-82 | `PEEK_W(b)` after `POKE_W(a, w)` yields `w` if `a == b` and the old word otherwise; `POKE_W` changes no register |
| `Bridge.GetGlobalW` | Proteus/TProteusMacros.h:91 | The word-policy global getter returns a value of its declared type |
| `Bridge.GetGlobalP` | Proteus/TProteusMacros.h:101 | The pointer-policy global getter returns a pointer below 2^32 |
| `Bridge.GetMemberW` | Proteus/TProteusMacros.h:111 | The word-policy member getter returns a value of its declared type |
| `Bridge.GetMemberP` | Proteus/TProteusMacros.h:114 | The pointer-policy member getter returns a pointer below 2^32 |
| `Bridge.GlobalWRoundTrip` | Proteus/TProteusMacros.h:89-92 | `SetG(v)` then `GetG()` returns `v` for a type of at most 32 bits; the setter changes no register and no other word |
| `Bridge.GlobalPRoundTrip` | Proteus/TProteusMacros.h:99-102 | Pointer-policy `SetG(p)` then `GetG()` returns `p mod 2^32`, which equals `p` exactly when `p < 2^32` |
| `Bridge.MemberAddressesCoincide` | Proteus/TProteusMacros.h:111-115 | Two handles reach the same member word if and only if their 32-bit bases are equal |
| `Bridge.FieldAddressesCoincide` | Proteus/TProteusMacros.h:110-115 | Two offsets on one handle reach the same word if and only if they agree modulo 2^32 |
| `Bridge.MemberWRoundTrip` | Proteus/TProteusMacros.h:110-112 | Word-policy member `Set(v)` then `Get()` on one handle returns `v` for a type of at most 32 bits |
| `Bridge.MemberPRoundTrip` | Proteus/TProteusMacros.h:113-115 | Pointer-policy member `Set(p)` then `Get()` on one handle returns `p mod 2^32`, which equals `p` exactly when `p < 2^32` |
| `Bridge.MemberSetFrame` | Proteus/TProteusMacros.h:110-115 | A member setter of either policy, for any value, leaves unchanged the same-offset word of a handle with a different 32-bit base |
| `Bridge.MembersIndependent` | Proteus/TProteusMacros.h:110-115 | For a type of at most 32 bits: setting a field through one handle, then the same field through a handle with a different 32-bit base, leaves the first value readable |
| `Proteus.Context.SetRegister` | Proteus/TProteusMacros.h:46-64 | Assignment through a register name writes exactly the slot the name denotes |
| `Proteus.Context.Exit` | Proteus/TProteusMacros.h:67 | The new state is `Bridge.Exit` of the old one, and the result is the null continuation |
| `Proteus.Context.Push` | Proteus/TProteusMacros.h:70 | The new register bank and memory are exactly `Bridge.Push` of the old ones |
| `Proteus.Context.Pop` | Proteus/TProteusMacros.h:73 | The new state and the returned word are exactly `Bridge.Pop` of the old state |
| `Proteus.Context.RPop` | Proteus/TProteusMacros.h:76 | The new state and the returned word are exactly `Bridge.RPop` of the old state |
| `Proteus.Context.PokeW` | Proteus/TProteusMacros.h:82 | The new state is exactly `Bridge.PokeW` of the old one |
| `Proteus.Context.SetGlobalW` | Proteus/TProteusMacros.h:92 | The new state is exactly `Bridge.SetGlobalW` of the old one |
| `Proteus.Context.SetGlobalP` | Proteus/TProteusMacros.h:102 | The new state is exactly `Bridge.SetGlobalP` of the old one |
| `Proteus.Context.SetMemberW` | Proteus/TProteusMacros.h:112 | The new state is exactly `Bridge.SetMemberW` of the old one |
| `Proteus.Context.SetMemberP` | Proteus/TProteusMacros.h:115 | The new state is exactly `Bridge.SetMemberP` of the old one |

Definitions without a contract of their own have no row; their properties are the lemmas above:
`Registers.Slot`, `Registers.Read` and `Registers.Write` (the register macros, lines 46-64),
`GuestMemory.Load` and `GuestMemory.Store` (`MEM->Read`/`MEM->Write`),
`Conversions.EncodeWord`, `Conversions.EncodePointer`,
`Conversions.DecodePointer`, `Bridge.Exit`, `Bridge.Push`, `Bridge.Pop`, `Bridge.RPop`,
`Bridge.PushedWord`, `Bridge.PeekW`, `Bridge.PokeW`, `Bridge.SetGlobalW`, `Bridge.SetGlobalP`,
`Bridge.SetMemberW`, `Bridge.SetMemberP` and `Bridge.MemberAddress`.

## Left out

- The global pointers `CPU`, `MEM` and `INT` (lines 39-41) are replaced by an explicit `Context` object. `INT` is used by no macro.
- The inside of `TMemory`: MMU translation, endianness, permissions, aborts. Memory is a total map of whole words, so the byte overlap of unaligned or overlapping word accesses is not captured. No member compares the word map with a byte-addressed memory. The argument for aligned accesses is informal: distinct aligned words cover disjoint bytes (`Words.AlignedWordsDisjoint`). So a byte memory would keep each aligned word independent, exactly as the word map does.
- Memory faults. The macros throw away what `MEM->Read` and `MEM->Write` return, and every address holds a word in the model. The unspecified `w` that a failed read leaves behind is not modelled.
- The `_DECL` macros (lines 94-97 and 104-107). They only declare `extern` names and have no behaviour.
- Token pasting and name generation. Each generated pair is a parameterised function (getter) and method (setter), with the address, offset and type as parameters.
- Host object layout: a member handle is the host pointer `this`, used only through its `(KUInt32)(uintptr_t)` cast.
- What the dispatcher does with the `nullptr` that `EXIT` returns, and the rule that a patch ends in exactly one `EXIT`.
- Banked register modes: only the current bank is modelled.
- A `sp` argument to `PUSH`/`POP`/`RPOP` that is a local variable rather than a register.
- Host types other than integers and enumerations, such as `bool` and floating point. An integer type is a bit width (at least one) and a signedness. Signed conversions use the modular rule. C++20 requires that rule, and older compilers used as hosts implement it.
- Host pointers are fixed at 64 bits. On a 32-bit host the pointer policy would be lossless.
