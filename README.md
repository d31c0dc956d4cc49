# A verified model of a Synacor virtual machine interpreter

The interpreter in `src/main.rs` runs programs for the 15-bit Synacor
architecture:
- 32768 memory cells of 16 bits;
- eight registers;
- an unbounded stack;
- 22 opcodes.

An operand word below 32768 is a literal. A word from 32768 up names the register `word - 32768`.

The interpreter also has two operator commands. They are read by the `in` opcode instead of being delivered to the program:
- `x` toggles a trace mode;
- `!` arms a shortcut that skips one subroutine at address 6027. Arming it also presets register 7 to 25734.

This project models the interpreter's core in five modules:

- **Words** (`words.dfy`). Word constants and the literal/register encoding. It also holds the u16 operators `&`, `|` and `!`. These are defined bit by bit and proved to act bit by bit, and to agree with the masks the interpreter uses to decode operands.
- **Spec** (`spec.dfy`). The semantics as pure functions on a snapshot `State` (memory, registers, stack, pc, the two flags, the unread input bytes and the printed code points):
  - `Resolve` is `get_value`; `Assign` is `set_value`.
  - `ReadIn` is the byte loop of `in`.
  - `Exec` and `Perform` are the opcode dispatch.
  - `Next` is one trip round the main loop, including the teleport shortcut.
  - `Run` is a bounded number of trips. `RunOn` is one trip followed by a bounded run; the two call each other.
  - A panic becomes a `Failed(error)` status. It carries the state as it was at the point of the panic, with pc advanced past every word read so far.
- **Machine** (`machine.dfy`). The `State` struct as a class `VM`:
  - memory and registers are fixed-size arrays updated in place; the other fields are reassigned;
  - `get_opcode`/`get_operand`, `set_value`, the `in` loop, the dispatch and the main loop are methods;
  - every method but `Fetch` is proved to produce exactly the status and the new state that the corresponding Spec function gives for the old state; `Fetch`'s contract gives the word read and the new pc directly.
- **Laws** (`laws.dfy`). Properties of the semantics:
  - operand decoding and register writes;
  - the arithmetic opcodes and the register invariant (every register stays below 32768, so `add` never overflows);
  - memory and stack opcodes: push/pop and call/ret round trips;
  - control flow and the error cases;
  - the `in` command bytes and the teleport shortcut;
  - composition of runs.
- **Programs** (`programs.dfy`). Three small programs run end to end. A program is given instruction by instruction, as the words memory holds from each instruction's address on.

Where the code departs from the Synacor challenge's architecture specification, which it implements, this model follows the code:
- `jmp`, `jt` and `jf` do not resolve their target operand. The raw word becomes pc, so a register reference as a target is a jump to an address from 32768 up (src/main.rs:152-154, 160-163, 170-173).
- `call` does resolve its target (src/main.rs:266).
- `rmem` and `pop` pass the word they read to `set_value`, which resolves it again. A cell or stack word from 32768 up is therefore read as a register reference, or fails when it is 32776 or more (src/main.rs:64, 117-118, 247-249).
- There is no error at decode time. An operand word of 32776 or more fails only where a register is indexed with it. As the raw target of `jmp`, `jt` or `jf` it becomes pc, and like any jump target outside memory it fails at the next fetch, not at the jump (src/main.rs:31).
- An unknown opcode fails after the opcode fetch has advanced pc. Nothing else has changed at that point (src/main.rs:33, 329-331).
- `add` computes a u16 sum before reducing it modulo 32768. In a debug build a sum of 65536 or more panics, and the model treats it as the error `AddOverflow`. A release build would wrap, which gives the same stored value, because 32768 divides 65536. `Laws.NoAddOverflow` shows that the panic cannot be reached from a state with 15-bit registers, and `Laws.RunKeepsRegsBelow` shows that every reachable state has 15-bit registers.
- `mod` by zero panics (src/main.rs:205). This is the error `DivideByZero`.
- When stdin is at end of input, `read` leaves the one-byte buffer as it was (src/main.rs:298-301):
  - before any byte has been read, the buffer holds 0 and 0 is stored;
  - after a command byte, the command repeats for ever, which is modelled as the status `Diverged`.

## Model

| member | source | states |
|---|---|---|
| Words.AndBitwise | src/main.rs:216 | Below bit n, bit k of the AND of x and y is 1 exactly when bit k of both x and y is 1 |
| Words.OrBitwise | src/main.rs:227 | Below bit n, bit k of the OR of x and y is 1 exactly when bit k of x or of y is 1 |
| Words.NotBitwise | src/main.rs:237 | Below bit n, bit k of `!x` is the complement of bit k of x |
| Words.Not16Value | src/main.rs:237 | u16 `!x` of a word x is `0xffff - x` |
| Words.OperandMasks | src/main.rs:51-58 | The test `w & 0x8000 == 0` holds exactly for literals; `w & 0x7fff` is the register index of a register reference |
| Words.AndOrBelowModulus | src/main.rs:209-230 | AND and OR of u16 words are u16 words; of 15-bit values, 15-bit values |
| Words.Not15Value | src/main.rs:231-240 | `(!x) & 0x7fff` is `0x7fff - x mod 32768`, and `0x7fff - x` for a 15-bit x |
| Spec.Valid | src/main.rs:7-15 | The field types of `State`: 32768 u16 memory cells, 8 u16 registers, a stack of u16 words, and input made of bytes |
| Spec.Init | src/main.rs:18-28 | The initial state (loaded image, zero registers, empty stack, pc 0, both flags off) is well typed |
| Spec.Arity | src/main.rs:89-331 | The number of operand words each opcode reads: 0 for halt, ret and noop; 1 for push, pop, jmp, call, out and in; 2 for set, jt, jf, not, rmem and wmem; 3 for eq, gt, add, mult, mod, and, or |
| Spec.OutChar | src/main.rs:284-288 | `out` prints a UTF-16 surrogate as `?` and any other word as itself |
| Spec.Resolve | src/main.rs:51-58 | `get_value` yields a u16 word when it succeeds |
| Spec.Assign | src/main.rs:60-66 | `set_value` keeps the state well typed |
| Spec.BinaryValue | src/main.rs:123-230 | The value stored by `eq`, `gt`, `add`, `mult`, `mod`, `and`, `or` is a u16 word |
| Spec.Binary | src/main.rs:123-230 | A binary opcode keeps the state well typed |
| Spec.Branch | src/main.rs:156-175 | `jt`/`jf` keep the state well typed |
| Spec.SkipLine | src/main.rs:305-306 | Discarding a line never lengthens the input |
| Spec.SkipLineSuffix | src/main.rs:305-306 | Discarding a line leaves a suffix of the input, still made of bytes |
| Spec.ReadIn | src/main.rs:298-322 | The `in` byte loop keeps the state well typed |
| Spec.Perform | src/main.rs:89-332 | Every opcode's effect keeps the state well typed |
| Spec.Exec | src/main.rs:87-332 | Fetching operands and dispatching keeps the state well typed |
| Spec.ExecOperands | src/main.rs:38-49 | Once all operand words lie in memory, dispatch performs the opcode on exactly those words with pc past them |
| Spec.Next | src/main.rs:68-335 | One trip round the main loop keeps the state well typed |
| Spec.Run | src/main.rs:68-335 | Any number of trips keeps the state well typed |
| Spec.RunOn | src/main.rs:68-335 | One trip and any number more keep the state well typed |
| Machine.VM.constructor | src/main.rs:18-28 | The new machine is the initial state over the given image and input |
| Machine.VM.Fetch | src/main.rs:30-49 | Reads the word at pc and advances pc; at pc 32768 or more, fails with an index error and leaves pc |
| Machine.VM.SetValue | src/main.rs:60-66 | Leaves exactly the state and status `Spec.Assign` gives |
| Machine.VM.ReadInput | src/main.rs:298-322 | The byte loop leaves exactly the state and status `Spec.ReadIn` gives from an empty buffer |
| Machine.VM.Step | src/main.rs:69-334 | One trip round the loop leaves exactly the state and status `Spec.Next` gives |
| Machine.VM.Execute | src/main.rs:89-332 | The opcode match leaves exactly the state and status `Spec.Exec` gives |
| Machine.VM.ExecSet | src/main.rs:95-102 | `set` computes `Spec.Exec(1, ·)` |
| Machine.VM.ExecPush | src/main.rs:103-111 | `push` computes `Spec.Exec(2, ·)` |
| Machine.VM.ExecPop | src/main.rs:112-122 | `pop` computes `Spec.Exec(3, ·)` |
| Machine.VM.ExecBinary | src/main.rs:123-230 | The seven binary opcodes compute `Spec.Exec(op, ·)` |
| Machine.VM.Compute | src/main.rs:123-230 | Once the three operand words are fetched, resolving, computing and storing leaves exactly what `Spec.Binary` gives |
| Machine.VM.ExecJmp | src/main.rs:149-155 | `jmp` computes `Spec.Exec(6, ·)` |
| Machine.VM.ExecBranch | src/main.rs:156-175 | `jt` and `jf` compute `Spec.Exec(7, ·)` and `Spec.Exec(8, ·)` |
| Machine.VM.ExecNot | src/main.rs:231-240 | `not` computes `Spec.Exec(14, ·)` |
| Machine.VM.Complement | src/main.rs:236-239 | Once the two operand words are fetched, `not`'s body leaves exactly what `Spec.Perform(14, ·)` gives |
| Machine.VM.ExecReadMemory | src/main.rs:241-250 | `rmem` computes `Spec.Exec(15, ·)` |
| Machine.VM.ExecWriteMemory | src/main.rs:251-259 | `wmem` computes `Spec.Exec(16, ·)` |
| Machine.VM.ExecCall | src/main.rs:260-267 | `call` computes `Spec.Exec(17, ·)` |
| Machine.VM.ExecRet | src/main.rs:268-276 | `ret` computes `Spec.Exec(18, ·)` |
| Machine.VM.ExecOut | src/main.rs:277-290 | `out` computes `Spec.Exec(19, ·)` |
| Machine.VM.ExecIn | src/main.rs:291-325 | `in` computes `Spec.Exec(20, ·)` |
| Machine.VM.Run | src/main.rs:68-335 | Up to `fuel` trips round the loop leave exactly the state and status `Spec.Run` gives |
| Laws.NextAt | src/main.rs:30-49 | A step at a decoded instruction performs the opcode on its operand words with pc past them |
| Laws.ResolveByMasks | src/main.rs:51-58 | Resolution stated with the source's masks: a literal, a register's content, or an index error |
| Laws.ResolveBelowModulus | src/main.rs:51-58 | With 15-bit registers, a resolved operand is 15-bit |
| Laws.AssignWritesOneRegister | src/main.rs:60-66 | A literal target fails and changes nothing; success iff the target names a register and the value resolves; then only that register changes, to the resolved value |
| Laws.AssignKeepsRegsBelow | src/main.rs:60-66 | A register write keeps every register 15-bit |
| Laws.BinaryValueBelowModulus | src/main.rs:123-230 | On 15-bit operands only `mod` by zero fails, and every result is 15-bit |
| Laws.MultFitsU32 | src/main.rs:194 | The product of two u16 values fits in u32 |
| Laws.SetStores | src/main.rs:95-102 | `set` stores the resolved value in the target register and moves pc by 3; nothing else changes |
| Laws.AddStores | src/main.rs:176-186 | `add` fails on a u16 overflow; otherwise it stores the sum mod 32768 and moves pc by 4 |
| Laws.BinaryStores | src/main.rs:123-230 | With 15-bit registers each binary opcode stores its result (equality, order, sum, product, remainder, AND, OR) in the target, moves pc by 4 and changes nothing else |
| Laws.ModByZeroFails | src/main.rs:198-208 | `mod` with a zero divisor fails with pc past the operands |
| Laws.NotStores | src/main.rs:231-240 | `not` stores `0x7fff - x` for a 15-bit operand x |
| Laws.NotBody | src/main.rs:236-239 | After its operands, `not` of a 15-bit operand x stores `0x7fff - x` and changes nothing else |
| Laws.ReadInKeepsRegsBelow | src/main.rs:298-322 | The `in` loop keeps every register 15-bit |
| Laws.PerformKeepsRegsBelow | src/main.rs:89-332 | Every opcode keeps every register 15-bit |
| Laws.StepKeepsRegsBelow | src/main.rs:68-335 | One step keeps every register 15-bit |
| Laws.ReadInStatus | src/main.rs:298-322 | The `in` loop ends by storing a byte, by a failing `set_value`, or by spinning |
| Laws.PerformNoAddOverflow | src/main.rs:89-332 | With 15-bit registers no opcode fails with a u16 overflow |
| Laws.BinaryNoAddOverflow | src/main.rs:176-186 | With 15-bit registers `add` never overflows u16 |
| Laws.NoAddOverflow | src/main.rs:176-186 | With 15-bit registers a step never fails with a u16 overflow |
| Laws.RunKeepsRegsBelow | src/main.rs:68-335 | Every state reached from 15-bit registers has 15-bit registers |
| Laws.InitRegsBelow | src/main.rs:22 | The initial registers are 15-bit |
| Laws.WriteMemoryOneCell | src/main.rs:251-259 | `wmem` writes the resolved value to the resolved address and changes nothing else but pc; an address from 32768 up fails |
| Laws.ReadMemoryResolvesCell | src/main.rs:241-250 | `rmem` copies a literal cell, reads a register-reference cell through that register, fails on a cell of 32776 or more |
| Laws.MemoryAddressOutOfRange | src/main.rs:247-258 | `rmem`/`wmem` at an address from 32768 up fail with a memory-index error; for `rmem` whatever its destination word, since the address is examined first |
| Laws.PushThenPop | src/main.rs:103-122 | `push a; pop r` leaves the pushed value in r and the stack as before |
| Laws.PopEmptyFails | src/main.rs:117-121 | `pop` on an empty stack fails with stack underflow |
| Laws.PopResolvesTop | src/main.rs:112-122 | `pop` removes the top word and hands it to `set_value`: a word below 32768 is stored, a register reference stores that register's content, a word of 32776 or more fails; pc moves past the operand in every case |
| Laws.CallThenRet | src/main.rs:260-276 | `call` pushes exactly the pc after its operand and jumps to the resolved target; a `ret` there restores pc and stack |
| Laws.RetPops | src/main.rs:268-276 | `ret` jumps to the popped word, or halts cleanly on an empty stack |
| Laws.ReadInFrame | src/main.rs:298-322 | The `in` loop changes neither memory, stack, pc nor output |
| Laws.ArityBinary | src/main.rs:89-331 | No opcode reads more than three operand words, and the ones that read three are exactly the binary opcodes |
| Laws.PcAdvances | src/main.rs:38-49 | An opcode other than a jump, call or ret that runs on leaves pc just past its operands |
| Laws.PerformKeepsPc | src/main.rs:89-332 | Once its operands are fetched, an opcode other than a jump, call or ret that runs on does not move pc |
| Laws.JmpTakesRawWord | src/main.rs:149-155 | `jmp` takes its raw operand word as pc |
| Laws.BranchOnCondition | src/main.rs:156-175 | `jt`/`jf` jump to the raw target word iff the resolved condition is non-zero/zero, else move pc by 3 |
| Laws.JumpOutsideMemoryFails | src/main.rs:31 | After a jump outside memory the next fetch fails |
| Laws.OutAppends | src/main.rs:277-290 | `out` appends the printed form of the resolved word to the output and moves pc past its operand; nothing else changes |
| Laws.OutCharScalar | src/main.rs:284-288 | A word prints as itself exactly when `char::from_u32` accepts it (a Unicode scalar value), and as `?` otherwise; what is printed is always a scalar value |
| Laws.NoopAndHalt | src/main.rs:90-94 | `noop` only moves pc; `halt` stops cleanly with only pc changed |
| Laws.UnknownOpcodeFails | src/main.rs:329-331 | An opcode above 21 fails, with nothing changed but the fetch's pc increment |
| Laws.SkipLineDropsLine | src/main.rs:305-306 | Discarding a line removes exactly the rest of the line and its newline |
| Laws.InNeverDeliversCommand | src/main.rs:303-321 | When `in` completes, the target holds a byte that is neither `x` nor `!` |
| Laws.InStoresByte | src/main.rs:291-325 | An `in` whose first byte is data stores exactly that byte in the target, leaves the rest of the input and moves pc past its operand; nothing else changes |
| Laws.ReadInData | src/main.rs:317-320 | A data byte at the head of the input is stored in the target at once, with that one byte consumed and nothing else changed |
| Laws.AfterCommand | src/main.rs:303-316 | Consuming a command byte and its line keeps the state well formed, leaves the input after the line and keeps every register but r7 |
| Laws.ReadInCommand | src/main.rs:303-316 | A whole `x`/`!` line at the head of the input is consumed and the byte loop goes on with exactly what follows it |
| Laws.ReadInAfterCommands | src/main.rs:298-322 | After any number of whole `x`/`!` lines the byte loop stores the first data byte, leaves the input after it and keeps every register but the target and r7 |
| Laws.InAfterCommands | src/main.rs:291-325 | `in` after any number of whole command lines runs on with pc past its operand, the first data byte in the target and the input after it left |
| Laws.DebugCommand | src/main.rs:304-309 | `x` toggles the trace flag and discards its line; the next data byte is stored |
| Laws.DebugRead | src/main.rs:298-309 | The byte loop on `x`, a line and a data byte toggles the trace flag, consumes exactly that input and stores the byte |
| Laws.PatchCommand | src/main.rs:310-316 | `!` arms the shortcut, presets r7 to 25734 and discards its line; the next data byte is stored |
| Laws.PatchRead | src/main.rs:298-316 | The byte loop on `!`, a line and a data byte arms the shortcut, presets r7, consumes exactly that input and stores the byte |
| Laws.InAtEndOfInput | src/main.rs:298-316 | At end of input 0 is stored if no byte was read; after `x` or `!` whose line ends the input, with or without its newline, the loop never ends |
| Laws.TeleportReturns | src/main.rs:71-83 | At 6027 with the shortcut armed, r0 becomes 6 and the return address is popped into pc, or the machine halts on an empty stack |
| Laws.TeleportIgnoresMemory | src/main.rs:71-83 | The shortcut fetches nothing: memory contents make no difference to it |
| Laws.RunSplit | src/main.rs:68-335 | `m + n` trips are `m` trips followed by `n` more while running |
| Laws.RunFirst | src/main.rs:68-335 | A step that runs on is the first of `n + 1` trips, the other `n` starting from its state |
| Laws.RunStops | src/main.rs:68-335 | A step that does not run on ends a run, whatever the fuel |
| Programs.LoadedWords | src/main.rs:30-49 | The words of a program placed from an address on are the words the fetches read |
| Programs.SetRuns | src/main.rs:95-102 | A `set` of a register to a literal is one running trip that stores it and moves pc by 3 |
| Programs.OutRuns | src/main.rs:277-290 | An `out` is one running trip that appends the printed code point and moves pc by 2 |
| Programs.HaltRuns | src/main.rs:90-94 | A `halt` ends the run with only pc moved |
| Programs.OutThenHalt | src/main.rs:277-290 | `out 'A'; halt` prints `A` and halts cleanly |
| Programs.AddProgram | src/main.rs:95-186 | `set r0 4; set r1 1; add r2 r0 r1; out r2; halt` prints code point 5 and halts with r0, r1, r2 = 4, 1, 5 |
| Programs.AddHead | src/main.rs:95-102 | The two `set`s take two trips and leave 4 and 1 in r0 and r1 with pc 6 |
| Programs.AddTail | src/main.rs:176-290 | From there, `add r2 r0 r1; out r2; halt` prints 5 and halts with r2 = 5 |
| Programs.AddSum | src/main.rs:176-186 | `add r2 r0 r1` with r0 = 4 and r1 = 1 takes one trip and leaves 5 in r2 |
| Programs.AddPrint | src/main.rs:277-290 | `out r2; halt` with r2 = 5 prints 5 and halts at pc 13 |
| Programs.TeleportProgram | src/main.rs:71-83 | With input `!`, newline, `A`: `in`, `call 6027`, `out r0`, `halt` prints 6 with r7 = 25734 |
| Programs.TeleportHead | src/main.rs:71-83 | `in r0` consumes the whole input and arms the shortcut; `call 6027` then comes straight back with r0 = 6, three trips in all |
| Programs.TeleportTail | src/main.rs:277-290 | `out r0; halt` after the shortcut prints 6 and halts at pc 7 |

## Left out

- `load_prog` (src/main.rs:340-349): reading the image file is I/O. The machine starts from any 32768-word image.
- Console messages are not part of `output`: the trace output (every `print!` guarded by `debug`), the messages printed for the two commands, and the line `Patching Ackermann function...` that the teleport shortcut prints every time it fires (src/main.rs:72). Only the `debug` flag itself is modelled.
- stdin is a byte sequence; `output` is the sequence of code points `out` prints, which is stdout without the console messages above. Their I/O errors, the flush after `out` and `read_line`'s failure on input that is not UTF-8 are not modelled.
- `last_pc` is written on every trip (src/main.rs:69) and never read, so it is not modelled.
- `main`'s unbounded loop is modelled by `Spec.Run` and `Machine.VM.Run` with a `fuel` bound on the number of trips. A run that never stops is not captured beyond any finite bound.
- Spec.Init: memory is any given image; the zero padding `load_prog` leaves after a short file is part of that image.
- Spec.Resolve, Spec.Assign, Spec.Binary, Spec.Branch, Spec.ReadIn, Spec.Perform, Spec.Exec, Spec.Next, Spec.Run, Spec.RunOn: their own contracts state only that the state stays well typed. What they compute is stated by the Laws lemmas and by the Machine methods proved equal to them.
- Spec.BinaryValue: the add overflow is the debug build's panic. A release build wraps, which stores the same value, so only the error case differs.
- `Diverged` stands for the `in` loop spinning for ever at end of input after a command byte. The model reports it instead of looping.
