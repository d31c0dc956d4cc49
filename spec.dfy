/**
 * The interpreter's semantics as pure functions on a snapshot of its state.
 *
 * `Next` is one trip round the main loop of src/main.rs: the teleport
 * shortcut, or the fetch of one opcode, its operands and its effect. Each
 * function follows the order in which the interpreter reads operands,
 * resolves them and panics, so that the snapshot left behind by a failing
 * step is the state at the point of the panic. The class `VM` in module
 * Machine is proved to compute exactly these functions.
 */
module Spec {
  import opened Words

  /** The interpreter's fatal conditions (Rust panics). */
  datatype Error =
    | LiteralTarget           // set_value: "Set target is literal"
    | RegisterIndex           // regs[...] indexed with 8 or more
    | MemoryIndex             // mem[...] indexed with 32768 or more (fetch, rmem, wmem)
    | StackUnderflow          // pop on an empty stack
    | DivideByZero            // mod with divisor 0
    | AddOverflow             // u16 overflow of the sum in add (debug build)
    | UnhandledOpcode(op: int)

  datatype Result<T> = Ok(value: T) | Err(error: Error)

  /**
   * What one step leaves the machine doing: carry on, stop cleanly (halt,
   * ret or the teleport shortcut on an empty stack), stop on a panic, or
   * spin for ever inside `in` (end of input after a command byte).
   */
  datatype Status = Running | Halted | Failed(error: Error) | Diverged

  /**
   * A snapshot of `State`, with the console abstracted: `input` is the bytes
   * not yet read from stdin, `output` the code points written by `out`.
   * The stack's top is its last element, as with `Vec::push` and `Vec::pop`.
   */
  datatype State = State(
    mem: seq<int>,
    regs: seq<int>,
    stack: seq<int>,
    pc: nat,
    debug: bool,
    patch: bool,
    input: seq<int>,
    output: seq<int>)

  datatype Outcome = Outcome(status: Status, st: State)

  // Constants of the teleport shortcut and of the `in` command bytes
  const PATCH_PC: int := 6027
  const PATCH_R0: int := 6
  const PATCH_R7: int := 25734
  const CMD_DEBUG: int := 'x' as int
  const CMD_PATCH: int := '!' as int
  const NEWLINE: int := '\n' as int
  /** What `out` prints for a word that is not a Unicode scalar value. */
  const PLACEHOLDER: int := '?' as int

  /** The types of `State`'s fields: fixed-size arrays of u16, a stack of u16. */
  predicate Valid(s: State)
  {
    && |s.mem| == MEM_SIZE && AllWords(s.mem)
    && |s.regs| == NUM_REGS && AllWords(s.regs)
    && AllWords(s.stack)
    && AllBytes(s.input)
  }

  /** The state `main` builds, once `load_prog` has filled memory with `image`. */
  function Init(image: seq<int>, input: seq<int>): (s: State)
    requires |image| == MEM_SIZE && AllWords(image) && AllBytes(input)
    ensures Valid(s)
  {
    State(image, seq(NUM_REGS, _ => 0), [], 0, false, false, input, [])
  }

  function Top(stack: seq<int>): int
    requires stack != []
  {
    stack[|stack| - 1]
  }

  function Pop(stack: seq<int>): seq<int>
    requires stack != []
  {
    stack[..|stack| - 1]
  }

  /** `get_value`: a literal stands for itself, a register reference for the register. */
  function Resolve(regs: seq<int>, w: int): (r: Result<int>)
    requires |regs| == NUM_REGS && AllWords(regs) && IsWord(w)
    ensures r.Ok? ==> IsWord(r.value)
  {
    if IsLiteral(w) then Ok(w)
    else if RegIndex(w) < NUM_REGS then Ok(regs[RegIndex(w)])
    else Err(RegisterIndex)
  }

  /**
   * `set_value`: the target must be a register reference; the value is
   * resolved again before it is stored.
   */
  function Assign(s: State, target: int, value: int): (o: Outcome)
    requires Valid(s) && IsWord(target) && IsWord(value)
    ensures Valid(o.st)
  {
    if IsLiteral(target) then Outcome(Failed(LiteralTarget), s)
    else match Resolve(s.regs, value)
      case Err(e) => Outcome(Failed(e), s)
      case Ok(v) =>
        if RegIndex(target) < NUM_REGS then Outcome(Running, s.(regs := s.regs[RegIndex(target) := v]))
        else Outcome(Failed(RegisterIndex), s)
  }

  /** Number of operand words each opcode reads after the opcode word. */
  function Arity(op: int): nat
  {
    if op == 0 || op == 18 || op == 21 then 0
    else if op == 2 || op == 3 || op == 6 || op == 17 || op == 19 || op == 20 then 1
    else if op == 1 || op == 7 || op == 8 || op == 14 || op == 15 || op == 16 then 2
    else if 4 <= op <= 13 then 3
    else 0
  }

  /** The opcodes `eq`, `gt`, `add`, `mult`, `mod`, `and`, `or`: target, two values. */
  predicate IsBinary(op: int)
  {
    op == 4 || op == 5 || (9 <= op <= 13)
  }

  /** The value a binary opcode stores, from its two resolved operands. */
  function BinaryValue(op: int, x: int, y: int): (r: Result<int>)
    requires IsBinary(op) && IsWord(x) && IsWord(y)
    ensures r.Ok? ==> IsWord(r.value)
  {
    AndOrBelowModulus(x, y);
    if op == 4 then Ok(if x == y then 1 else 0)
    else if op == 5 then Ok(if x > y then 1 else 0)
    else if op == 9 then (if x + y >= WORD_LIMIT then Err(AddOverflow) else Ok((x + y) % MODULUS))
    else if op == 10 then Ok((x * y) % MODULUS)
    else if op == 11 then (if y == 0 then Err(DivideByZero) else Ok(x % y))
    else if op == 12 then Ok(And16(x, y))
    else Ok(Or16(x, y))
  }

  /** A binary opcode: resolve both values, left first, compute, store. */
  function Binary(op: int, s: State, target: int, a: int, b: int): (o: Outcome)
    requires Valid(s) && IsBinary(op) && IsWord(target) && IsWord(a) && IsWord(b)
    ensures Valid(o.st)
  {
    match Resolve(s.regs, a)
    case Err(e) => Outcome(Failed(e), s)
    case Ok(x) =>
      match Resolve(s.regs, b)
      case Err(e) => Outcome(Failed(e), s)
      case Ok(y) =>
        match BinaryValue(op, x, y)
        case Err(e) => Outcome(Failed(e), s)
        case Ok(v) => Assign(s, target, v)
  }

  /** `jt` (`onNonZero`) and `jf`: jump to the raw target word on the condition. */
  function Branch(s: State, cond: int, target: int, onNonZero: bool): (o: Outcome)
    requires Valid(s) && IsWord(cond) && IsWord(target)
    ensures Valid(o.st)
  {
    match Resolve(s.regs, cond)
    case Err(e) => Outcome(Failed(e), s)
    case Ok(c) => if (c != 0) == onNonZero then Outcome(Running, s.(pc := target)) else Outcome(Running, s)
  }

  /** What `out` prints: `char::from_u32` fails only on the UTF-16 surrogates. */
  function OutChar(v: int): (c: int)
    ensures c == v || c == PLACEHOLDER
    ensures c == v <==> !(0xD800 <= v <= 0xDFFF)
  {
    if 0xD800 <= v <= 0xDFFF then PLACEHOLDER else v
  }

  /** `read_line`: drop everything up to and including the next newline. */
  function SkipLine(input: seq<int>): (rest: seq<int>)
    ensures |rest| <= |input|
  {
    if input == [] then []
    else if input[0] == NEWLINE then input[1..]
    else SkipLine(input[1..])
  }

  /**
   * The byte loop of `in`. `last` is the content of the one-byte buffer,
   * which starts at 0 and which `read` leaves untouched at end of input.
   * The two command bytes each discard the rest of their line and loop;
   * any other byte is stored through `set_value` and ends the loop. At end
   * of input the buffer is read again: a command byte then repeats for ever.
   */
  function ReadIn(s: State, target: int, last: int): (o: Outcome)
    requires Valid(s) && IsWord(target) && IsByte(last)
    ensures Valid(o.st)
    decreases |s.input|
  {
    if s.input == [] then
      if last == CMD_DEBUG || last == CMD_PATCH then Outcome(Diverged, s)
      else Assign(s, target, last)
    else
      var b, rest := s.input[0], s.input[1..];
      AllBytesDrop(s.input, 1);
      if b == CMD_DEBUG then
        SkipLineSuffix(rest);
        ReadIn(s.(input := SkipLine(rest), debug := !s.debug), target, b)
      else if b == CMD_PATCH then
        SkipLineSuffix(rest);
        ReadIn(s.(input := SkipLine(rest), patch := true, regs := s.regs[7 := PATCH_R7]), target, b)
      else Assign(s.(input := rest), target, b)
  }

  /** `SkipLine` leaves a suffix of its input. */
  lemma {:induction false} SkipLineSuffix(input: seq<int>)
    ensures SkipLine(input) == input[|input| - |SkipLine(input)|..]
    ensures AllBytes(input) ==> AllBytes(SkipLine(input))
  {
    if input != [] && input[0] != NEWLINE {
      SkipLineSuffix(input[1..]);
    }
  }

  /**
   * One opcode, `op`, whose operand words are `args`, in state `s` whose pc
   * is already past the operands.
   */
  function Perform(op: int, args: seq<int>, s: State): (o: Outcome)
    requires Valid(s) && 0 <= op <= 21 && |args| == Arity(op) && AllWords(args)
    requires s.pc <= MEM_SIZE
    ensures Valid(o.st)
  {
    if op == 0 then Outcome(Halted, s)
    else if op == 1 then Assign(s, args[0], args[1])
    else if op == 2 then
      match Resolve(s.regs, args[0])
      case Err(e) => Outcome(Failed(e), s)
      case Ok(v) => Outcome(Running, s.(stack := s.stack + [v]))
    else if op == 3 then
      if s.stack == [] then Outcome(Failed(StackUnderflow), s)
      else Assign(s.(stack := Pop(s.stack)), args[0], Top(s.stack))
    else if IsBinary(op) then Binary(op, s, args[0], args[1], args[2])
    else if op == 6 then Outcome(Running, s.(pc := args[0]))
    else if op == 7 then Branch(s, args[0], args[1], true)
    else if op == 8 then Branch(s, args[0], args[1], false)
    else if op == 14 then
      match Resolve(s.regs, args[1])
      case Err(e) => Outcome(Failed(e), s)
      case Ok(v) => Not15Value(v); Assign(s, args[0], Not15(v))
    else if op == 15 then
      match Resolve(s.regs, args[1])
      case Err(e) => Outcome(Failed(e), s)
      case Ok(addr) => if addr < MEM_SIZE then Assign(s, args[0], s.mem[addr]) else Outcome(Failed(MemoryIndex), s)
    else if op == 16 then
      match Resolve(s.regs, args[1])
      case Err(e) => Outcome(Failed(e), s)
      case Ok(v) =>
        match Resolve(s.regs, args[0])
        case Err(e) => Outcome(Failed(e), s)
        case Ok(addr) =>
          if addr < MEM_SIZE then Outcome(Running, s.(mem := s.mem[addr := v])) else Outcome(Failed(MemoryIndex), s)
    else if op == 17 then
      var pushed := s.(stack := s.stack + [s.pc]);
      match Resolve(s.regs, args[0])
      case Err(e) => Outcome(Failed(e), pushed)
      case Ok(addr) => Outcome(Running, pushed.(pc := addr))
    else if op == 18 then
      if s.stack == [] then Outcome(Halted, s)
      else Outcome(Running, s.(pc := Top(s.stack), stack := Pop(s.stack)))
    else if op == 19 then
      match Resolve(s.regs, args[0])
      case Err(e) => Outcome(Failed(e), s)
      case Ok(v) => Outcome(Running, s.(output := s.output + [OutChar(v)]))
    else if op == 20 then ReadIn(s, args[0], 0)
    else Outcome(Running, s)
  }

  /**
   * Everything after the opcode fetch: `s.pc` is just past the opcode word.
   * The operand words are read before anything else happens; reading past
   * the end of memory panics with pc stopped at the end.
   */
  function Exec(op: int, s: State): (o: Outcome)
    requires Valid(s) && s.pc <= MEM_SIZE
    ensures Valid(o.st)
  {
    if !(0 <= op <= 21) then Outcome(Failed(UnhandledOpcode(op)), s)
    else if s.pc + Arity(op) > MEM_SIZE then Outcome(Failed(MemoryIndex), s.(pc := MEM_SIZE))
    else
      var args := s.mem[s.pc .. s.pc + Arity(op)];
      assert AllWords(args) by { assert forall i | 0 <= i < |args| :: args[i] == s.mem[s.pc + i]; }
      Perform(op, args, s.(pc := s.pc + Arity(op)))
  }

  /** What `Exec` does once all operand words of a known opcode lie inside memory. */
  lemma ExecOperands(op: int, s: State, args: seq<int>)
    requires Valid(s) && 0 <= op <= 21 && s.pc + |args| <= MEM_SIZE && |args| == Arity(op)
    requires forall i | 0 <= i < |args| :: args[i] == s.mem[s.pc + i]
    ensures AllWords(args)
    ensures Exec(op, s) == Perform(op, args, s.(pc := s.pc + Arity(op)))
  {
    assert args == s.mem[s.pc .. s.pc + Arity(op)];
  }

  /** One trip round the main loop. */
  function Next(s: State): (o: Outcome)
    requires Valid(s)
    ensures Valid(o.st)
  {
    if s.pc == PATCH_PC && s.patch then
      var s1 := s.(regs := s.regs[0 := PATCH_R0]);
      if s1.stack == [] then Outcome(Halted, s1)
      else Outcome(Running, s1.(pc := Top(s1.stack), stack := Pop(s1.stack)))
    else if s.pc >= MEM_SIZE then Outcome(Failed(MemoryIndex), s)
    else Exec(s.mem[s.pc], s.(pc := s.pc + 1))
  }

  /** At most `fuel` trips round the main loop, stopping at the first step that does not run on. */
  function Run(s: State, fuel: nat): (o: Outcome)
    requires Valid(s)
    ensures Valid(o.st)
    decreases fuel, 0
  {
    if fuel == 0 then Outcome(Running, s) else RunOn(s, fuel - 1)
  }

  /** One trip round the main loop from `s`, then at most `fuel` more while it runs on. */
  function RunOn(s: State, fuel: nat): (o: Outcome)
    requires Valid(s)
    ensures Valid(o.st)
    decreases fuel, 1
  {
    var o1 := Next(s);
    if o1.status.Running? then Run(o1.st, fuel) else o1
  }
}
