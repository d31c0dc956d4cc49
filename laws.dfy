/**
 * Properties of the interpreter's semantics: operand resolution, register
 * writes, the arithmetic opcodes, the register invariant, memory and stack
 * opcodes, control flow, the `in` command bytes and the teleport shortcut.
 * The lemmas speak about the functions of module Spec, which `Machine.VM`
 * is proved to compute.
 */
module Laws {
  import opened Words
  import opened Spec

  /**
   * The word at pc is opcode `op` and the words after it are its operands
   * `args`, all inside memory, and the teleport shortcut does not fire.
   */
  ghost predicate At(s: State, op: int, args: seq<int>)
    requires Valid(s)
  {
    && !(s.pc == PATCH_PC && s.patch)
    && 0 <= op <= 21 && |args| == Arity(op)
    && s.pc + 1 + |args| <= MEM_SIZE
    && s.mem[s.pc] == op
    && forall i | 0 <= i < |args| :: s.mem[s.pc + 1 + i] == args[i]
  }

  /** Every register holds a 15-bit value. */
  ghost predicate RegsBelow(s: State)
  {
    AllBelowModulus(s.regs)
  }

  /** One step at a decoded instruction performs it with pc past its operands. */
  lemma NextAt(s: State, op: int, args: seq<int>)
    requires Valid(s) && At(s, op, args)
    ensures AllWords(args)
    ensures Next(s) == Perform(op, args, s.(pc := s.pc + 1 + |args|))
  {
    var s1 := s.(pc := s.pc + 1);
    assert Next(s) == Exec(op, s1);
    ExecOperands(op, s1, args);
  }

  // ---------------------------------------------------------------------
  // Operand resolution and register writes

  /**
   * `get_value` as written: test bit 15 with `& 0x8000`, index the
   * registers with `& 0x7fff`; an index of 8 or more is out of bounds.
   */
  lemma ResolveByMasks(regs: seq<int>, w: int)
    requires |regs| == NUM_REGS && AllWords(regs) && IsWord(w)
    ensures Resolve(regs, w) ==
      if And16(w, 0x8000) == 0 then Ok(w)
      else if And16(w, 0x7fff) < NUM_REGS then Ok(regs[And16(w, 0x7fff)])
      else Err(RegisterIndex)
  {
    OperandMasks(w);
  }

  /** With every register 15-bit, a resolved operand is 15-bit. */
  lemma ResolveBelowModulus(s: State, w: int)
    requires Valid(s) && RegsBelow(s) && IsWord(w)
    ensures Resolve(s.regs, w).Ok? ==> Resolve(s.regs, w).value < MODULUS
  {
  }

  /**
   * `set_value` fails on a literal target and then changes nothing; it
   * succeeds exactly when the target names one of the 8 registers and the
   * value resolves, and then changes that register, to the resolved value,
   * and nothing else.
   */
  lemma AssignWritesOneRegister(s: State, target: int, value: int)
    requires Valid(s) && IsWord(target) && IsWord(value)
    ensures var o := Assign(s, target, value);
      && (IsLiteral(target) ==> o == Outcome(Failed(LiteralTarget), s))
      && (o.status.Running? <==>
            !IsLiteral(target) && RegIndex(target) < NUM_REGS && Resolve(s.regs, value).Ok?)
      && (!o.status.Running? ==>
            o.st == s && (o.status == Failed(LiteralTarget) || o.status == Failed(RegisterIndex)))
      && (o.status.Running? ==>
            && o.st.regs[RegIndex(target)] == Resolve(s.regs, value).value
            && (forall j | 0 <= j < NUM_REGS && j != RegIndex(target) :: o.st.regs[j] == s.regs[j])
            && o.st == s.(regs := o.st.regs))
  {
  }

  /** A register write keeps every register 15-bit. */
  lemma AssignKeepsRegsBelow(s: State, target: int, value: int)
    requires Valid(s) && RegsBelow(s) && IsWord(target) && IsWord(value)
    ensures RegsBelow(Assign(s, target, value).st)
  {
    var o := Assign(s, target, value);
    if o.status.Running? {
      AssignWritesOneRegister(s, target, value);
      forall j | 0 <= j < |o.st.regs| ensures 0 <= o.st.regs[j] < MODULUS {
        if j != RegIndex(target) {
          assert o.st.regs[j] == s.regs[j];
        }
      }
    }
  }

  // ---------------------------------------------------------------------
  // Arithmetic

  /**
   * On 15-bit operands every binary opcode stores a 15-bit value; only
   * `mod` by zero fails (in particular `add` cannot overflow u16).
   */
  lemma BinaryValueBelowModulus(op: int, x: int, y: int)
    requires IsBinary(op) && 0 <= x < MODULUS && 0 <= y < MODULUS
    ensures BinaryValue(op, x, y).Ok? <==> !(op == 11 && y == 0)
    ensures BinaryValue(op, x, y).Ok? ==> BinaryValue(op, x, y).value < MODULUS
  {
    AndOrBelowModulus(x, y);
  }

  /** `mult` widens to u32 before reducing: the product of two u16 fits in u32. */
  lemma MultFitsU32(x: int, y: int)
    requires IsWord(x) && IsWord(y)
    ensures 0 <= x * y < 0x1_0000_0000
  {
    MulAtMost(x, 0xffff, y);
    MulAtMost(y, 0xffff, 0xffff);
  }

  lemma MulAtMost(a: int, b: int, c: int)
    requires 0 <= a <= b && 0 <= c
    ensures 0 <= a * c <= b * c
  {
  }

  /**
   * A binary opcode whose operands resolve, with every register 15-bit and
   * a register target: it stores the opcode's result in the target register
   * and advances pc past its three operands; nothing else changes.
   */
  lemma BinaryStores(s: State, op: int, target: int, a: int, b: int)
    requires IsWord(target) && IsWord(a) && IsWord(b)
    requires Valid(s) && RegsBelow(s) && IsBinary(op) && At(s, op, [target, a, b])
    requires !IsLiteral(target) && RegIndex(target) < NUM_REGS
    requires Resolve(s.regs, a).Ok? && Resolve(s.regs, b).Ok?
    requires op == 11 ==> Resolve(s.regs, b).value != 0
    ensures var x, y := Resolve(s.regs, a).value, Resolve(s.regs, b).value;
      var o := Next(s);
      var stored := o.st.regs[RegIndex(target)];
      && o.status == Running
      && o.st == s.(pc := s.pc + 4, regs := s.regs[RegIndex(target) := stored])
      && stored < MODULUS
      && (op == 4 ==> stored == (if x == y then 1 else 0))
      && (op == 5 ==> stored == (if x > y then 1 else 0))
      && (op == 9 ==> stored == (x + y) % MODULUS)
      && (op == 10 ==> stored == (x * y) % MODULUS)
      && (op == 11 ==> stored == x % y)
      && (op == 12 ==> stored == And16(x, y))
      && (op == 13 ==> stored == Or16(x, y))
  {
    NextAt(s, op, [target, a, b]);
    var x, y := Resolve(s.regs, a).value, Resolve(s.regs, b).value;
    BinaryValueBelowModulus(op, x, y);
    var v := BinaryValue(op, x, y).value;
    assert Resolve(s.regs, v) == Ok(v);
  }

  /**
   * `set` into register `r` stores the resolved value there and moves pc
   * past its two operands; nothing else changes.
   */
  lemma SetStores(s: State, r: int, a: int)
    requires IsWord(a) && 0 <= r < NUM_REGS
    requires Valid(s) && At(s, 1, [MODULUS + r, a]) && Resolve(s.regs, a).Ok?
    ensures Next(s) == Outcome(Running, s.(pc := s.pc + 3, regs := s.regs[r := Resolve(s.regs, a).value]))
  {
    NextAt(s, 1, [MODULUS + r, a]);
  }

  /**
   * `add` on any two resolved words: a sum of 65536 or more overflows u16
   * and is fatal; otherwise the sum modulo 32768 goes to the target.
   */
  lemma AddStores(s: State, r: int, a: int, b: int)
    requires IsWord(a) && IsWord(b) && 0 <= r < NUM_REGS
    requires Valid(s) && At(s, 9, [MODULUS + r, a, b])
    requires Resolve(s.regs, a).Ok? && Resolve(s.regs, b).Ok?
    ensures var x, y := Resolve(s.regs, a).value, Resolve(s.regs, b).value;
      && (x + y >= WORD_LIMIT ==> Next(s) == Outcome(Failed(AddOverflow), s.(pc := s.pc + 4)))
      && (x + y < WORD_LIMIT ==>
            Next(s) == Outcome(Running, s.(pc := s.pc + 4, regs := s.regs[r := (x + y) % MODULUS])))
  {
    NextAt(s, 9, [MODULUS + r, a, b]);
  }

  /** `mod` by zero is fatal, after both operands have been resolved. */
  lemma ModByZeroFails(s: State, target: int, a: int, b: int)
    requires IsWord(target) && IsWord(a) && IsWord(b)
    requires Valid(s) && At(s, 11, [target, a, b])
    requires Resolve(s.regs, a).Ok? && Resolve(s.regs, b) == Ok(0)
    ensures Next(s) == Outcome(Failed(DivideByZero), s.(pc := s.pc + 4))
  {
    NextAt(s, 11, [target, a, b]);
  }

  /**
   * `not` stores the complement of its operand within 15 bits; on a 15-bit
   * operand that is `0x7fff - x`.
   */
  lemma NotStores(s: State, target: int, a: int)
    requires IsWord(target) && IsWord(a)
    requires Valid(s) && RegsBelow(s) && At(s, 14, [target, a])
    requires !IsLiteral(target) && RegIndex(target) < NUM_REGS && Resolve(s.regs, a).Ok?
    ensures var x := Resolve(s.regs, a).value;
      Next(s) == Outcome(Running, s.(pc := s.pc + 3, regs := s.regs[RegIndex(target) := 0x7fff - x]))
  {
    NextAt(s, 14, [target, a]);
    NotBody(s.(pc := s.pc + 3), target, a);
  }

  /** The body of `not` on a 15-bit operand. */
  lemma NotBody(s: State, target: int, a: int)
    requires IsWord(target) && IsWord(a)
    requires Valid(s) && RegsBelow(s) && s.pc <= MEM_SIZE
    requires !IsLiteral(target) && RegIndex(target) < NUM_REGS && Resolve(s.regs, a).Ok?
    ensures var x := Resolve(s.regs, a).value;
      Perform(14, [target, a], s) == Outcome(Running, s.(regs := s.regs[RegIndex(target) := 0x7fff - x]))
  {
    ResolveBelowModulus(s, a);
    Not15Value(Resolve(s.regs, a).value);
  }

  // ---------------------------------------------------------------------
  // The register invariant

  lemma {:induction false} ReadInKeepsRegsBelow(s: State, target: int, last: int)
    requires Valid(s) && RegsBelow(s) && IsWord(target) && IsByte(last)
    ensures RegsBelow(ReadIn(s, target, last).st)
    decreases |s.input|
  {
    if s.input == [] {
      if !(last == CMD_DEBUG || last == CMD_PATCH) {
        AssignKeepsRegsBelow(s, target, last);
      }
    } else {
      var b, rest := s.input[0], s.input[1..];
      AllBytesDrop(s.input, 1);
      SkipLineSuffix(rest);
      if b == CMD_DEBUG {
        ReadInKeepsRegsBelow(s.(input := SkipLine(rest), debug := !s.debug), target, b);
      } else if b == CMD_PATCH {
        var s1 := s.(input := SkipLine(rest), patch := true, regs := s.regs[7 := PATCH_R7]);
        assert RegsBelow(s1);
        ReadInKeepsRegsBelow(s1, target, b);
      } else {
        AssignKeepsRegsBelow(s.(input := rest), target, b);
      }
    }
  }

  lemma PerformKeepsRegsBelow(op: int, args: seq<int>, s: State)
    requires Valid(s) && RegsBelow(s) && 0 <= op <= 21 && |args| == Arity(op) && AllWords(args)
    requires s.pc <= MEM_SIZE
    ensures RegsBelow(Perform(op, args, s).st)
  {
    if op == 1 {
      AssignKeepsRegsBelow(s, args[0], args[1]);
    } else if op == 3 && s.stack != [] {
      AssignKeepsRegsBelow(s.(stack := Pop(s.stack)), args[0], Top(s.stack));
    } else if IsBinary(op) {
      var x, y := Resolve(s.regs, args[1]), Resolve(s.regs, args[2]);
      if x.Ok? && y.Ok? && BinaryValue(op, x.value, y.value).Ok? {
        AssignKeepsRegsBelow(s, args[0], BinaryValue(op, x.value, y.value).value);
      }
    } else if op == 14 {
      var x := Resolve(s.regs, args[1]);
      if x.Ok? {
        Not15Value(x.value);
        AssignKeepsRegsBelow(s, args[0], Not15(x.value));
      }
    } else if op == 15 {
      var x := Resolve(s.regs, args[1]);
      if x.Ok? && x.value < MEM_SIZE {
        AssignKeepsRegsBelow(s, args[0], s.mem[x.value]);
      }
    } else if op == 20 {
      ReadInKeepsRegsBelow(s, args[0], 0);
    }
  }

  /**
   * The register invariant: if every register is below 32768 before a
   * step, every register is below 32768 after it. The presets `regs[0] = 6`
   * and `regs[7] = 25734` are 15-bit, and `set_value` stores a resolved
   * value, which is a literal or a register's content.
   */
  lemma StepKeepsRegsBelow(s: State)
    requires Valid(s) && RegsBelow(s)
    ensures RegsBelow(Next(s).st)
  {
    if !(s.pc == PATCH_PC && s.patch) && s.pc < MEM_SIZE {
      var op, s1 := s.mem[s.pc], s.(pc := s.pc + 1);
      if 0 <= op <= 21 && s1.pc + Arity(op) <= MEM_SIZE {
        var args := s.mem[s1.pc .. s1.pc + Arity(op)];
        ExecOperands(op, s1, args);
        PerformKeepsRegsBelow(op, args, s1.(pc := s1.pc + Arity(op)));
      }
    }
  }

  /** The `in` loop ends only by storing a byte, by a failing `set_value`, or by spinning. */
  lemma {:induction false} ReadInStatus(s: State, target: int, last: int)
    requires Valid(s) && IsWord(target) && IsByte(last)
    ensures var st := ReadIn(s, target, last).status;
      st == Running || st == Diverged || st == Failed(LiteralTarget) || st == Failed(RegisterIndex)
    decreases |s.input|
  {
    if s.input == [] {
      if !(last == CMD_DEBUG || last == CMD_PATCH) {
        AssignWritesOneRegister(s, target, last);
      }
    } else {
      var b, rest := s.input[0], s.input[1..];
      AllBytesDrop(s.input, 1);
      SkipLineSuffix(rest);
      if b == CMD_DEBUG {
        ReadInStatus(s.(input := SkipLine(rest), debug := !s.debug), target, b);
      } else if b == CMD_PATCH {
        ReadInStatus(s.(input := SkipLine(rest), patch := true, regs := s.regs[7 := PATCH_R7]), target, b);
      } else {
        AssignWritesOneRegister(s.(input := rest), target, b);
      }
    }
  }

  lemma PerformNoAddOverflow(op: int, args: seq<int>, s: State)
    requires Valid(s) && RegsBelow(s) && 0 <= op <= 21 && |args| == Arity(op) && AllWords(args)
    requires s.pc <= MEM_SIZE
    ensures Perform(op, args, s).status != Failed(AddOverflow)
  {
    if op == 1 {
      AssignWritesOneRegister(s, args[0], args[1]);
    } else if op == 3 {
      if s.stack != [] {
        AssignWritesOneRegister(s.(stack := Pop(s.stack)), args[0], Top(s.stack));
      }
    } else if IsBinary(op) {
      BinaryNoAddOverflow(op, s, args[0], args[1], args[2]);
    } else if op == 14 {
      var x := Resolve(s.regs, args[1]);
      if x.Ok? {
        Not15Value(x.value);
        AssignWritesOneRegister(s, args[0], Not15(x.value));
      }
    } else if op == 15 {
      var x := Resolve(s.regs, args[1]);
      if x.Ok? && x.value < MEM_SIZE {
        AssignWritesOneRegister(s, args[0], s.mem[x.value]);
      }
    } else if op == 20 {
      ReadInStatus(s, args[0], 0);
    }
  }

  lemma BinaryNoAddOverflow(op: int, s: State, target: int, a: int, b: int)
    requires Valid(s) && RegsBelow(s) && IsBinary(op) && IsWord(target) && IsWord(a) && IsWord(b)
    ensures Binary(op, s, target, a, b).status != Failed(AddOverflow)
  {
    var x, y := Resolve(s.regs, a), Resolve(s.regs, b);
    ResolveBelowModulus(s, a);
    ResolveBelowModulus(s, b);
    if x.Ok? && y.Ok? {
      BinaryValueBelowModulus(op, x.value, y.value);
      if BinaryValue(op, x.value, y.value).Ok? {
        AssignWritesOneRegister(s, target, BinaryValue(op, x.value, y.value).value);
      }
    }
  }

  /** Under the register invariant `add` never overflows u16. */
  lemma NoAddOverflow(s: State)
    requires Valid(s) && RegsBelow(s)
    ensures Next(s).status != Failed(AddOverflow)
  {
    if !(s.pc == PATCH_PC && s.patch) && s.pc < MEM_SIZE {
      var op, s1 := s.mem[s.pc], s.(pc := s.pc + 1);
      if 0 <= op <= 21 && s1.pc + Arity(op) <= MEM_SIZE {
        var args := s.mem[s1.pc .. s1.pc + Arity(op)];
        ExecOperands(op, s1, args);
        PerformNoAddOverflow(op, args, s1.(pc := s1.pc + Arity(op)));
      }
    }
  }

  /** Every state `main` reaches holds 15-bit registers. */
  lemma {:induction false} RunKeepsRegsBelow(s: State, fuel: nat)
    requires Valid(s) && RegsBelow(s)
    ensures RegsBelow(Run(s, fuel).st)
    decreases fuel
  {
    if fuel > 0 {
      StepKeepsRegsBelow(s);
      if Next(s).status.Running? {
        RunKeepsRegsBelow(Next(s).st, fuel - 1);
      }
    }
  }

  lemma InitRegsBelow(image: seq<int>, input: seq<int>)
    requires |image| == MEM_SIZE && AllWords(image) && AllBytes(input)
    ensures RegsBelow(Init(image, input))
  {
  }

  // ---------------------------------------------------------------------
  // Memory opcodes

  /**
   * `wmem` writes the resolved value to the cell at the resolved address
   * and changes nothing else but pc; an address of 32768 or more is fatal.
   */
  lemma WriteMemoryOneCell(s: State, target: int, source: int)
    requires IsWord(target) && IsWord(source)
    requires Valid(s) && At(s, 16, [target, source])
    requires Resolve(s.regs, source).Ok? && Resolve(s.regs, target).Ok?
    ensures var v, addr := Resolve(s.regs, source).value, Resolve(s.regs, target).value;
      && (addr < MEM_SIZE ==>
            Next(s) == Outcome(Running, s.(pc := s.pc + 3, mem := s.mem[addr := v])))
      && (addr >= MEM_SIZE ==> Next(s) == Outcome(Failed(MemoryIndex), s.(pc := s.pc + 3)))
  {
    NextAt(s, 16, [target, source]);
  }

  /**
   * `rmem` hands the cell's word to `set_value`, which resolves it again:
   * a cell below 32768 is copied, a cell of 32768 or more is read as a
   * register reference. Only the target register and pc change.
   */
  lemma ReadMemoryResolvesCell(s: State, target: int, source: int)
    requires IsWord(target) && IsWord(source)
    requires Valid(s) && At(s, 15, [target, source])
    requires !IsLiteral(target) && RegIndex(target) < NUM_REGS
    requires Resolve(s.regs, source).Ok? && Resolve(s.regs, source).value < MEM_SIZE
    ensures var cell := s.mem[Resolve(s.regs, source).value];
      var after := s.(pc := s.pc + 3);
      && (IsLiteral(cell) ==>
            Next(s) == Outcome(Running, after.(regs := s.regs[RegIndex(target) := cell])))
      && (!IsLiteral(cell) && RegIndex(cell) < NUM_REGS ==>
            Next(s) == Outcome(Running, after.(regs := s.regs[RegIndex(target) := s.regs[RegIndex(cell)]])))
      && (!IsLiteral(cell) && RegIndex(cell) >= NUM_REGS ==>
            Next(s) == Outcome(Failed(RegisterIndex), after))
  {
    NextAt(s, 15, [target, source]);
  }

  /**
   * `rmem` and `wmem` at an address of 32768 or more are fatal. `rmem`
   * fails on the address before it looks at its destination word.
   */
  lemma MemoryAddressOutOfRange(s: State, op: int, target: int, source: int)
    requires IsWord(target) && IsWord(source)
    requires Valid(s) && (op == 15 || op == 16) && At(s, op, [target, source])
    requires Resolve(s.regs, source).Ok? && (op == 16 ==> Resolve(s.regs, target).Ok?)
    requires Resolve(s.regs, if op == 15 then source else target).value >= MEM_SIZE
    ensures Next(s) == Outcome(Failed(MemoryIndex), s.(pc := s.pc + 3))
  {
    NextAt(s, op, [target, source]);
  }

  // ---------------------------------------------------------------------
  // Stack opcodes

  /**
   * `push a` followed by `pop t`: the target register ends with the pushed
   * value and the stack is as before.
   */
  lemma PushThenPop(s: State, a: int, target: int)
    requires IsWord(a) && IsWord(target)
    requires Valid(s) && RegsBelow(s) && At(s, 2, [a]) && Resolve(s.regs, a).Ok?
    requires At(Next(s).st, 3, [target])
    requires !IsLiteral(target) && RegIndex(target) < NUM_REGS
    ensures var o1 := Next(s); var o2 := Next(o1.st);
      && o1.status == Running && o2.status == Running
      && o2.st.regs[RegIndex(target)] == Resolve(s.regs, a).value
      && o2.st.stack == s.stack
      && o2.st.pc == s.pc + 4
  {
    NextAt(s, 2, [a]);
    var v := Resolve(s.regs, a).value;
    var s1 := Next(s).st;
    assert s1.stack == s.stack + [v];
    NextAt(s1, 3, [target]);
    assert Resolve(s1.regs, v) == Ok(v);
  }

  /**
   * `pop` hands the top of the stack to `set_value`, which resolves it
   * again: a word below 32768 is stored, a word of 32768 or more is read
   * as a register reference. The stack loses its top and pc moves past
   * the operand, whatever the outcome.
   */
  lemma PopResolvesTop(s: State, target: int)
    requires IsWord(target)
    requires Valid(s) && At(s, 3, [target]) && s.stack != []
    requires !IsLiteral(target) && RegIndex(target) < NUM_REGS
    ensures var w := Top(s.stack);
      var after := s.(pc := s.pc + 2, stack := Pop(s.stack));
      && (IsLiteral(w) ==>
            Next(s) == Outcome(Running, after.(regs := s.regs[RegIndex(target) := w])))
      && (!IsLiteral(w) && RegIndex(w) < NUM_REGS ==>
            Next(s) == Outcome(Running, after.(regs := s.regs[RegIndex(target) := s.regs[RegIndex(w)]])))
      && (!IsLiteral(w) && RegIndex(w) >= NUM_REGS ==>
            Next(s) == Outcome(Failed(RegisterIndex), after))
  {
    NextAt(s, 3, [target]);
  }

  /** `pop` on an empty stack is fatal. */
  lemma PopEmptyFails(s: State, target: int)
    requires Valid(s) && At(s, 3, [target]) && s.stack == []
    ensures Next(s) == Outcome(Failed(StackUnderflow), s.(pc := s.pc + 2))
  {
    NextAt(s, 3, [target]);
  }

  /**
   * `call a` pushes exactly the pc after its operand and jumps to the
   * resolved target; a `ret` there pops that pc and restores the stack.
   */
  lemma CallThenRet(s: State, a: int)
    requires IsWord(a)
    requires Valid(s) && At(s, 17, [a]) && Resolve(s.regs, a).Ok?
    ensures var o := Next(s);
      o == Outcome(Running, s.(pc := Resolve(s.regs, a).value, stack := s.stack + [s.pc + 2]))
    ensures At(Next(s).st, 18, []) ==>
      Next(Next(s).st) == Outcome(Running, s.(pc := s.pc + 2, regs := s.regs))
  {
    NextAt(s, 17, [a]);
    var s1 := Next(s).st;
    if At(s1, 18, []) {
      NextAt(s1, 18, []);
      assert Pop(s1.stack) == s.stack;
    }
  }

  /** `ret` on a non-empty stack jumps to the popped word; on an empty one it halts cleanly. */
  lemma RetPops(s: State)
    requires Valid(s) && At(s, 18, [])
    ensures s.stack == [] ==> Next(s) == Outcome(Halted, s.(pc := s.pc + 1))
    ensures s.stack != [] ==>
      Next(s) == Outcome(Running, s.(pc := s.stack[|s.stack| - 1], stack := s.stack[..|s.stack| - 1]))
  {
    NextAt(s, 18, []);
  }

  // ---------------------------------------------------------------------
  // Control flow and errors

  /** The `in` loop touches only registers, the two flags and the input. */
  lemma {:induction false} ReadInFrame(s: State, target: int, last: int)
    requires Valid(s) && IsWord(target) && IsByte(last)
    ensures var t := ReadIn(s, target, last).st;
      t.mem == s.mem && t.stack == s.stack && t.pc == s.pc && t.output == s.output
    decreases |s.input|
  {
    if s.input != [] {
      var b, rest := s.input[0], s.input[1..];
      AllBytesDrop(s.input, 1);
      SkipLineSuffix(rest);
      if b == CMD_DEBUG {
        ReadInFrame(s.(input := SkipLine(rest), debug := !s.debug), target, b);
      } else if b == CMD_PATCH {
        ReadInFrame(s.(input := SkipLine(rest), patch := true, regs := s.regs[7 := PATCH_R7]), target, b);
      }
    }
  }

  /** No opcode reads more than three operand words, and exactly the binary opcodes read three. */
  lemma ArityBinary(op: int)
    ensures Arity(op) <= 3
    ensures Arity(op) == 3 <==> IsBinary(op)
  {
  }

  /**
   * An opcode that does not transfer control (all but `jmp`, `jt`, `jf`,
   * `call` and `ret`) and runs on leaves pc just past its operands.
   */
  lemma PcAdvances(s: State, op: int, args: seq<int>)
    requires Valid(s) && At(s, op, args)
    requires op != 6 && op != 7 && op != 8 && op != 17 && op != 18
    requires Next(s).status.Running?
    ensures Next(s).st.pc == s.pc + 1 + Arity(op)
  {
    NextAt(s, op, args);
    PerformKeepsPc(op, args, s.(pc := s.pc + 1 + |args|));
  }

  /** The body of an opcode that does not transfer control leaves pc alone when it runs on. */
  lemma PerformKeepsPc(op: int, args: seq<int>, s: State)
    requires Valid(s) && 0 <= op <= 21 && |args| == Arity(op) && AllWords(args) && s.pc <= MEM_SIZE
    requires op != 6 && op != 7 && op != 8 && op != 17 && op != 18
    ensures Perform(op, args, s).status.Running? ==> Perform(op, args, s).st.pc == s.pc
  {
    if op == 20 {
      ReadInFrame(s, args[0], 0);
    }
  }

  /** `jmp` takes its raw operand word as the new pc, register encoding or not. */
  lemma JmpTakesRawWord(s: State, w: int)
    requires IsWord(w)
    requires Valid(s) && At(s, 6, [w])
    ensures Next(s) == Outcome(Running, s.(pc := w))
  {
    NextAt(s, 6, [w]);
  }

  /**
   * `jt` and `jf` resolve the condition but not the target: the raw target
   * word becomes pc when the condition is non-zero (`jt`) or zero (`jf`),
   * otherwise pc moves past the two operands.
   */
  lemma BranchOnCondition(s: State, op: int, cond: int, w: int)
    requires IsWord(cond) && IsWord(w)
    requires Valid(s) && (op == 7 || op == 8) && At(s, op, [cond, w])
    requires Resolve(s.regs, cond).Ok?
    ensures var c := Resolve(s.regs, cond).value;
      Next(s) == Outcome(Running, s.(pc := if (c != 0) == (op == 7) then w else s.pc + 3))
  {
    NextAt(s, op, [cond, w]);
  }

  /** A jump target outside memory makes the next fetch fatal. */
  lemma JumpOutsideMemoryFails(s: State, w: int)
    requires IsWord(w)
    requires Valid(s) && At(s, 6, [w]) && w >= MEM_SIZE
    ensures Next(Next(s).st) == Outcome(Failed(MemoryIndex), s.(pc := w))
  {
    NextAt(s, 6, [w]);
  }

  /**
   * `out` appends the resolved word to the output, or `?` for a UTF-16
   * surrogate, and moves pc past its operand.
   */
  lemma OutAppends(s: State, a: int)
    requires IsWord(a)
    requires Valid(s) && At(s, 19, [a]) && Resolve(s.regs, a).Ok?
    ensures var v := Resolve(s.regs, a).value;
      Next(s) == Outcome(Running, s.(pc := s.pc + 2, output := s.output + [OutChar(v)]))
  {
    NextAt(s, 19, [a]);
  }

  /** A code point `char::from_u32` accepts: below 0x110000 and not a UTF-16 surrogate. */
  predicate IsScalarValue(c: int)
  {
    (0 <= c < 0xD800) || (0xE000 <= c < 0x110000)
  }

  /** `out` prints a word as itself exactly when it is a Unicode scalar value, and `?` otherwise. */
  lemma OutCharScalar(v: int)
    requires IsWord(v)
    ensures OutChar(v) == v <==> IsScalarValue(v)
    ensures !IsScalarValue(v) ==> OutChar(v) == '?' as int
    ensures IsScalarValue(OutChar(v))
  {
  }

  /** `noop` only moves pc; `halt` stops cleanly with nothing else but pc changed. */
  lemma NoopAndHalt(s: State)
    requires Valid(s) && !(s.pc == PATCH_PC && s.patch) && s.pc < MEM_SIZE
    ensures s.mem[s.pc] == 21 ==> Next(s) == Outcome(Running, s.(pc := s.pc + 1))
    ensures s.mem[s.pc] == 0 ==> Next(s) == Outcome(Halted, s.(pc := s.pc + 1))
  {
    if s.mem[s.pc] == 21 || s.mem[s.pc] == 0 {
      NextAt(s, s.mem[s.pc], []);
    }
  }

  /**
   * An opcode word above 21 is fatal, with registers, memory, stack, flags
   * and console as they were before the fetch.
   */
  lemma UnknownOpcodeFails(s: State)
    requires Valid(s) && !(s.pc == PATCH_PC && s.patch) && s.pc < MEM_SIZE && s.mem[s.pc] > 21
    ensures Next(s) == Outcome(Failed(UnhandledOpcode(s.mem[s.pc])), s.(pc := s.pc + 1))
  {
  }

  // ---------------------------------------------------------------------
  // The `in` command bytes and the teleport shortcut

  /** `read_line` drops exactly the rest of the line and its newline. */
  lemma {:induction false} SkipLineDropsLine(line: seq<int>, rest: seq<int>)
    requires forall i | 0 <= i < |line| :: line[i] != NEWLINE
    ensures SkipLine(line + [NEWLINE] + rest) == rest
    ensures SkipLine(line) == []
  {
    if line != [] {
      assert (line + [NEWLINE] + rest)[1..] == line[1..] + [NEWLINE] + rest;
      SkipLineDropsLine(line[1..], rest);
    } else {
      assert line + [NEWLINE] + rest == [NEWLINE] + rest;
    }
  }

  /**
   * The program never receives a command byte: when `in` completes, the
   * target holds a byte that is neither `x` nor `!`.
   */
  lemma {:induction false} InNeverDeliversCommand(s: State, target: int, last: int)
    requires Valid(s) && IsWord(target) && IsByte(last)
    requires !IsLiteral(target) && RegIndex(target) < NUM_REGS
    requires ReadIn(s, target, last).status.Running?
    ensures var t := ReadIn(s, target, last).st.regs[RegIndex(target)];
      IsByte(t) && t != CMD_DEBUG && t != CMD_PATCH
    decreases |s.input|
  {
    if s.input == [] {
      AssignWritesOneRegister(s, target, last);
    } else {
      var b, rest := s.input[0], s.input[1..];
      AllBytesDrop(s.input, 1);
      SkipLineSuffix(rest);
      if b == CMD_DEBUG {
        InNeverDeliversCommand(s.(input := SkipLine(rest), debug := !s.debug), target, b);
      } else if b == CMD_PATCH {
        InNeverDeliversCommand(s.(input := SkipLine(rest), patch := true, regs := s.regs[7 := PATCH_R7]), target, b);
      } else {
        AssignWritesOneRegister(s.(input := rest), target, b);
      }
    }
  }

  /**
   * `x` toggles `debug` and discards the rest of its line without writing
   * the target; the next data byte is then stored and `in` completes.
   */
  lemma DebugCommand(s: State, target: int, line: seq<int>, b: int, rest: seq<int>)
    requires Valid(s) && At(s, 20, [target]) && !IsLiteral(target) && RegIndex(target) < NUM_REGS
    requires forall i | 0 <= i < |line| :: line[i] != NEWLINE
    requires IsByte(b) && b != CMD_DEBUG && b != CMD_PATCH
    requires s.input == [CMD_DEBUG] + line + [NEWLINE] + [b] + rest
    ensures Next(s) == Outcome(Running,
      s.(pc := s.pc + 2, debug := !s.debug, input := rest, regs := s.regs[RegIndex(target) := b]))
  {
    NextAt(s, 20, [target]);
    DebugRead(s.(pc := s.pc + 2), target, line, b, rest);
  }

  /** The byte loop of `DebugCommand`. */
  lemma DebugRead(s: State, target: int, line: seq<int>, b: int, rest: seq<int>)
    requires Valid(s) && IsWord(target) && !IsLiteral(target) && RegIndex(target) < NUM_REGS
    requires forall i | 0 <= i < |line| :: line[i] != NEWLINE
    requires IsByte(b) && b != CMD_DEBUG && b != CMD_PATCH
    requires s.input == [CMD_DEBUG] + line + [NEWLINE] + [b] + rest
    ensures ReadIn(s, target, 0) == Outcome(Running,
      s.(debug := !s.debug, input := rest, regs := s.regs[RegIndex(target) := b]))
  {
    SkipLineDropsLine(line, [b] + rest);
    assert s.input[1..] == line + [NEWLINE] + ([b] + rest);
    assert [b] + rest == s.input[|line| + 2..];
    AllBytesDrop(s.input, |line| + 2);
    var s2 := s.(input := [b] + rest, debug := !s.debug);
    assert ReadIn(s, target, 0) == ReadIn(s2, target, CMD_DEBUG);
    assert ReadIn(s2, target, CMD_DEBUG) == Assign(s2.(input := rest), target, b);
  }

  /**
   * `!` arms the teleport shortcut and presets r7 to 25734, discarding the
   * rest of its line without writing the target; the next data byte is
   * then stored and `in` completes.
   */
  lemma PatchCommand(s: State, target: int, line: seq<int>, b: int, rest: seq<int>)
    requires Valid(s) && At(s, 20, [target]) && !IsLiteral(target) && RegIndex(target) < NUM_REGS
    requires forall i | 0 <= i < |line| :: line[i] != NEWLINE
    requires IsByte(b) && b != CMD_DEBUG && b != CMD_PATCH
    requires s.input == [CMD_PATCH] + line + [NEWLINE] + [b] + rest
    ensures Next(s) == Outcome(Running,
      s.(pc := s.pc + 2, patch := true, input := rest,
         regs := s.regs[7 := PATCH_R7][RegIndex(target) := b]))
  {
    NextAt(s, 20, [target]);
    PatchRead(s.(pc := s.pc + 2), target, line, b, rest);
  }

  /** The byte loop of `PatchCommand`. */
  lemma PatchRead(s: State, target: int, line: seq<int>, b: int, rest: seq<int>)
    requires Valid(s) && IsWord(target) && !IsLiteral(target) && RegIndex(target) < NUM_REGS
    requires forall i | 0 <= i < |line| :: line[i] != NEWLINE
    requires IsByte(b) && b != CMD_DEBUG && b != CMD_PATCH
    requires s.input == [CMD_PATCH] + line + [NEWLINE] + [b] + rest
    ensures ReadIn(s, target, 0) == Outcome(Running,
      s.(patch := true, input := rest, regs := s.regs[7 := PATCH_R7][RegIndex(target) := b]))
  {
    SkipLineDropsLine(line, [b] + rest);
    assert s.input[1..] == line + [NEWLINE] + ([b] + rest);
    assert [b] + rest == s.input[|line| + 2..];
    AllBytesDrop(s.input, |line| + 2);
    var s2 := s.(input := [b] + rest, patch := true, regs := s.regs[7 := PATCH_R7]);
    assert ReadIn(s, target, 0) == ReadIn(s2, target, CMD_PATCH);
    assert ReadIn(s2, target, CMD_PATCH) == Assign(s2.(input := rest), target, b);
  }

  /** An `in` whose first byte is data stores that byte and leaves the rest of the input. */
  lemma InStoresByte(s: State, target: int, b: int, rest: seq<int>)
    requires Valid(s) && At(s, 20, [target]) && !IsLiteral(target) && RegIndex(target) < NUM_REGS
    requires b != CMD_DEBUG && b != CMD_PATCH
    requires s.input == [b] + rest
    ensures Next(s) == Outcome(Running, s.(pc := s.pc + 2, input := rest, regs := s.regs[RegIndex(target) := b]))
  {
    NextAt(s, 20, [target]);
    assert s.input[0] == b && s.input[1..] == rest;
  }

  /** Command bytes `cmds`, each followed by the rest of its line from `lines` and a newline. */
  function CommandText(cmds: seq<int>, lines: seq<seq<int>>): seq<int>
    requires |cmds| == |lines|
  {
    if cmds == [] then [] else [cmds[0]] + lines[0] + [NEWLINE] + CommandText(cmds[1..], lines[1..])
  }

  /** Every command byte is `x` or `!`, and no line holds a newline before its end. */
  predicate CommandLines(cmds: seq<int>, lines: seq<seq<int>>)
  {
    && |cmds| == |lines|
    && (forall k | 0 <= k < |cmds| :: cmds[k] == CMD_DEBUG || cmds[k] == CMD_PATCH)
    && (forall k | 0 <= k < |lines| :: forall i | 0 <= i < |lines[k]| :: lines[k][i] != NEWLINE)
  }

  /**
   * After any number of command lines, the `in` byte loop stores the first
   * data byte and leaves the input after it. Registers other than the
   * target and r7 (which `!` presets) keep their values.
   */
  lemma {:induction false} ReadInAfterCommands(s: State, target: int, last: int,
      cmds: seq<int>, lines: seq<seq<int>>, b: int, rest: seq<int>)
    requires Valid(s) && IsWord(target) && IsByte(last) && !IsLiteral(target) && RegIndex(target) < NUM_REGS
    requires CommandLines(cmds, lines) && b != CMD_DEBUG && b != CMD_PATCH
    requires s.input == CommandText(cmds, lines) + [b] + rest
    ensures var o := ReadIn(s, target, last);
      && o.status == Running && o.st.input == rest && o.st.regs[RegIndex(target)] == b
      && forall i | 0 <= i < NUM_REGS && i != RegIndex(target) && i != 7 :: o.st.regs[i] == s.regs[i]
    decreases |cmds|
  {
    if cmds == [] {
      ReadInData(s, target, last, b, rest);
    } else {
      var tail := CommandText(cmds[1..], lines[1..]) + [b] + rest;
      assert s.input == [cmds[0]] + lines[0] + [NEWLINE] + tail;
      ReadInCommand(s, target, last, lines[0], tail);
      assert CommandLines(cmds[1..], lines[1..]) by {
        assert forall k | 0 <= k < |lines| - 1 :: lines[1..][k] == lines[k + 1];
      }
      ReadInAfterCommands(AfterCommand(s), target, cmds[0], cmds[1..], lines[1..], b, rest);
    }
  }

  /** A data byte at the head of the input is stored at once. */
  lemma ReadInData(s: State, target: int, last: int, b: int, rest: seq<int>)
    requires Valid(s) && IsWord(target) && IsByte(last) && !IsLiteral(target) && RegIndex(target) < NUM_REGS
    requires b != CMD_DEBUG && b != CMD_PATCH && s.input == [b] + rest
    ensures ReadIn(s, target, last) == Outcome(Running, s.(input := rest, regs := s.regs[RegIndex(target) := b]))
  {
    assert s.input[0] == b && s.input[1..] == rest;
    assert IsByte(s.input[0]);
  }

  /**
   * The state the byte loop goes on from after the command byte at the head
   * of the input and its line: the successor state of the two command
   * branches of `Spec.ReadIn`, named here so that lemmas can speak of it.
   */
  ghost function AfterCommand(s: State): (t: State)
    requires Valid(s) && s.input != [] && (s.input[0] == CMD_DEBUG || s.input[0] == CMD_PATCH)
    ensures Valid(t) && t.input == SkipLine(s.input[1..])
    ensures forall i | 0 <= i < NUM_REGS && i != 7 :: t.regs[i] == s.regs[i]
  {
    AllBytesDrop(s.input, 1);
    SkipLineSuffix(s.input[1..]);
    if s.input[0] == CMD_DEBUG then s.(input := SkipLine(s.input[1..]), debug := !s.debug)
    else s.(input := SkipLine(s.input[1..]), patch := true, regs := s.regs[7 := PATCH_R7])
  }

  /** A whole command line at the head of the input is consumed and the loop goes on with what follows it. */
  lemma ReadInCommand(s: State, target: int, last: int, line: seq<int>, tail: seq<int>)
    requires Valid(s) && IsWord(target) && IsByte(last)
    requires forall i | 0 <= i < |line| :: line[i] != NEWLINE
    requires s.input != [] && (s.input[0] == CMD_DEBUG || s.input[0] == CMD_PATCH)
    requires s.input == [s.input[0]] + line + [NEWLINE] + tail
    ensures ReadIn(s, target, last) == ReadIn(AfterCommand(s), target, s.input[0])
    ensures AfterCommand(s).input == tail
  {
    assert s.input[1..] == line + [NEWLINE] + tail;
    SkipLineDropsLine(line, tail);
  }

  /** `in` after any number of command lines stores the first data byte and moves pc past its operand. */
  lemma InAfterCommands(s: State, target: int, cmds: seq<int>, lines: seq<seq<int>>, b: int, rest: seq<int>)
    requires Valid(s) && At(s, 20, [target]) && !IsLiteral(target) && RegIndex(target) < NUM_REGS
    requires CommandLines(cmds, lines) && b != CMD_DEBUG && b != CMD_PATCH
    requires s.input == CommandText(cmds, lines) + [b] + rest
    ensures Next(s).status == Running && Next(s).st.pc == s.pc + 2
    ensures Next(s).st.input == rest && Next(s).st.regs[RegIndex(target)] == b
  {
    NextAt(s, 20, [target]);
    ReadInAfterCommands(s.(pc := s.pc + 2), target, 0, cmds, lines, b, rest);
    ReadInFrame(s.(pc := s.pc + 2), target, 0);
  }

  /**
   * At end of input `read` leaves the buffer as it was: before any byte it
   * holds 0, which is stored; after either command byte whose line ends the
   * input, with or without its newline, the command repeats for ever.
   */
  lemma InAtEndOfInput(s: State, target: int, line: seq<int>)
    requires Valid(s) && At(s, 20, [target]) && !IsLiteral(target) && RegIndex(target) < NUM_REGS
    requires forall i | 0 <= i < |line| :: line[i] != NEWLINE
    ensures s.input == [] ==>
      Next(s) == Outcome(Running, s.(pc := s.pc + 2, regs := s.regs[RegIndex(target) := 0]))
    ensures s.input == [CMD_DEBUG] + line ==> Next(s).status == Diverged
    ensures s.input == [CMD_DEBUG] + line + [NEWLINE] ==> Next(s).status == Diverged
    ensures s.input == [CMD_PATCH] + line ==> Next(s).status == Diverged
    ensures s.input == [CMD_PATCH] + line + [NEWLINE] ==> Next(s).status == Diverged
  {
    NextAt(s, 20, [target]);
    SkipLineDropsLine(line, []);
    var s1 := s.(pc := s.pc + 2);
    assert Next(s) == ReadIn(s1, target, 0);
    if s.input == [CMD_DEBUG] + line || s.input == [CMD_DEBUG] + line + [NEWLINE] {
      assert s.input[1..] == line || s.input[1..] == line + [NEWLINE] + [];
      assert ReadIn(s1, target, 0) == ReadIn(s1.(input := [], debug := !s.debug), target, CMD_DEBUG);
    }
    if s.input == [CMD_PATCH] + line || s.input == [CMD_PATCH] + line + [NEWLINE] {
      assert s.input[1..] == line || s.input[1..] == line + [NEWLINE] + [];
      assert ReadIn(s1, target, 0)
        == ReadIn(s1.(input := [], patch := true, regs := s.regs[7 := PATCH_R7]), target, CMD_PATCH);
    }
  }

  /**
   * With the shortcut armed at pc 6027: r0 becomes 6 and the return address
   * is popped into pc, or the machine halts on an empty stack.
   */
  lemma TeleportReturns(s: State)
    requires Valid(s) && s.pc == PATCH_PC && s.patch
    ensures s.stack != [] ==> Next(s) == Outcome(Running,
      s.(regs := s.regs[0 := PATCH_R0], pc := s.stack[|s.stack| - 1], stack := s.stack[..|s.stack| - 1]))
    ensures s.stack == [] ==> Next(s) == Outcome(Halted, s.(regs := s.regs[0 := PATCH_R0]))
  {
  }

  /** No opcode is fetched by the shortcut: what memory holds makes no difference. */
  lemma TeleportIgnoresMemory(s: State, image: seq<int>)
    requires Valid(s) && s.pc == PATCH_PC && s.patch
    requires |image| == MEM_SIZE && AllWords(image)
    ensures Next(s.(mem := image)) == Outcome(Next(s).status, Next(s).st.(mem := image))
  {
  }

  // ---------------------------------------------------------------------
  // Runs

  /** Running for `m + n` trips is running for `m`, then for `n` more if still running. */
  lemma {:induction false} RunSplit(s: State, m: nat, n: nat)
    requires Valid(s)
    ensures Run(s, m + n) == if Run(s, m).status.Running? then Run(Run(s, m).st, n) else Run(s, m)
    decreases m
  {
    if m > 0 {
      var o := Next(s);
      if o.status.Running? {
        assert Run(s, m) == Run(o.st, m - 1);
        assert Run(s, m + n) == Run(o.st, (m - 1) + n);
        RunSplit(o.st, m - 1, n);
      } else {
        assert Run(s, m) == o && Run(s, m + n) == o;
      }
    }
  }

  /** A step that runs on is the first trip of a run. */
  lemma RunFirst(s: State, t: State, n: nat)
    requires Valid(s) && Next(s) == Outcome(Running, t)
    ensures Run(s, n + 1) == Run(t, n)
  {
  }

  /** A step that stops is the whole of a run. */
  lemma RunStops(s: State, n: nat)
    requires Valid(s) && !Next(s).status.Running?
    ensures Run(s, n + 1) == Next(s)
  {
  }
}
