/**
 * The interpreter as mutable state: the `State` struct of src/main.rs with
 * its fixed-size memory and register arrays, and the helpers and main-loop
 * body that update it in place. Every method but `Fetch` is proved to leave
 * exactly the state, and return exactly the status, that the functions of
 * module Spec give for the state it started from; `Fetch`'s contract gives
 * the word read and the new pc directly.
 */
module Machine {
  import opened Words
  import opened Spec

  class VM {
    const mem: array<int>
    const regs: array<int>
    var stack: seq<int>
    var pc: nat
    var debug: bool
    var patch: bool
    /** Bytes stdin has not yet delivered. */
    var input: seq<int>
    /** Code points printed by `out`. */
    var output: seq<int>

    /** The machine's state as a value. */
    ghost function Abs(): State
      reads this, mem, regs
    {
      State(mem[..], regs[..], stack, pc, debug, patch, input, output)
    }

    ghost predicate Valid()
      reads this, mem, regs
    {
      Spec.Valid(Abs())
    }

    /** `main`'s initial `State`, with `image` standing for what `load_prog` puts in memory. */
    constructor (image: seq<int>, stdin: seq<int>)
      requires |image| == MEM_SIZE && AllWords(image) && AllBytes(stdin)
      ensures Valid() && Abs() == Init(image, stdin)
    {
      mem := new int[MEM_SIZE](i requires 0 <= i < MEM_SIZE => image[i]);
      regs := new int[NUM_REGS](_ => 0);
      stack, pc, debug, patch := [], 0, false, false;
      input, output := stdin, [];
      new;
      assert mem[..] == image;
      assert regs[..] == seq(NUM_REGS, _ => 0);
    }

    /** `get_opcode` and `get_operand`: read the word at pc and step past it. */
    method Fetch() returns (r: Result<int>)
      requires Valid()
      modifies this`pc
      ensures Valid()
      ensures old(pc) < MEM_SIZE ==> r == Ok(mem[old(pc)]) && pc == old(pc) + 1
      ensures old(pc) >= MEM_SIZE ==> r == Err(MemoryIndex) && pc == old(pc)
    {
      if pc >= MEM_SIZE {
        return Err(MemoryIndex);
      }
      r := Ok(mem[pc]);
      pc := pc + 1;
    }

    /** `set_value`. */
    method SetValue(target: int, value: int) returns (r: Status)
      requires Valid() && IsWord(target) && IsWord(value)
      modifies regs
      ensures Valid()
      ensures Outcome(r, Abs()) == Assign(old(Abs()), target, value)
    {
      if IsLiteral(target) {
        return Failed(LiteralTarget);
      }
      var v := Resolve(regs[..], value);
      if v.Err? {
        return Failed(v.error);
      }
      if RegIndex(target) >= NUM_REGS {
        return Failed(RegisterIndex);
      }
      regs[RegIndex(target)] := v.value;
      r := Running;
    }

    /** The `in` opcode's byte loop. */
    method ReadInput(target: int) returns (r: Status)
      requires Valid() && IsWord(target)
      modifies this, regs
      ensures Valid()
      ensures Outcome(r, Abs()) == ReadIn(old(Abs()), target, 0)
    {
      var byte := 0;
      while true
        invariant Valid() && IsByte(byte)
        invariant ReadIn(old(Abs()), target, 0) == ReadIn(Abs(), target, byte)
        decreases |input|
      {
        if input == [] {
          if byte == CMD_DEBUG || byte == CMD_PATCH {
            return Diverged;
          }
        } else {
          AllBytesDrop(input, 1);
          byte := input[0];
          input := input[1..];
        }
        SkipLineSuffix(input);
        if byte == CMD_DEBUG {
          input := SkipLine(input);
          debug := !debug;
        } else if byte == CMD_PATCH {
          input := SkipLine(input);
          patch := true;
          regs[7] := PATCH_R7;
        } else {
          r := SetValue(target, byte);
          return;
        }
      }
    }

    /** One trip round the main loop. */
    method Step() returns (r: Status)
      requires Valid()
      modifies this, mem, regs
      ensures Valid()
      ensures Outcome(r, Abs()) == Next(old(Abs()))
    {
      if pc == PATCH_PC && patch {
        regs[0] := PATCH_R0;
        if stack == [] {
          return Halted;
        }
        pc := Top(stack);
        stack := Pop(stack);
        return Running;
      }
      var op := Fetch();
      if op.Err? {
        return Failed(op.error);
      }
      r := Execute(op.value);
    }

    /** The match on the opcode word, once it has been fetched. */
    method Execute(op: int) returns (r: Status)
      requires Valid() && pc <= MEM_SIZE
      modifies this, mem, regs
      ensures Valid()
      ensures Outcome(r, Abs()) == Exec(op, old(Abs()))
    {
      if !(0 <= op <= 21) {
        return Failed(UnhandledOpcode(op));
      }
      if op == 0 || op == 21 {
        ExecOperands(op, Abs(), []);
        r := if op == 0 then Halted else Running;
      } else if op == 1 {
        r := ExecSet();
      } else if op == 2 {
        r := ExecPush();
      } else if op == 3 {
        r := ExecPop();
      } else if IsBinary(op) {
        r := ExecBinary(op);
      } else if op == 6 {
        r := ExecJmp();
      } else if op == 7 || op == 8 {
        r := ExecBranch(op == 7);
      } else if op == 14 {
        r := ExecNot();
      } else if op == 15 {
        r := ExecReadMemory();
      } else if op == 16 {
        r := ExecWriteMemory();
      } else if op == 17 {
        r := ExecCall();
      } else if op == 18 {
        r := ExecRet();
      } else if op == 19 {
        r := ExecOut();
      } else {
        r := ExecIn();
      }
    }

    /** `set`: copy the resolved value into the target register. */
    method ExecSet() returns (r: Status)
      requires Valid() && pc <= MEM_SIZE
      modifies this`pc, regs
      ensures Valid()
      ensures Outcome(r, Abs()) == Exec(1, old(Abs()))
    {
      var target := Fetch();
      if target.Err? { return Failed(target.error); }
      var value := Fetch();
      if value.Err? { return Failed(value.error); }
      ExecOperands(1, old(Abs()), [target.value, value.value]);
      r := SetValue(target.value, value.value);
    }

    /** `push`. */
    method ExecPush() returns (r: Status)
      requires Valid() && pc <= MEM_SIZE
      modifies this`pc, this`stack
      ensures Valid()
      ensures Outcome(r, Abs()) == Exec(2, old(Abs()))
    {
      var a := Fetch();
      if a.Err? { return Failed(a.error); }
      ExecOperands(2, old(Abs()), [a.value]);
      var v := Resolve(regs[..], a.value);
      if v.Err? { return Failed(v.error); }
      stack := stack + [v.value];
      r := Running;
    }

    /** `pop`: the popped word goes through `set_value`. */
    method ExecPop() returns (r: Status)
      requires Valid() && pc <= MEM_SIZE
      modifies this`pc, this`stack, regs
      ensures Valid()
      ensures Outcome(r, Abs()) == Exec(3, old(Abs()))
    {
      var target := Fetch();
      if target.Err? { return Failed(target.error); }
      ExecOperands(3, old(Abs()), [target.value]);
      if stack == [] { return Failed(StackUnderflow); }
      var v := Top(stack);
      stack := Pop(stack);
      r := SetValue(target.value, v);
    }

    /** `eq`, `gt`, `add`, `mult`, `mod`, `and` and `or`. */
    method ExecBinary(op: int) returns (r: Status)
      requires Valid() && IsBinary(op) && pc <= MEM_SIZE
      modifies this`pc, regs
      ensures Valid()
      ensures Outcome(r, Abs()) == Exec(op, old(Abs()))
    {
      assert Arity(op) == 3;
      // A fetch past the end of memory fails without moving pc, so once one
      // operand fetch has failed the later ones change nothing.
      var target := Fetch();
      var a := Fetch();
      var b := Fetch();
      if target.Err? || a.Err? || b.Err? {
        r := Failed(MemoryIndex);
      } else {
        ExecOperands(op, old(Abs()), [target.value, a.value, b.value]);
        r := Compute(op, target.value, a.value, b.value);
      }
    }

    /** The body of a binary opcode once its three operand words are fetched. */
    method Compute(op: int, target: int, a: int, b: int) returns (r: Status)
      requires Valid() && IsBinary(op) && IsWord(target) && IsWord(a) && IsWord(b)
      modifies regs
      ensures Valid()
      ensures Outcome(r, Abs()) == Binary(op, old(Abs()), target, a, b)
    {
      var x := Resolve(regs[..], a);
      if x.Err? { return Failed(x.error); }
      var y := Resolve(regs[..], b);
      if y.Err? { return Failed(y.error); }
      var v := BinaryValue(op, x.value, y.value);
      if v.Err? { return Failed(v.error); }
      r := SetValue(target, v.value);
    }

    /** `jmp`: the raw operand word becomes pc. */
    method ExecJmp() returns (r: Status)
      requires Valid() && pc <= MEM_SIZE
      modifies this`pc
      ensures Valid()
      ensures Outcome(r, Abs()) == Exec(6, old(Abs()))
    {
      var a := Fetch();
      if a.Err? { return Failed(a.error); }
      ExecOperands(6, old(Abs()), [a.value]);
      pc := a.value;
      r := Running;
    }

    /** `jt` (`onNonZero`) and `jf`: the raw target word becomes pc on the condition. */
    method ExecBranch(onNonZero: bool) returns (r: Status)
      requires Valid() && pc <= MEM_SIZE
      modifies this`pc
      ensures Valid()
      ensures Outcome(r, Abs()) == Exec(if onNonZero then 7 else 8, old(Abs()))
    {
      var cond := Fetch();
      if cond.Err? { return Failed(cond.error); }
      var target := Fetch();
      if target.Err? { return Failed(target.error); }
      ExecOperands(if onNonZero then 7 else 8, old(Abs()), [cond.value, target.value]);
      var c := Resolve(regs[..], cond.value);
      if c.Err? { return Failed(c.error); }
      if (c.value != 0) == onNonZero {
        pc := target.value;
      }
      r := Running;
    }

    /** `not`. */
    method ExecNot() returns (r: Status)
      requires Valid() && pc <= MEM_SIZE
      modifies this`pc, regs
      ensures Valid()
      ensures Outcome(r, Abs()) == Exec(14, old(Abs()))
    {
      var target := Fetch();
      if target.Err? { return Failed(target.error); }
      var a := Fetch();
      if a.Err? { return Failed(a.error); }
      ExecOperands(14, old(Abs()), [target.value, a.value]);
      r := Complement(target.value, a.value);
    }

    /** The body of `not` once its two operand words are fetched. */
    method Complement(target: int, a: int) returns (r: Status)
      requires Valid() && IsWord(target) && IsWord(a) && pc <= MEM_SIZE
      modifies regs
      ensures Valid()
      ensures Outcome(r, Abs()) == Perform(14, [target, a], old(Abs()))
    {
      var v := Resolve(regs[..], a);
      if v.Err? { return Failed(v.error); }
      Not15Value(v.value);
      r := SetValue(target, Not15(v.value));
    }

    /** `rmem`: the cell's word goes through `set_value`. */
    method ExecReadMemory() returns (r: Status)
      requires Valid() && pc <= MEM_SIZE
      modifies this`pc, regs
      ensures Valid()
      ensures Outcome(r, Abs()) == Exec(15, old(Abs()))
    {
      var target := Fetch();
      if target.Err? { return Failed(target.error); }
      var source := Fetch();
      if source.Err? { return Failed(source.error); }
      ExecOperands(15, old(Abs()), [target.value, source.value]);
      var addr := Resolve(regs[..], source.value);
      if addr.Err? { return Failed(addr.error); }
      if addr.value >= MEM_SIZE { return Failed(MemoryIndex); }
      r := SetValue(target.value, mem[addr.value]);
    }

    /** `wmem`: the only opcode that writes memory. */
    method ExecWriteMemory() returns (r: Status)
      requires Valid() && pc <= MEM_SIZE
      modifies this`pc, mem
      ensures Valid()
      ensures Outcome(r, Abs()) == Exec(16, old(Abs()))
    {
      var target := Fetch();
      if target.Err? { return Failed(target.error); }
      var source := Fetch();
      if source.Err? { return Failed(source.error); }
      ExecOperands(16, old(Abs()), [target.value, source.value]);
      var v := Resolve(regs[..], source.value);
      if v.Err? { return Failed(v.error); }
      var addr := Resolve(regs[..], target.value);
      if addr.Err? { return Failed(addr.error); }
      if addr.value >= MEM_SIZE { return Failed(MemoryIndex); }
      mem[addr.value] := v.value;
      r := Running;
    }

    /** `call`: push the pc past the operand, then jump to the resolved target. */
    method ExecCall() returns (r: Status)
      requires Valid() && pc <= MEM_SIZE
      modifies this`pc, this`stack
      ensures Valid()
      ensures Outcome(r, Abs()) == Exec(17, old(Abs()))
    {
      var a := Fetch();
      if a.Err? { return Failed(a.error); }
      ExecOperands(17, old(Abs()), [a.value]);
      stack := stack + [pc];
      var addr := Resolve(regs[..], a.value);
      if addr.Err? { return Failed(addr.error); }
      pc := addr.value;
      r := Running;
    }

    /** `ret`: an empty stack stops the machine cleanly. */
    method ExecRet() returns (r: Status)
      requires Valid() && pc <= MEM_SIZE
      modifies this`pc, this`stack
      ensures Valid()
      ensures Outcome(r, Abs()) == Exec(18, old(Abs()))
    {
      ExecOperands(18, old(Abs()), []);
      if stack == [] { return Halted; }
      pc := Top(stack);
      stack := Pop(stack);
      r := Running;
    }

    /** `out`. */
    method ExecOut() returns (r: Status)
      requires Valid() && pc <= MEM_SIZE
      modifies this`pc, this`output
      ensures Valid()
      ensures Outcome(r, Abs()) == Exec(19, old(Abs()))
    {
      var a := Fetch();
      if a.Err? { return Failed(a.error); }
      ExecOperands(19, old(Abs()), [a.value]);
      var v := Resolve(regs[..], a.value);
      if v.Err? { return Failed(v.error); }
      output := output + [OutChar(v.value)];
      r := Running;
    }

    /** `in`. */
    method ExecIn() returns (r: Status)
      requires Valid() && pc <= MEM_SIZE
      modifies this, regs
      ensures Valid()
      ensures Outcome(r, Abs()) == Exec(20, old(Abs()))
    {
      var target := Fetch();
      if target.Err? { return Failed(target.error); }
      ExecOperands(20, old(Abs()), [target.value]);
      r := ReadInput(target.value);
    }

    /** Up to `fuel` trips round `main`'s loop, stopping when a step does not run on. */
    method Run(fuel: nat) returns (r: Status)
      requires Valid()
      modifies this, mem, regs
      ensures Valid()
      ensures Outcome(r, Abs()) == Spec.Run(old(Abs()), fuel)
    {
      r := Running;
      var n := 0;
      while n < fuel && r.Running?
        invariant 0 <= n <= fuel && Valid()
        invariant r.Running? ==> Spec.Run(old(Abs()), fuel) == Spec.Run(Abs(), fuel - n)
        invariant !r.Running? ==> Outcome(r, Abs()) == Spec.Run(old(Abs()), fuel)
      {
        r := Step();
        n := n + 1;
      }
    }
  }
}
