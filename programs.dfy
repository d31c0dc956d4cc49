/**
 * Small programs run end to end under `Spec.Run`: what the interpreter
 * prints and leaves in its registers for a few fixed memory images.
 * A program is given instruction by instruction, each as the words
 * memory holds from its address on.
 */
module Programs {
  import opened Words
  import opened Spec
  import opened Laws

  const R0: int := 0x8000
  const R1: int := 0x8001
  const R2: int := 0x8002

  /** Memory holds the words of `prog` from address `base` on. */
  ghost predicate Loaded(mem: seq<int>, base: nat, prog: seq<int>)
    decreases |prog|
  {
    base + |prog| <= |mem| && (prog == [] || (mem[base] == prog[0] && Loaded(mem, base + 1, prog[1..])))
  }

  /** Every word of a loaded program is where `Loaded` says. */
  lemma {:induction false} LoadedWords(mem: seq<int>, base: nat, prog: seq<int>)
    requires Loaded(mem, base, prog)
    ensures forall i | base <= i < base + |prog| :: mem[i] == prog[i - base]
    decreases |prog|
  {
    if prog != [] {
      LoadedWords(mem, base + 1, prog[1..]);
      forall i | base <= i < base + |prog|
        ensures mem[i] == prog[i - base]
      {
        if i > base {
          assert prog[i - base] == prog[1..][i - (base + 1)];
        }
      }
    }
  }

  /** `set` of a literal word: one step of a run. */
  lemma SetRuns(s: State, a: int, v: int, t: State, fuel: nat)
    requires Valid(s) && !(s.pc == PATCH_PC && s.patch) && fuel >= 1
    requires MODULUS <= a < MODULUS + NUM_REGS && 0 <= v < MODULUS && Loaded(s.mem, s.pc, [1, a, v])
    requires t == s.(pc := s.pc + 3, regs := s.regs[a - MODULUS := v])
    ensures Valid(t) && Run(s, fuel) == Run(t, fuel - 1)
  {
    LoadedWords(s.mem, s.pc, [1, a, v]);
    assert At(s, 1, [MODULUS + (a - MODULUS), v]);
    assert Resolve(s.regs, v) == Ok(v);
    SetStores(s, a - MODULUS, v);
    RunFirst(s, t, fuel - 1);
  }

  /** `out` of a word that resolves to `v`: one step of a run. */
  lemma OutRuns(s: State, a: int, v: int, t: State, fuel: nat)
    requires Valid(s) && !(s.pc == PATCH_PC && s.patch) && fuel >= 1
    requires IsWord(a) && Loaded(s.mem, s.pc, [19, a]) && Resolve(s.regs, a) == Ok(v)
    requires t == s.(pc := s.pc + 2, output := s.output + [OutChar(v)])
    ensures Valid(t) && Run(s, fuel) == Run(t, fuel - 1)
  {
    LoadedWords(s.mem, s.pc, [19, a]);
    assert At(s, 19, [a]);
    OutAppends(s, a);
    RunFirst(s, t, fuel - 1);
  }

  /** `halt` ends the run there. */
  lemma HaltRuns(s: State, fuel: nat)
    requires Valid(s) && !(s.pc == PATCH_PC && s.patch) && fuel >= 1 && Loaded(s.mem, s.pc, [0])
    ensures Run(s, fuel) == Outcome(Halted, s.(pc := s.pc + 1))
  {
    NoopAndHalt(s);
    RunStops(s, fuel - 1);
  }

  /** `out 'A'; halt` prints one `A` and stops after two steps. */
  lemma OutThenHalt(s: State, fuel: nat)
    requires Valid(s) && s.pc == 0 && fuel >= 2
    requires Loaded(s.mem, 0, [19, 'A' as int]) && Loaded(s.mem, 2, [0])
    ensures Run(s, fuel) == Outcome(Halted, s.(pc := 3, output := s.output + ['A' as int]))
  {
    var t := s.(pc := 2, output := s.output + ['A' as int]);
    OutRuns(s, 'A' as int, 'A' as int, t, fuel);
    HaltRuns(t, fuel - 1);
  }

  /** The words of `set r0 4; set r1 1; add r2 r0 r1; out r2; halt` from address 0 on. */
  ghost predicate AddLoaded(mem: seq<int>)
  {
    && Loaded(mem, 0, [1, R0, 4]) && Loaded(mem, 3, [1, R1, 1])
    && Loaded(mem, 6, [9, R2, R0, R1]) && Loaded(mem, 10, [19, R2]) && Loaded(mem, 12, [0])
  }

  /** `set r0 4; set r1 1; add r2 r0 r1; out r2; halt` prints the code point 5 and leaves 4, 1 and 5 in r0, r1 and r2. */
  lemma AddProgram(s: State, fuel: nat)
    requires Valid(s) && s.pc == 0 && fuel >= 5 && AddLoaded(s.mem)
    ensures Run(s, fuel) == Outcome(Halted,
      s.(pc := 13, regs := s.regs[0 := 4][1 := 1][2 := 5], output := s.output + [5]))
  {
    var t := s.(pc := 6, regs := s.regs[0 := 4][1 := 1]);
    assert Valid(t) && Run(s, fuel) == Run(t, fuel - 2) by { AddHead(s, fuel); }
    AddTail(s, fuel - 2);
  }

  /** The two `set` steps of `AddProgram`. */
  lemma AddHead(s: State, fuel: nat)
    requires Valid(s) && s.pc == 0 && fuel >= 2 && AddLoaded(s.mem)
    ensures Valid(s.(pc := 6, regs := s.regs[0 := 4][1 := 1]))
    ensures Run(s, fuel) == Run(s.(pc := 6, regs := s.regs[0 := 4][1 := 1]), fuel - 2)
  {
    var s1 := s.(pc := 3, regs := s.regs[0 := 4]);
    SetRuns(s, R0, 4, s1, fuel);
    SetRuns(s1, R1, 1, s.(pc := 6, regs := s.regs[0 := 4][1 := 1]), fuel - 1);
  }

  /** The `add r2 r0 r1; out r2; halt` steps of `AddProgram`, once both `set`s are done. */
  lemma AddTail(s: State, fuel: nat)
    requires Valid(s) && AddLoaded(s.mem) && fuel >= 3
    ensures Run(s.(pc := 6, regs := s.regs[0 := 4][1 := 1]), fuel) == Outcome(Halted,
      s.(pc := 13, regs := s.regs[0 := 4][1 := 1][2 := 5], output := s.output + [5]))
  {
    AddSum(s, fuel);
    AddPrint(s, fuel - 1);
  }

  /** The `add r2 r0 r1` step of `AddProgram`, once both `set`s are done. */
  lemma AddSum(s: State, fuel: nat)
    requires Valid(s) && AddLoaded(s.mem) && fuel >= 1
    ensures Valid(s.(pc := 10, regs := s.regs[0 := 4][1 := 1][2 := 5]))
    ensures Run(s.(pc := 6, regs := s.regs[0 := 4][1 := 1]), fuel)
         == Run(s.(pc := 10, regs := s.regs[0 := 4][1 := 1][2 := 5]), fuel - 1)
  {
    var t := s.(pc := 6, regs := s.regs[0 := 4][1 := 1]);
    LoadedWords(s.mem, 6, [9, R2, R0, R1]);
    assert At(t, 9, [MODULUS + 2, R0, R1]);
    assert Resolve(t.regs, R0) == Ok(4) && Resolve(t.regs, R1) == Ok(1);
    AddStores(t, 2, R0, R1);
    assert (4 + 1) % MODULUS == 5;
    RunFirst(t, s.(pc := 10, regs := s.regs[0 := 4][1 := 1][2 := 5]), fuel - 1);
  }

  /** The `out r2; halt` steps of `AddProgram`. */
  lemma AddPrint(s: State, fuel: nat)
    requires Valid(s) && AddLoaded(s.mem) && fuel >= 2
    requires Valid(s.(pc := 10, regs := s.regs[0 := 4][1 := 1][2 := 5]))
    ensures Run(s.(pc := 10, regs := s.regs[0 := 4][1 := 1][2 := 5]), fuel) == Outcome(Halted,
      s.(pc := 13, regs := s.regs[0 := 4][1 := 1][2 := 5], output := s.output + [5]))
  {
    var t := s.(pc := 10, regs := s.regs[0 := 4][1 := 1][2 := 5]);
    var t1 := t.(pc := 12, output := s.output + [5]);
    OutRuns(t, R2, 5, t1, fuel);
    HaltRuns(t1, fuel - 1);
  }

  /** The words of `in r0; call 6027; out r0; halt` from address 0 on. */
  ghost predicate TeleportLoaded(mem: seq<int>)
  {
    Loaded(mem, 0, [20, R0]) && Loaded(mem, 2, [17, PATCH_PC]) && Loaded(mem, 4, [19, R0]) && Loaded(mem, 6, [0])
  }

  /**
   * With input `!`, newline, `A`: `in r0` arms the shortcut, presets r7
   * and stores `A`; `call 6027` then returns at once with r0 = 6, which
   * `out r0` prints before `halt`.
   */
  lemma TeleportProgram(s: State, fuel: nat)
    requires Valid(s) && s.pc == 0 && !s.patch && fuel >= 5 && TeleportLoaded(s.mem)
    requires s.input == [CMD_PATCH, NEWLINE, 'A' as int]
    ensures Run(s, fuel) == Outcome(Halted,
      s.(pc := 7, patch := true, input := [],
         regs := s.regs[7 := PATCH_R7][0 := PATCH_R0], output := s.output + [PATCH_R0]))
  {
    TeleportHead(s, fuel);
    TeleportTail(s, fuel - 3);
  }

  /** `in r0` and `call 6027`, which the shortcut answers at once. */
  lemma TeleportHead(s: State, fuel: nat)
    requires Valid(s) && s.pc == 0 && !s.patch && fuel >= 3 && TeleportLoaded(s.mem)
    requires s.input == [CMD_PATCH, NEWLINE, 'A' as int]
    ensures Run(s, fuel) == Run(s.(pc := 4, patch := true, input := [],
      regs := s.regs[7 := PATCH_R7][0 := PATCH_R0]), fuel - 3)
  {
    var s1 := s.(pc := 2, patch := true, input := [], regs := s.regs[7 := PATCH_R7][0 := 'A' as int]);
    var s2 := s1.(pc := PATCH_PC, stack := s.stack + [4]);
    var s3 := s1.(pc := 4, regs := s1.regs[0 := PATCH_R0]);
    assert At(s, 20, [R0]) by { LoadedWords(s.mem, 0, [20, R0]); }
    assert At(s1, 17, [PATCH_PC]) by { LoadedWords(s.mem, 2, [17, PATCH_PC]); }
    assert Valid(s1) && Run(s, fuel) == Run(s1, fuel - 1) by {
      PatchCommand(s, R0, [], 'A' as int, []);
      RunFirst(s, s1, fuel - 1);
    }
    assert Valid(s2) && Run(s1, fuel - 1) == Run(s2, fuel - 2) by { CallThenRet(s1, PATCH_PC); RunFirst(s1, s2, fuel - 2); }
    assert Run(s2, fuel - 2) == Run(s3, fuel - 3) by {
      TeleportReturns(s2);
      assert Pop(s2.stack) == s.stack;
      RunFirst(s2, s3, fuel - 3);
    }
    assert s3 == s.(pc := 4, patch := true, input := [], regs := s.regs[7 := PATCH_R7][0 := PATCH_R0]);
  }

  /** `out r0; halt` after the shortcut. */
  lemma TeleportTail(s: State, fuel: nat)
    requires Valid(s) && TeleportLoaded(s.mem) && fuel >= 2
    ensures var t := s.(pc := 4, patch := true, input := [], regs := s.regs[7 := PATCH_R7][0 := PATCH_R0]);
      Run(t, fuel) == Outcome(Halted, t.(pc := 7, output := s.output + [PATCH_R0]))
  {
    var t := s.(pc := 4, patch := true, input := [], regs := s.regs[7 := PATCH_R7][0 := PATCH_R0]);
    var t1 := t.(pc := 6, output := s.output + [PATCH_R0]);
    OutRuns(t, R0, PATCH_R0, t1, fuel);
    HaltRuns(t1, fuel - 1);
  }
}
