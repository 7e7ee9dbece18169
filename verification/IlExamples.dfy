/** Four methods the compiler accepts: one with a jump that goes wrong, one with a jump that
    leaves a value unwritten, one whose frame is too small for its locals, and one that jumps back
    to an allocation. */
module IlExamples {
  import opened Wrappers
  import opened IlStacks
  import opened IlLinear
  import opened IlJumps
  import opened IlRuns
  import opened IlFrame
  import opened IlMethod
  import opened IlWritten

  function SmallEnv(): (env: Env)
    ensures Sane(env)
  {
    Env(_ => 8, _ => 8, (a, b) => a == b, _ => Integers(0, 255), 0, 8, [], [])
  }

  /** The last instruction jumps from outside the barrier to its EndBarrier. */
  function StrayJump(): Program
  {
    Program(SmallEnv(), 0, [PushEmpty(0), StartBarrier(1), Constant(0, 1), Return(1), EndBarrier, Pop, Jump(-2)])
  }

  function Shell0(kind: Kind): Operand
  {
    Operand(kind, 0, 0, 0, 0, 8, 8)
  }

  const BARRIER := Operand(Barrier, 0, 0, 1, 1, 0, 8)

  /** The stacks of the linear pass. */
  function Expected(i: nat): Stacks
  {
    Stacks(match i
           case 1 => [Shell0(Shell)]
           case 2 => [Shell0(Shell), BARRIER]
           case 3 => [Shell0(Shell), BARRIER, Operand(Value, 0, 0, 0, 2, 8, 16)]
           case 4 => [Shell0(Shell), BARRIER]
           case 5 => [Shell0(Value)]
           case _ => [],
           [])
  }

  lemma ExpectedReturn(env: Env)
    requires env == SmallEnv()
    ensures ExecReturn(env, 1, Expected(3).ops) == Ok(Expected(4).ops)
  {
    var ops := Expected(3).ops;
    assert ops[..2] == Expected(4).ops && ops[2..] == [ops[2]] && ops[0..1] == [ops[0]];
  }

  lemma ExpectedEnd()
    ensures Liven(Drop(Expected(4).ops, 1), 1) == Expected(5).ops
  {
  }

  lemma PadEight(n: nat)
    requires n == 0 || n == 8
    ensures PadTo(n, 8) == n
  {
    var r := PadTo(n, 8);
    hide PadTo;
    assert r % 8 == 0 && n <= r < n + 8;
  }

  lemma Pushed(env: Env, ops: seq<Operand>, v: Operand, size: nat, depth: nat)
    requires env == SmallEnv() && size == (if TakesSpace(v.kind) then 8 else 0)
    requires depth == OperandDepth(0, ops) + size && depth <= 100
    ensures PushOperand(env, 0, ops, v) == Ok(ops + [v.(size := size, depth := depth)])
  {
    hide PadTo;
    PadEight(size);
  }

  lemma ExpectedPush(env: Env, i: nat)
    requires env == SmallEnv() && i < 3
    ensures PushOperand(env, 0, Expected(i).ops,
                        Fresh([Shell, Barrier, Value][i], 0, 0, if i == 1 then 1 else 0, i)) == Ok(Expected(i + 1).ops)
  {
    hide PushOperand, SmallEnv, OperandSize;
    if i == 0 {
      Pushed(env, [], Fresh(Shell, 0, 0, 0, 0), 8, 8);
      assert Expected(0).ops + [Shell0(Shell)] == Expected(1).ops;
    } else if i == 1 {
      Pushed(env, Expected(1).ops, Fresh(Barrier, 0, 0, 1, 1), 0, 8);
      assert Expected(1).ops + [BARRIER] == Expected(2).ops;
    } else {
      Pushed(env, Expected(2).ops, Fresh(Value, 0, 0, 0, 2), 8, 16);
      assert Expected(2).ops + [Operand(Value, 0, 0, 0, 2, 8, 16)] == Expected(3).ops;
    }
  }

  lemma ExpectedOps(p: Program, i: nat)
    requires p == StrayJump() && i < 7
    ensures ExecOps(p.env, 0, p.code[i], i, i == 4, Expected(i).ops, []) == Ok(Expected(i + 1).ops)
  {
    hide ExecReturn, Liven, PushOperand, OperandSize;
    if i < 3 {
      ExpectedPush(p.env, i);
    } else if i == 3 {
      ExpectedReturn(p.env);
    } else if i == 4 {
      ExpectedEnd();
    }
  }

  lemma ExpectedStep(p: Program, i: nat)
    requires p == StrayJump() && i < 7
    ensures Step(p, i, Expected(i)) == Ok(Expected(i + 1))
  {
    hide ExecOps;
    ExpectedOps(p, i);
  }

  lemma {:induction false} ExpectedStates(p: Program, i: nat)
    requires p == StrayJump() && i <= 7
    ensures StateAt(p, i) == Ok(Expected(i))
  {
    if i == 0 {
      assert Start(p.env) == Stacks([], []);
    } else {
      hide Step;
      ExpectedStates(p, i - 1);
      ExpectedStep(p, i - 1);
    }
  }

  lemma StrayJumpStates(p: Program)
    requires p == StrayJump()
    ensures Balanced(p) && forall i :: 0 <= i <= 7 ==> Ops(p, i) == Expected(i).ops && Locals(p, i) == []
  {
    hide StateAt, Step;
    ExpectedStates(p, 7);
    forall i | 0 <= i <= 7 ensures Ops(p, i) == Expected(i).ops && Locals(p, i) == [] {
      ExpectedStates(p, i);
    }
  }

  lemma StrayJumpTargets(p: Program)
    requires p == StrayJump() && Balanced(p) && Ops(p, 3) == Expected(3).ops && Ops(p, 6) == []
    ensures forall s :: 0 <= s < 7 ==> (Jumps(p, s, Ops(p, s)) <==> s == 3 || s == 6)
    ensures Target(p, 3) == Some(4) && Target(p, 6) == Some(4)
  {
    hide Ops, Locals, Balanced;
    assert MatchingEnd(p.code, 4, 1) == Some(4);
  }

  /** The barrier that ends at 4 was opened at 1, so the jump at 6 is a stray one. */
  lemma StrayJumpIsStray(p: Program)
    requires p == StrayJump() && Balanced(p)
    requires Ops(p, 4) == Expected(4).ops && Jumps(p, 6, Ops(p, 6)) && Target(p, 6) == Some(4)
    ensures OpenedAt(p, 4) == 1 && Stray(p, 6)
  {
    hide Ops, Locals, Balanced, Jumps, Target;
    assert Top(Expected(4).ops, 0) == BARRIER;
  }

  lemma StrayJumpInRange(p: Program, s: nat)
    requires p == StrayJump() && Balanced(p)
    ensures InRange(p, s, 4)
  {
    hide Ops, Locals, Balanced, OpenedAt;
  }

  /** The pass accepts every jump, although at the EndBarrier the last one brings no operand
      where two are expected. */
  lemma StrayJumpAccepted()
    ensures var p := StrayJump();
            Accepted(p) && !NoStrayJumps(p) && Target(p, 6) == Some(4) && Ops(p, 7) == [] && |Ops(p, 4)| == 2
  {
    hide Ops, Locals, Balanced, Jumps, Target, OpenedAt, InRange;
    var p := StrayJump();
    StrayJumpStates(p);
    StrayJumpTargets(p);
    StrayJumpIsStray(p);
    StrayJumpInRange(p, 3);
    StrayJumpInRange(p, 6);
  }

  /** Where the machine is after `j` steps. */
  function StrayRun(j: nat): seq<Machine>
  {
    seq(j + 1, i requires 0 <= i <= j => Running(i, Expected(i)))
  }

  /** A run comes to the stray jump, which finds no operands where two are expected. */
  lemma StrayJumpReached()
    ensures var p := StrayJump();
            Accepted(p) && IsRun(p, StrayRun(6)) && AtStray(p, StrayRun(6)[6]) && !AlwaysSound(p)
  {
    hide Balanced, Accepted, AlwaysSound, IsRun, Stray;
    var p := StrayJump();
    StrayJumpAccepted();
    StrayJumpStates(p);
    StrayJumpTargets(p);
    StrayJumpIsStray(p);
    StrayRunIsRun(p);
    assert !NeverAtStray(p);
    RunsSoundIff(p);
  }

  lemma StrayRunIsRun(p: Program)
    requires p == StrayJump() && Balanced(p)
    requires Ops(p, 4) == Expected(4).ops && Locals(p, 4) == [] && Target(p, 3) == Some(4)
    ensures IsRun(p, StrayRun(6))
  {
    hide Ops, Locals, Balanced, Target, Step, Expected;
    assert Start(p.env) == Expected(0) by {
      ExpectedStates(p, 0);
    }
    forall i | 0 <= i < 6 ensures Next(p, i, Expected(i), Running(i + 1, Expected(i + 1))) {
      StrayRunStep(p, i);
    }
  }

  lemma StrayRunStep(p: Program, i: nat)
    requires p == StrayJump() && Balanced(p) && i < 6
    requires Ops(p, 4) == Expected(4).ops && Locals(p, 4) == [] && Target(p, 3) == Some(4)
    ensures Next(p, i, Expected(i), Running(i + 1, Expected(i + 1)))
  {
    hide Ops, Locals, Balanced, Target, Step;
    ExpectedStep(p, i);
    if i == 3 {
      var ops := Expected(4).ops;
      assert ops[..2] == ops;
    }
  }

  lemma {:induction false} StrayJumpPass(env: Env, o: nat, i: nat)
    requires env == SmallEnv() && i <= 7 && o <= 16
    ensures var ps := PassAt(env, StrayJump().code, 0, o, i);
            ps.Ok? && ps.value.st == Expected(i) && ps.value.localMax == 0 && ps.value.opMax <= 16
  {
    hide Step;
    if i == 0 {
      assert Start(env) == Expected(0) by {
        ExpectedStates(StrayJump(), 0);
      }
    } else {
      StrayJumpPass(env, o, i - 1);
      ExpectedStep(StrayJump(), i - 1);
    }
  }

  /** The compiler as a whole accepts it too. */
  lemma StrayJumpCompiles()
    ensures CompileResult(SmallEnv(), StrayJump().code).Ok?
  {
    hide PassAt, LargestLocal, PadTo, Accepted, Expected;
    var env, code := SmallEnv(), StrayJump().code;
    NoLocals(env, code, 7);
    StrayJumpPass(env, 0, 7);
    assert Expected(7) == Stacks([], []) by {
      ExpectedLast();
    }
    var first := FullPass(env, code, 0, 0).value;
    PadEight(0);
    StrayJumpPass(env, first.opMax, 7);
    var second := FullPass(env, code, 0, first.opMax).value;
    StrayJumpPass(env, second.opMax, 7);
    StrayJumpAccepted();
  }

  lemma ExpectedLast()
    ensures Expected(7) == Stacks([], [])
  {
  }

  lemma {:induction false} NoLocals(env: Env, code: seq<Instr>, n: nat)
    requires Sane(env) && code == StrayJump().code && n <= 7
    ensures LargestLocal(env, code[..n]) == 0 && (n == 7 ==> LargestLocal(env, code) == 0)
  {
    if n > 0 {
      NoLocals(env, code, n - 1);
      assert code[..n][..n - 1] == code[..n - 1];
    }
    if n == 7 {
      assert code[..7] == code;
    }
  }

  // ---------------------------------------------------------------- a value not written

  /** The jump at 2 passes by the return that would write the shell. */
  function JumpInside(): Program
  {
    Program(SmallEnv(), 0, [PushEmpty(0), StartBarrier(1), Jump(3), Constant(0, 1), Return(1), EndBarrier, Pop])
  }

  /** The stacks of the linear pass: those of the other method, but for the value at 4. */
  function InsideAt(i: nat): Stacks
  {
    if i <= 2 then Expected(i)
    else if i == 4 then Stacks([Shell0(Shell), BARRIER, Operand(Value, 0, 0, 0, 3, 8, 16)], [])
    else if i == 3 || i == 5 then Expected(2)
    else Expected(i - 1)
  }

  lemma InsideOps(p: Program, i: nat)
    requires p == JumpInside() && i < 7
    ensures ExecOps(p.env, 0, p.code[i], i, i == 5, InsideAt(i).ops, []) == Ok(InsideAt(i + 1).ops)
  {
    hide ExecReturn, Liven, PushOperand, OperandSize;
    if i < 2 {
      ExpectedPush(p.env, i);
    } else if i == 3 {
      Pushed(p.env, InsideAt(3).ops, Fresh(Value, 0, 0, 0, 3), 8, 16);
      assert InsideAt(3).ops + [Operand(Value, 0, 0, 0, 3, 8, 16)] == InsideAt(4).ops;
    } else if i == 4 {
      InsideReturn(p.env);
    } else if i == 5 {
      ExpectedEnd();
    }
  }

  lemma InsideReturn(env: Env)
    requires env == SmallEnv()
    ensures ExecReturn(env, 1, InsideAt(4).ops) == Ok(InsideAt(5).ops)
  {
    assert InsideAt(4).ops[..2] == InsideAt(5).ops;
  }

  lemma InsideStep(p: Program, i: nat)
    requires p == JumpInside() && i < 7
    ensures Step(p, i, InsideAt(i)) == Ok(InsideAt(i + 1))
  {
    hide ExecOps;
    InsideOps(p, i);
  }

  lemma {:induction false} InsideStates(p: Program, i: nat)
    requires p == JumpInside() && i <= 7
    ensures StateAt(p, i) == Ok(InsideAt(i))
  {
    if i == 0 {
      assert Start(p.env) == Stacks([], []);
    } else {
      hide Step;
      InsideStates(p, i - 1);
      InsideStep(p, i - 1);
    }
  }

  lemma InsideBalanced(p: Program)
    requires p == JumpInside()
    ensures Balanced(p) && forall i :: 0 <= i <= 7 ==> Ops(p, i) == InsideAt(i).ops && Locals(p, i) == []
  {
    hide StateAt, Step;
    InsideStates(p, 7);
    forall i | 0 <= i <= 7 ensures Ops(p, i) == InsideAt(i).ops && Locals(p, i) == [] {
      InsideStates(p, i);
    }
  }

  lemma InsideTargets(p: Program)
    requires p == JumpInside() && Balanced(p) && Ops(p, 4) == InsideAt(4).ops
    ensures forall s :: 0 <= s < 7 ==> (Jumps(p, s, Ops(p, s)) <==> s == 2 || s == 4)
    ensures Target(p, 2) == Some(5) && Target(p, 4) == Some(5)
  {
    hide Ops, Locals, Balanced;
    assert MatchingEnd(p.code, 5, 1) == Some(5);
  }

  lemma InsideOpened(p: Program)
    requires p == JumpInside() && Balanced(p) && Ops(p, 5) == InsideAt(5).ops
    ensures OpenedAt(p, 5) == 1 && forall s :: 0 <= s < 7 ==> InRange(p, s, 5)
  {
    hide Ops, Locals, Balanced;
    assert Top(InsideAt(5).ops, 0) == BARRIER;
  }

  lemma InsideRun(p: Program)
    requires p == JumpInside() && Balanced(p)
    ensures IsRun(p, [Running(0, InsideAt(0)), Running(1, InsideAt(1)), Running(2, InsideAt(2))])
  {
    hide Ops, Locals, Balanced, Target, Step;
    InsideStates(p, 0);
    InsideStep(p, 0);
    InsideStep(p, 1);
    assert Start(p.env) == InsideAt(0);
  }

  /** No jump is a stray one and all is sound, yet a run makes a value of a shell that nobody
      has written. */
  lemma JumpInsideUnwritten()
    ensures var p := JumpInside();
            Accepted(p) && NoStrayJumps(p) && AlwaysSound(p) && !AlwaysRight(p)
  {
    hide Ops, Locals, Balanced, Jumps, Target, OpenedAt, InRange, IsRun, IsTracked, AlwaysSound, AlwaysRight;
    var p := JumpInside();
    InsideBalanced(p);
    InsideTargets(p);
    InsideOpened(p);
    NoStrayJumpsSound(p);
    InsideRun(p);
    var run := EveryRunTracked(p, [Running(0, InsideAt(0)), Running(1, InsideAt(1)), Running(2, InsideAt(2))]);
    assert run[2].m == Running(2, InsideAt(2));
    BarrierJumpIsWrong(p, run);
  }

  // ---------------------------------------------------------------- a frame too small

  function LocalOnly(): seq<Instr>
  {
    [AllocLocal(0), RemoveLocal, Return(0)]
  }

  /** The stacks of the linear pass. */
  function LocalOnlyAt(i: nat): Stacks
  {
    Stacks([], if i == 1 then [Local(0, false, 0, 8)] else [])
  }

  lemma LocalPushed(env: Env)
    requires env == SmallEnv()
    ensures PushLocal(env, [], 0, 0) == Ok([Local(0, false, 0, 8)])
  {
    hide PadTo;
    PadEight(8);
  }

  lemma LocalOnlyStep(env: Env, base: nat, i: nat)
    requires env == SmallEnv() && i < 3
    ensures Step(Program(env, base, LocalOnly()), i, LocalOnlyAt(i)) == Ok(LocalOnlyAt(i + 1))
  {
    hide PushLocal, PushOperand, ExecReturn;
    LocalPushed(env);
    assert ResultSpace(env, 0) == Ok(0);
  }

  lemma {:induction false} LocalOnlyPass(env: Env, i: nat)
    requires env == SmallEnv() && i <= 3
    ensures PassAt(env, LocalOnly(), 8, 0, i) == Ok(PassState(LocalOnlyAt(i), 8, 0))
  {
    hide Step;
    if i == 0 {
      assert Start(env) == LocalOnlyAt(0);
    } else {
      LocalOnlyPass(env, i - 1);
      LocalOnlyStep(env, 8, i - 1);
    }
  }

  lemma {:induction false} LocalOnlyState(p: Program, i: nat)
    requires p == Program(SmallEnv(), 8, LocalOnly()) && i <= 3
    ensures StateAt(p, i) == Ok(LocalOnlyAt(i))
  {
    hide Step;
    if i == 0 {
      assert Start(p.env) == LocalOnlyAt(0);
    } else {
      LocalOnlyState(p, i - 1);
      LocalOnlyStep(p.env, 8, i - 1);
    }
  }

  lemma LargestLocalOnly(env: Env)
    requires env == SmallEnv()
    ensures LargestLocal(env, LocalOnly()) == 8
  {
    var code := LocalOnly();
    hide PadTo;
    PadEight(8);
    assert code[..2] == [code[0], code[1]] && code[..2][..1] == [code[0]] && code[..1] == [code[0]] && code[..1][..0] == [];
    assert LargestLocal(env, []) == 0;
    assert LargestLocal(env, code[..1]) == 8;
    assert LargestLocal(env, code[..2]) == 8;
  }

  /** The method compiles, to a frame without a byte, although its local takes eight. */
  lemma FrameTooSmall()
    ensures var p := Program(SmallEnv(), 8, LocalOnly());
            && CompileResult(SmallEnv(), LocalOnly()) == Ok(Compiled(8, 0))
            && Balanced(p) && Locals(p, 1) == [Local(0, false, 0, 8)]
            && !FrameCoversLocals(SmallEnv(), LocalOnly(), Compiled(8, 0))
  {
    hide PassAt, StateAt, LargestLocal, PadTo, MatchingEnd;
    var env, code := SmallEnv(), LocalOnly();
    var p := Program(env, 8, code);
    LocalOnlyPass(env, 3);
    LocalOnlyState(p, 3);
    LocalOnlyState(p, 2);
    LocalOnlyState(p, 1);
    LargestLocalOnly(env);
    PadEight(8);
    PadZero(RDX_MAX_ALIGNMENT);
    assert Accepted(p);
    assert Locals(p, 1)[0].depth == 8;
  }

  // ---------------------------------------------------------------- a jump to an allocation

  /** The jump goes back to the instruction that makes the local, from behind the one that removes it. */
  function Looping(): Program
  {
    Program(SmallEnv(), 8, [AllocLocal(0), RemoveLocal, Jump(-2), Return(0)])
  }

  lemma LoopingStep(p: Program, i: nat)
    requires p == Looping() && i < 4
    ensures Step(p, i, LocalOnlyAt(i)) == Ok(LocalOnlyAt(i + 1))
  {
    hide PushLocal, PushOperand, ExecReturn;
    LocalPushed(p.env);
    assert ResultSpace(p.env, 0) == Ok(0);
  }

  lemma {:induction false} LoopingState(p: Program, i: nat)
    requires p == Looping() && i <= 4
    ensures StateAt(p, i) == Ok(LocalOnlyAt(i))
  {
    hide Step;
    if i == 0 {
      assert Start(p.env) == LocalOnlyAt(0);
    } else {
      LoopingState(p, i - 1);
      LoopingStep(p, i - 1);
    }
  }

  /** Such a jump is accepted: the allocation is not inside the span of its local. */
  lemma JumpToAllocation()
    ensures Accepted(Looping()) && Target(Looping(), 2) == Some(0)
  {
    hide StateAt, Step;
    var p := Looping();
    LoopingState(p, 4);
    LoopingState(p, 3);
    LoopingState(p, 2);
    LoopingState(p, 1);
    LoopingState(p, 0);
    assert Balanced(p) && Ops(p, 0) == [] && Ops(p, 3) == [];
    LoopingRange(p);
  }

  lemma LoopingRange(p: Program)
    requires p == Looping() && Balanced(p) && Locals(p, 1) == [Local(0, false, 0, 8)]
    ensures InRange(p, 2, 0)
  {
    hide Ops, Locals, Balanced;
  }
}
