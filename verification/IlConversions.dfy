/** A method that the compiler accepts with conversions in one direction only, with what it is
    compiled to; with the types exchanged it is rejected. */
module IlConversions {
  import opened Wrappers
  import opened IlStacks
  import opened IlLinear
  import opened IlJumps
  import opened IlFrame
  import opened IlMethod

  /** Type 1 converts to type 2, and there are no other conversions; 0 is the boolean type. */
  function OneWay(): (env: Env)
    ensures Sane(env)
  {
    Env(_ => 8, _ => 8, (a, b) => a == b || (a == 1 && b == 2), _ => Integers(0, 255), 0, 8, [], [2])
  }

  /** A value of type `a` is moved to a local of type `b`, which is loaded and makes another one;
      then two jumps on conditions, and a value of type `a` is returned where 2 is expected. */
  function Converting(a: nat, b: nat): seq<Instr>
  {
    [AllocLocal(b), Constant(a, 5), PushLocalRef(0), Move, PushLocalRef(0), Load, CreateLocal(b), Constant(0, 1),
     JumpIfTrue(2), Jump(1), Constant(0, 1), JumpIfFalse(1), RemoveLocal, RemoveLocal, Constant(a, 6), Return(1)]
  }

  function Val(base: nat, ty: nat, born: nat): Operand
  {
    Operand(Value, ty, 0, 0, born, 8, base + 8)
  }

  const FIRST := Local(2, false, 0, 8)
  const SECOND := Local(2, false, 6, 16)

  /** The stacks of the linear pass. */
  function At(base: nat, i: nat): Stacks
  {
    Stacks(match i
           case 2 => [Val(base, 1, 1)]
           case 3 => [Val(base, 1, 1), Operand(LocalRef, 2, 0, 0, 2, 0, base + 8)]
           case 5 => [Operand(LocalRef, 2, 0, 0, 4, 0, base)]
           case 6 => [Val(base, 2, 5)]
           case 8 => [Val(base, 0, 7)]
           case 11 => [Val(base, 0, 10)]
           case 15 => [Val(base, 1, 14)]
           case _ => [],
           if i == 0 || i >= 14 then [] else if 7 <= i <= 12 then [FIRST, SECOND] else [FIRST])
  }

  lemma PadEight(n: nat)
    requires n == 0 || n == 8 || n == 16
    ensures PadTo(n, 8) == n
  {
    var r := PadTo(n, 8);
    hide PadTo;
    assert r % 8 == 0 && n <= r < n + 8;
  }

  lemma Pushed(env: Env, base: nat, ops: seq<Operand>, v: Operand, size: nat)
    requires env == OneWay() && size == (if TakesSpace(v.kind) then 8 else 0) && OperandDepth(base, ops) + size <= 100
    ensures PushOperand(env, base, ops, v) == Ok(ops + [v.(size := size, depth := OperandDepth(base, ops) + size)])
  {
    hide PadTo;
    PadEight(size);
  }

  lemma LocalPushed(env: Env, locals: seq<Local>, i: nat)
    requires env == OneWay() && (if i == 0 then locals == [] else i == 6 && locals == [FIRST])
    ensures PushLocal(env, locals, 2, i) == Ok(locals + [if i == 0 then FIRST else SECOND])
  {
    hide PadTo;
    PadEight(8);
    PadEight(16);
  }

  lemma OpsAt(env: Env, base: nat, i: nat)
    requires env == OneWay() && i < 16 && base <= 16
    ensures ExecOps(env, base, Converting(1, 2)[i], i, false, At(base, i).ops, At(base, i).locals) == Ok(At(base, i + 1).ops)
  {
    hide PushOperand, OperandSize, ExecExit, ExecOps;
    if i in {1, 4, 5, 7, 10, 14} {
      OnePushed(env, base, i);
    } else if i == 2 {
      SecondPushed(env, base);
    } else {
      Taken(env, base, i);
    }
  }

  lemma OnePushed(env: Env, base: nat, i: nat)
    requires env == OneWay() && i in {1, 4, 5, 7, 10, 14} && base <= 16
    ensures ExecOps(env, base, Converting(1, 2)[i], i, false, At(base, i).ops, At(base, i).locals) == Ok(At(base, i + 1).ops)
  {
    hide PushOperand, OperandSize;
    match i {
      case 1 => Pushed(env, base, [], Fresh(Value, 1, 0, 0, 1), 8);
      case 4 => Pushed(env, base, [], Fresh(LocalRef, 2, 0, 0, 4), 0);
      case 5 =>
        assert Drop(At(base, 5).ops, 1) == [];
        Pushed(env, base, [], Fresh(Value, 2, 0, 0, 5), 8);
      case 7 => Pushed(env, base, [], Fresh(Value, 0, 0, 0, 7), 8);
      case 10 => Pushed(env, base, [], Fresh(Value, 0, 0, 0, 10), 8);
      case _ => Pushed(env, base, [], Fresh(Value, 1, 0, 0, 14), 8);
    }
  }

  lemma SecondPushed(env: Env, base: nat)
    requires env == OneWay() && base <= 16
    ensures ExecOps(env, base, PushLocalRef(0), 2, false, At(base, 2).ops, At(base, 2).locals) == Ok(At(base, 3).ops)
  {
    hide PushOperand, OperandSize;
    Pushed(env, base, At(base, 2).ops, Fresh(LocalRef, 2, 0, 0, 2), 0);
    assert At(base, 2).ops + [Operand(LocalRef, 2, 0, 0, 2, 0, base + 8)] == At(base, 3).ops;
  }

  lemma Taken(env: Env, base: nat, i: nat)
    requires env == OneWay() && i in {0, 3, 6, 8, 9, 11, 12, 13, 15} && base <= 16
    ensures ExecOps(env, base, Converting(1, 2)[i], i, false, At(base, i).ops, At(base, i).locals) == Ok(At(base, i + 1).ops)
  {
    hide PushOperand, OperandSize, ExecExit, ExecOps;
    if i == 15 {
      ExitAt(env, base);
      ReturnTaken(env, base);
    } else if i == 3 {
      MoveTaken(env, base);
    } else {
      OneTaken(env, base, i);
    }
  }

  lemma ReturnTaken(env: Env, base: nat)
    requires env == OneWay() && ExecExit(env, 1, At(base, 15).ops) == Ok([])
    ensures ExecOps(env, base, Return(1), 15, false, At(base, 15).ops, At(base, 15).locals) == Ok([])
  {
    hide ExecExit, ExecReturn;
    assert |At(base, 15).ops| == 1;
  }

  lemma MoveTaken(env: Env, base: nat)
    requires env == OneWay()
    ensures ExecOps(env, base, Move, 3, false, At(base, 3).ops, At(base, 3).locals) == Ok([])
  {
    var ops := At(base, 3).ops;
    assert Top(ops, 0).ty == 2 && Top(ops, 1).ty == 1 && Drop(ops, 2) == [];
  }

  lemma OneTaken(env: Env, base: nat, i: nat)
    requires env == OneWay() && i in {0, 6, 8, 9, 11, 12, 13}
    ensures ExecOps(env, base, Converting(1, 2)[i], i, false, At(base, i).ops, At(base, i).locals) == Ok(At(base, i + 1).ops)
  {
    hide PushOperand, OperandSize, ExecExit, ExecReturn;
    var ops := At(base, i).ops;
    assert ops != [] ==> Drop(ops, 1) == [];
  }

  lemma ExitAt(env: Env, base: nat)
    requires env == OneWay()
    ensures ExecExit(env, 1, At(base, 15).ops) == Ok([])
  {
    hide OperandSize;
    assert OperandSize(env, Value, 2) == Ok(8) by { SizeIsEight(env); }
    assert ResultSpace(env, 1) == Ok(0);
    assert ResultSpace(env, 0) == Ok(8);
  }

  lemma SizeIsEight(env: Env)
    requires env == OneWay()
    ensures OperandSize(env, Value, 2) == Ok(8)
  {
    hide PadTo;
    PadEight(8);
  }

  lemma LocalsAt(env: Env, base: nat, i: nat)
    requires env == OneWay() && i < 16
    ensures ExecLocals(env, Converting(1, 2)[i], i, At(base, i).ops, At(base, i).locals) == Ok(At(base, i + 1).locals)
  {
    hide PushLocal;
    if i == 0 || i == 6 {
      LocalPushed(env, At(base, i).locals, i);
      assert [] + [FIRST] == [FIRST] && [FIRST] + [SECOND] == [FIRST, SECOND];
    } else if i >= 12 {
      assert [FIRST, SECOND][..1] == [FIRST] && [FIRST][..0] == [];
    }
  }

  lemma StepAtIs(env: Env, base: nat, i: nat)
    requires env == OneWay() && i < 16 && base <= 16
    ensures Step(Program(env, base, Converting(1, 2)), i, At(base, i)) == Ok(At(base, i + 1))
  {
    hide ExecOps, ExecLocals;
    OpsAt(env, base, i);
    LocalsAt(env, base, i);
  }

  lemma {:induction false} StatesAre(p: Program, i: nat)
    requires p.env == OneWay() && p.base <= 16 && p.code == Converting(1, 2) && i <= 16
    ensures StateAt(p, i) == Ok(At(p.base, i))
  {
    if i == 0 {
      assert Start(p.env) == Stacks([], []);
    } else {
      hide Step;
      StatesAre(p, i - 1);
      StepAtIs(p.env, p.base, i - 1);
    }
  }

  lemma StacksAre(p: Program)
    requires p == Program(OneWay(), 16, Converting(1, 2))
    ensures Balanced(p) && forall i :: 0 <= i <= 16 ==> Ops(p, i) == At(16, i).ops && Locals(p, i) == At(16, i).locals
  {
    hide StateAt, Step;
    StatesAre(p, 16);
    forall i | 0 <= i <= 16 ensures Ops(p, i) == At(16, i).ops && Locals(p, i) == At(16, i).locals {
      StatesAre(p, i);
    }
  }

  lemma JumpsAre(p: Program, s: nat)
    requires p == Program(OneWay(), 16, Converting(1, 2)) && Balanced(p) && s < 16 && Ops(p, s) == At(16, s).ops
    ensures Jumps(p, s, Ops(p, s)) <==> s == 8 || s == 9 || s == 11
    ensures Target(p, 8) == Some(10) && Target(p, 9) == Some(10) && Target(p, 11) == Some(12)
  {
    hide Ops, Balanced;
    assert s == 15 ==> |At(16, 15).ops| == 1;
  }

  lemma RangesAre(p: Program, s: nat, t: nat)
    requires p == Program(OneWay(), 16, Converting(1, 2)) && Balanced(p)
    requires Locals(p, 12) == [FIRST, SECOND] && Locals(p, 13) == [FIRST] && 8 <= s <= 11 && (t == 10 || t == 12)
    ensures InRange(p, s, t)
  {
    hide Ops, Locals, Balanced;
  }

  lemma IsAccepted(p: Program)
    requires p == Program(OneWay(), 16, Converting(1, 2))
    ensures Accepted(p)
  {
    hide Ops, Locals, Balanced, Jumps, Target, InRange;
    StacksAre(p);
    forall s: nat | s < 16 && Jumps(p, s, Ops(p, s))
      ensures Target(p, s).Some? && JumpAccepted(p, s, Target(p, s).value)
    {
      JumpsAre(p, s);
      RangesAre(p, s, Target(p, s).value);
    }
  }

  /** The local area that the first pass knows, and the deepest operand so far. */
  function FirstState(i: nat): PassState
  {
    if i <= 1 then PassState(At(8, i), 8, 0) else if i <= 6 then PassState(At(8, i), 8, 16)
    else if i == 7 then PassState(At(16, i), 16, 16) else PassState(At(16, i), 16, 24)
  }

  lemma FirstPassStep(env: Env, i: nat)
    requires env == OneWay() && i < 16
    ensures PassStep(env, Converting(1, 2), i, FirstState(i)) == Ok(FirstState(i + 1))
  {
    hide Step;
    StepAtIs(env, if i <= 6 then 8 else 16, i);
    assert At(8, 7) == At(16, 7);
  }

  lemma {:induction false} FirstPassAt(env: Env, i: nat)
    requires env == OneWay() && i <= 16
    ensures PassAt(env, Converting(1, 2), 8, 0, i) == Ok(FirstState(i))
  {
    hide PassStep, Converting;
    if i == 0 {
      assert Start(env) == At(8, 0);
    } else {
      hide FirstState;
      FirstPassAt(env, i - 1);
      FirstPassStep(env, i - 1);
    }
  }

  lemma {:induction false} NextPassAt(env: Env, i: nat)
    requires env == OneWay() && i <= 16
    ensures PassAt(env, Converting(1, 2), 16, 24, i) == Ok(PassState(At(16, i), 16, 24))
  {
    hide Step;
    if i == 0 {
      assert Start(env) == At(16, 0);
    } else {
      NextPassAt(env, i - 1);
      StepAtIs(env, 16, i - 1);
    }
  }

  lemma {:induction false} LargestAt(env: Env, code: seq<Instr>, i: nat)
    requires env == OneWay() && code == Converting(1, 2) && i <= 16
    ensures LargestLocal(env, code[..i]) == if i == 0 then 0 else 8
    ensures i == 16 ==> LargestLocal(env, code) == 8
  {
    hide PadTo;
    PadEight(8);
    if i > 0 {
      LargestAt(env, code, i - 1);
      assert code[..i][..i - 1] == code[..i - 1];
    }
    assert code[..16] == code;
  }

  /** The method compiles: a local area of 16 bytes, a frame of 32. */
  lemma ConvertingCompiles()
    ensures CompileResult(OneWay(), Converting(1, 2)) == Ok(Compiled(16, 32))
  {
    hide PassAt, LargestLocal, PadTo, Accepted, At;
    var env, code := OneWay(), Converting(1, 2);
    LargestAt(env, code, 16);
    FirstPassAt(env, 16);
    NextPassAt(env, 16);
    EmptyAtEnd();
    PadEight(16);
    FrameOf24();
    IsAccepted(Program(env, 16, code));
  }

  lemma EmptyAtEnd()
    ensures At(16, 16) == Stacks([], [])
  {
  }

  lemma FrameOf24()
    ensures FrameCapacity(24) == Ok(32)
  {
    var r := PadTo(24, 16);
    hide PadTo;
    assert r % 16 == 0 && 24 <= r < 40;
  }

  // ---------------------------------------------------------------- the other way round

  /** The first instructions, up to the move of a value of type 2 to a local of type 1. */
  function Before(base: nat, i: nat): Stacks
  {
    Stacks(if i < 2 then [] else if i == 2 then [Val(base, 2, 1)] else [Val(base, 2, 1), Operand(LocalRef, 1, 0, 0, 2, 0, base + 8)],
           if i == 0 then [] else [Local(1, false, 0, 8)])
  }

  lemma BeforeStep(env: Env, base: nat, i: nat)
    requires env == OneWay() && i < 3 && base <= 16
    ensures Step(Program(env, base, Converting(2, 1)), i, Before(base, i)) == Ok(Before(base, i + 1))
  {
    hide PushOperand, OperandSize, PushLocal;
    if i == 0 {
      assert PushLocal(env, [], 1, 0) == Ok([Local(1, false, 0, 8)]) by { OtherPushed(env); }
    } else if i == 1 {
      Pushed(env, base, [], Fresh(Value, 2, 0, 0, 1), 8);
    } else {
      Pushed(env, base, Before(base, 2).ops, Fresh(LocalRef, 1, 0, 0, 2), 0);
      assert Before(base, 2).ops + [Operand(LocalRef, 1, 0, 0, 2, 0, base + 8)] == Before(base, 3).ops;
    }
  }

  lemma OtherPushed(env: Env)
    requires env == OneWay()
    ensures PushLocal(env, [], 1, 0) == Ok([Local(1, false, 0, 8)])
  {
    hide PadTo;
    PadEight(8);
  }

  lemma {:induction false} BeforeAt(env: Env, m: nat, i: nat)
    requires env == OneWay() && i <= 3 && m == 8
    ensures var ps := PassAt(env, Converting(2, 1), m, 0, i); ps.Ok? && ps.value.st == Before(8, i) && ps.value.localMax == 8
  {
    hide Step;
    if i == 0 {
      assert Start(env) == Before(8, 0);
    } else {
      BeforeAt(env, m, i - 1);
      BeforeStep(env, 8, i - 1);
    }
  }

  lemma MoveFails(env: Env)
    requires env == OneWay()
    ensures Step(Program(env, 8, Converting(2, 1)), 3, Before(8, 3)) == Err(IncompatibleConversion)
  {
    hide PushOperand, PushLocal, OperandSize, PadTo, ExecReturn, ExecExit, ExecLocals, IsConstant, Liven, Target, Jumps;
    assert Converting(2, 1)[3] == Move;
    assert Top(Before(8, 3).ops, 1).ty == 2 && Top(Before(8, 3).ops, 0).ty == 1;
  }

  lemma {:induction false} StaysFailed(env: Env, code: seq<Instr>, m: nat, o: nat, i: nat, n: nat)
    requires Sane(env) && i <= n <= |code| && PassAt(env, code, m, o, i).Err?
    ensures PassAt(env, code, m, o, n) == Err(PassAt(env, code, m, o, i).error)
    decreases n
  {
    hide PassStep;
    if i < n {
      StaysFailed(env, code, m, o, i, n - 1);
    }
  }

  lemma {:induction false} LargestOther(env: Env, code: seq<Instr>, i: nat)
    requires env == OneWay() && code == Converting(2, 1) && i <= 16
    ensures LargestLocal(env, code[..i]) == if i == 0 then 0 else 8
    ensures i == 16 ==> LargestLocal(env, code) == 8
  {
    hide PadTo;
    PadEight(8);
    if i > 0 {
      LargestOther(env, code, i - 1);
      assert code[..i][..i - 1] == code[..i - 1];
    }
    assert code[..16] == code;
  }

  /** With the types exchanged the move is refused. */
  lemma ExchangedIsRejected()
    ensures CompileResult(OneWay(), Converting(2, 1)) == Err(IncompatibleConversion)
  {
    var env, code := OneWay(), Converting(2, 1);
    LargestOther(env, code, 16);
    hide LargestLocal, Step, Before;
    BeforeAt(env, 8, 3);
    MoveFails(env);
    assert PassAt(env, code, 8, 0, 4) == Err(IncompatibleConversion);
    StaysFailed(env, code, 8, 0, 4, 16);
  }
}
