/** How tight the frame of a method is: below its deepest operand there is less than one unit of
    alignment. */
module IlTight {
  import opened IlStacks
  import opened IlLinear
  import opened IlJumps
  import opened IlFrame
  import opened IlMethod

  // ---------------------------------------------------------------- operands in another pass

  /** The same operands, none of them deeper. */
  ghost predicate Shifted(a: seq<Operand>, b: seq<Operand>)
  {
    |a| == |b| && forall k :: 0 <= k < |a| ==> a[k] == b[k].(depth := a[k].depth) && a[k].depth <= b[k].depth
  }

  lemma ShiftedPart(a: seq<Operand>, b: seq<Operand>, n: nat)
    requires Shifted(a, b) && n <= |a|
    ensures Shifted(a[..n], b[..n])
  {
  }

  lemma ShiftedPush(env: Env, base: nat, base': nat, a: seq<Operand>, b: seq<Operand>, v: Operand)
    requires env.stackAlign >= 1 && Shifted(a, b) && base <= base'
    requires PushOperand(env, base, a, v).Ok? && PushOperand(env, base', b, v).Ok?
    ensures Shifted(PushOperand(env, base, a, v).value, PushOperand(env, base', b, v).value)
  {
    hide OperandSize;
  }

  lemma ShiftedReturn(env: Env, n: int, a: seq<Operand>, b: seq<Operand>)
    requires Shifted(a, b) && ExecReturn(env, n, a).Ok? && ExecReturn(env, n, b).Ok?
    ensures Shifted(ExecReturn(env, n, a).value, ExecReturn(env, n, b).value)
  {
    ShiftedPart(a, b, |a| - n);
  }

  lemma ShiftedEnd(a: seq<Operand>, b: seq<Operand>, n: int)
    requires Shifted(a, b)
    ensures Shifted(Liven(a, n), Liven(b, n))
  {
  }

  lemma {:induction false} ShiftedOps(env: Env, base: nat, base': nat, instr: Instr, i: nat, after: bool,
                                      a: seq<Operand>, b: seq<Operand>, locals: seq<Local>)
    requires Sane(env) && Shifted(a, b) && base <= base'
    requires ExecOps(env, base, instr, i, after, a, locals).Ok? && ExecOps(env, base', instr, i, after, b, locals).Ok?
    ensures Shifted(ExecOps(env, base, instr, i, after, a, locals).value, ExecOps(env, base', instr, i, after, b, locals).value)
  {
    hide Shifted, PushOperand, ExecReturn, ExecExit, Liven, IsConstant;
    ShiftedSizes(a, b);
    match instr {
      case PushLocalRef(index) => ShiftedPush(env, base, base', a, b, Fresh(LocalRef, locals[index].ty, index, 0, i));
      case Load =>
        ShiftedPart(a, b, |a| - 1);
        ShiftedPush(env, base, base', Drop(a, 1), Drop(b, 1), Fresh(Value, locals[Top(a, 0).index].ty, 0, 0, i));
      case Constant(t, _) => ShiftedPush(env, base, base', a, b, Fresh(Value, t, 0, 0, i));
      case PushEmpty(t) => ShiftedPush(env, base, base', a, b, Fresh(Shell, t, 0, 0, i));
      case StartBarrier(n) => ShiftedPush(env, base, base', a, b, Fresh(Barrier, 0, 0, n, i));
      case EndBarrier =>
        ShiftedPart(a, b, |a| - 1);
        ShiftedEnd(Drop(a, 1), Drop(b, 1), Top(a, 0).count);
      case Return(n) =>
        if n == |a| {
          ExitsAlike(env, n, a, b);
        } else {
          ShiftedReturn(env, n, a, b);
        }
      case Move => ShiftedPart(a, b, |a| - 2);
      case CreateLocal(_) => ShiftedPart(a, b, 0);
      case AllocLocal(_) =>
      case RemoveLocal =>
      case Jump(_) =>
      case _ => ShiftedPart(a, b, |a| - 1);
    }
  }

  lemma ShiftedSizes(a: seq<Operand>, b: seq<Operand>)
    requires Shifted(a, b)
    ensures |a| == |b| && (a != [] ==> Top(a, 0) == Top(b, 0).(depth := Top(a, 0).depth))
  {
  }

  lemma ExitsAlike(env: Env, n: nat, a: seq<Operand>, b: seq<Operand>)
    requires n == |a| == |b| && env.stackAlign >= 1 && ExecExit(env, n, a).Ok? && ExecExit(env, n, b).Ok?
    ensures Shifted(ExecExit(env, n, a).value, ExecExit(env, n, b).value)
  {
    assert ExecExit(env, n, a).value == [] && ExecExit(env, n, b).value == [];
  }

  lemma ShiftedStep(env: Env, code: seq<Instr>, base: nat, base': nat, i: nat, a: Stacks, b: Stacks)
    requires Sane(env) && i < |code| && Shifted(a.ops, b.ops) && a.locals == b.locals && base <= base'
    requires Step(Program(env, base, code), i, a).Ok? && Step(Program(env, base', code), i, b).Ok?
    ensures Shifted(Step(Program(env, base, code), i, a).value.ops, Step(Program(env, base', code), i, b).value.ops)
  {
    hide Shifted, ExecOps, ExecLocals, Jumps, Target;
    ShiftedOps(env, base, base', code[i], i, i > 0 && code[i - 1].Return?, a.ops, b.ops, a.locals);
  }

  /** A pass that places operands below a larger area places the same ones, no less deep. */
  lemma {:induction false} LaterIsDeeper(env: Env, code: seq<Instr>, m: nat, o: nat, m': nat, o': nat, i: nat)
    requires Sane(env) && i <= |code| && PassAt(env, code, m, o, i).Ok? && PassAt(env, code, m', o', i).Ok?
    requires PassAt(env, code, m, o, i).value.localMax <= m'
    ensures Shifted(PassAt(env, code, m, o, i).value.st.ops, PassAt(env, code, m', o', i).value.st.ops)
    decreases i
  {
    hide Step, PassAt, Shifted;
    if i > 0 {
      PassBefore(env, code, m, o, i);
      PassBefore(env, code, m', o', i);
      EarlierPass(env, code, m, o, i - 1, i);
      EarlierPass(env, code, m', o', 0, i - 1);
      FirstPassState(env, code, m', o');
      LaterIsDeeper(env, code, m, o, m', o', i - 1);
      SameLocals(env, code, m, o, m', o', i - 1);
      var a, b := PassAt(env, code, m, o, i - 1).value, PassAt(env, code, m', o', i - 1).value;
      ShiftedStep(env, code, a.localMax, b.localMax, i - 1, a.st, b.st);
    } else {
      FirstPassState(env, code, m, o);
      FirstPassState(env, code, m', o');
      NothingShifted(env);
    }
  }

  lemma NothingShifted(env: Env)
    ensures Shifted(Start(env).ops, Start(env).ops)
  {
  }

  // ---------------------------------------------------------------- the operand maximum

  /** The operand maximum is what it was before the pass, or the depth of some operand. */
  lemma {:induction false} MaximumIsReached(env: Env, code: seq<Instr>, m: nat, o: nat, i: nat) returns (j: nat)
    requires Sane(env) && i <= |code| && PassAt(env, code, m, o, i).Ok?
    ensures j <= i && PassAt(env, code, m, o, j).Ok?
    ensures var ops := PassAt(env, code, m, o, j).value.st.ops;
            PassAt(env, code, m, o, i).value.opMax == o ||
            (j > 0 && Pushes(code[j - 1]) && ops != [] && PassAt(env, code, m, o, i).value.opMax == ops[|ops| - 1].depth)
    decreases i
  {
    hide Step;
    j := i;
    if i > 0 {
      var before, after := PassAt(env, code, m, o, i - 1).value, PassAt(env, code, m, o, i).value;
      PushedSomething(env, code, before.localMax, i - 1, before.st);
      if after.opMax == before.opMax {
        j := MaximumIsReached(env, code, m, o, i - 1);
      }
    }
  }

  lemma PushedSomething(env: Env, code: seq<Instr>, base: nat, i: nat, st: Stacks)
    requires Sane(env) && i < |code| && Step(Program(env, base, code), i, st).Ok?
    ensures Pushes(code[i]) ==> Step(Program(env, base, code), i, st).value.ops != []
  {
    hide PushOperand, ExecLocals, ExecExit, ExecReturn, Jumps, Target;
  }

  /** Some operand is that deep, or there is no frame. */
  ghost predicate IsDepth(p: Program, d: nat)
    requires Balanced(p)
  {
    d == 0 || exists i: nat :: i <= |p.code| && Ops(p, i) != [] && Top(Ops(p, i), 0).depth == d
  }

  /** What an earlier pass has reached, and a later one has not passed, the later one reaches, too. */
  lemma {:induction false} ReachedAgain(env: Env, code: seq<Instr>, m: nat, o: nat, base: nat, o': nat, j: nat)
    requires Sane(env) && 0 < j <= |code| && PassAt(env, code, m, o, |code|).Ok? && PassAt(env, code, base, o', |code|).Ok?
    requires PassAt(env, code, m, o, |code|).value.localMax <= base && PassAt(env, code, m, o, j).Ok? && Pushes(code[j - 1])
    requires var ops := PassAt(env, code, m, o, j).value.st.ops;
             ops != [] && PassAt(env, code, base, o', |code|).value.opMax == ops[|ops| - 1].depth
    requires Balanced(Program(env, base, code))
    ensures IsDepth(Program(env, base, code), PassAt(env, code, base, o', |code|).value.opMax)
  {
    hide Step, PassAt, LocalsLaidOut, OpsLaidOut, Balanced;
    EarlierPass(env, code, m, o, j, |code|);
    EarlierPass(env, code, base, o', j, |code|);
    LaterIsDeeper(env, code, m, o, base, o', j);
    LaterPass(env, code, m, o, base, o', j);
    var p, ops, after := Program(env, base, code), PassAt(env, code, m, o, j).value.st.ops, PassAt(env, code, base, o', j).value;
    DepthOfTop(after.st.ops, base, after.opMax);
    assert Ops(p, j) == after.st.ops by { OpsAre(p, j); }
    assert Top(Ops(p, j), 0).depth == PassAt(env, code, base, o', |code|).value.opMax;
  }

  lemma OpsAre(p: Program, i: nat)
    requires Balanced(p) && i <= |p.code|
    ensures StateAt(p, i).Ok? && Ops(p, i) == StateAt(p, i).value.ops
  {
    EarlierOk(p, i, |p.code|);
  }

  /** The operand maximum of the last pass is the depth of an operand of the method. */
  lemma {:induction false} MaximumIsDepth(env: Env, code: seq<Instr>, first: PassState, second: PassState, third: PassState, c: Compiled)
    requires Sane(env) && Passes(env, code, first, second, third, c) && Balanced(Program(env, c.base, code))
    ensures IsDepth(Program(env, c.base, code), third.opMax)
  {
    hide PassAt, Balanced, IsDepth, PadTo;
    var m, n := LargestLocal(env, code), |code|;
    var j := MaximumIsReached(env, code, c.base, second.opMax, n);
    if third.opMax != second.opMax {
      ReachedInLast(env, code, m, 0, c.base, second.opMax, j);
    } else {
      j := MaximumIsReached(env, code, c.base, first.opMax, n);
      if second.opMax != first.opMax {
        ReachedInLast(env, code, m, 0, c.base, first.opMax, j);
      } else {
        j := MaximumIsReached(env, code, m, 0, n);
        if first.opMax != 0 {
          ReachedAgain(env, code, m, 0, c.base, second.opMax, j);
        } else {
          NoDepth(Program(env, c.base, code));
        }
      }
    }
  }

  lemma NoDepth(p: Program)
    requires Balanced(p)
    ensures IsDepth(p, 0)
  {
  }

  lemma {:induction false} ReachedInLast(env: Env, code: seq<Instr>, m: nat, o: nat, base: nat, o': nat, j: nat)
    requires Sane(env) && j <= |code| && PassAt(env, code, m, o, |code|).Ok? && PassAt(env, code, base, o', |code|).Ok?
    requires PassAt(env, code, m, o, |code|).value.localMax <= base && PassAt(env, code, base, o', j).Ok?
    requires PassAt(env, code, base, o', j).value.st.ops != [] && Balanced(Program(env, base, code))
    ensures var ops := PassAt(env, code, base, o', j).value.st.ops; IsDepth(Program(env, base, code), ops[|ops| - 1].depth)
  {
    hide Step, PassAt, LocalsLaidOut, OpsLaidOut, Balanced;
    LaterPass(env, code, m, o, base, o', j);
    var p, ops := Program(env, base, code), PassAt(env, code, base, o', j).value.st.ops;
    OpsAre(p, j);
    assert Top(Ops(p, j), 0).depth == ops[|ops| - 1].depth;
  }

  /** The frame of an accepted method ends at a multiple of 16 bytes, less than 16 bytes below the
      deepest of its operands. */
  lemma {:induction false} FrameIsTight(env: Env, code: seq<Instr>, c: Compiled) returns (deepest: nat)
    requires Sane(env) && CompileResult(env, code) == Ok(c)
    ensures Balanced(Program(env, c.base, code)) && IsDepth(Program(env, c.base, code), deepest)
    ensures deepest <= c.frameCapacity < deepest + 16 && c.frameCapacity % 16 == 0
    ensures forall i: nat, k: nat :: i <= |code| && k < |Ops(Program(env, c.base, code), i)| ==> Ops(Program(env, c.base, code), i)[k].depth <= deepest
  {
    hide CompileResult, PassAt, LargestLocal, IsDepth, Accepted, Balanced, OpsLaidOut, PadTo, Passes, Ops;
    var first, second, third := PassesOf(env, code, c);
    var p := Program(env, c.base, code);
    AcceptedIsBalanced(p);
    MaximumIsDepth(env, code, first, second, third, c);
    deepest := third.opMax;
    CapacityIs(env, code, first, second, third, c);
    forall i: nat, k: nat | i <= |code| && k < |Ops(p, i)| ensures Ops(p, i)[k].depth <= deepest {
      NoneDeeper(env, code, first, second, third, c, i);
      DepthWithin(Ops(p, i), c.base, deepest, k);
    }
  }

  lemma AcceptedIsBalanced(p: Program)
    requires Accepted(p)
    ensures Balanced(p)
  {
  }

  lemma CapacityIs(env: Env, code: seq<Instr>, first: PassState, second: PassState, third: PassState, c: Compiled)
    requires Sane(env) && Passes(env, code, first, second, third, c)
    ensures third.opMax <= c.frameCapacity < third.opMax + 16 && c.frameCapacity % 16 == 0
  {
    hide PassAt, LargestLocal;
  }

  lemma DepthWithin(ops: seq<Operand>, base: nat, limit: nat, k: nat)
    requires OpsLaidOut(ops, base, limit) && k < |ops|
    ensures ops[k].depth <= limit
  {
  }

  lemma {:induction false} NoneDeeper(env: Env, code: seq<Instr>, first: PassState, second: PassState, third: PassState, c: Compiled, i: nat)
    requires Sane(env) && Passes(env, code, first, second, third, c) && Balanced(Program(env, c.base, code)) && i <= |code|
    ensures OpsLaidOut(Ops(Program(env, c.base, code), i), c.base, third.opMax)
  {
    hide PassAt, Balanced, LocalsLaidOut, OpsLaidOut, PadTo, Ops;
    EarlierPass(env, code, c.base, second.opMax, i, |code|);
    LaterPass(env, code, LargestLocal(env, code), 0, c.base, second.opMax, i);
    OpsAre(Program(env, c.base, code), i);
    Roomier(Ops(Program(env, c.base, code), i), c.base, PassAt(env, code, c.base, second.opMax, i).value.opMax, third.opMax);
  }
}
