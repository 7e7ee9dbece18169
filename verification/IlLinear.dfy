/** The linear pass over a method: the stacks before every instruction, and how long the
    entries of the stacks live. */
module IlLinear {
  import opened Wrappers
  import opened IlStacks

  /** A method body; `base` is the depth of the local area, where the operand stack starts. */
  datatype Program = Program(env: Env, base: nat, code: seq<Instr>)

  function Start(env: Env): Stacks
  {
    Stacks([], seq(|env.params|, j requires 0 <= j < |env.params| => Local(env.params[j], true, 0, 0)))
  }

  // ---------------------------------------------------------------- jump targets

  /** SAFE_DECODE_LABEL. */
  function Label(p: Program, i: nat, delta: int): Option<nat>
  {
    if 0 <= i + delta < |p.code| then Some(i + delta) else None
  }

  /** The search of a return for the EndBarrier that belongs to its barrier. */
  function MatchingEnd(code: seq<Instr>, i: nat, barrierCount: nat): (r: Option<nat>)
    requires i <= |code|
    ensures r.Some? ==> i <= r.value < |code|
    decreases |code| - i
  {
    if i == |code| then None
    else
      var count: int := if code[i].EndBarrier? then barrierCount - 1 else if code[i].StartBarrier? then barrierCount + 1 else barrierCount;
      if count <= 0 then Some(i) else MatchingEnd(code, i + 1, count)
  }

  /** Does the instruction jump, and with these operands not return to the caller? */
  predicate Jumps(p: Program, s: nat, ops: seq<Operand>)
    requires s < |p.code|
  {
    match p.code[s]
    case Jump(_) => true
    case JumpIfTrue(_) => true
    case JumpIfFalse(_) => true
    case Return(n) => n != |ops|
    case _ => false
  }

  function Target(p: Program, s: nat): (r: Option<nat>)
    requires s < |p.code|
    ensures r.Some? ==> r.value < |p.code|
  {
    match p.code[s]
    case Jump(d) => Label(p, s, d)
    case JumpIfTrue(d) => Label(p, s, d)
    case JumpIfFalse(d) => Label(p, s, d)
    case Return(_) => MatchingEnd(p.code, s, 1)
    case _ => None
  }

  // ---------------------------------------------------------------- the pass

  /** One instruction of the linear pass; a jump must have a target. */
  function Step(p: Program, i: nat, st: Stacks): (r: Result<Stacks>)
    requires Sane(p.env) && i < |p.code|
  {
    var ops :- ExecOps(p.env, p.base, p.code[i], i, i > 0 && p.code[i - 1].Return?, st.ops, st.locals);
    var locals :- ExecLocals(p.env, p.code[i], i, st.ops, st.locals);
    if Jumps(p, i, st.ops) && Target(p, i).None? then Err(InvalidOperand)
    else Ok(Stacks(ops, locals))
  }

  /** The stacks before instruction `i`. */
  function StateAt(p: Program, i: nat): Result<Stacks>
    requires Sane(p.env) && i <= |p.code|
  {
    if i == 0 then Ok(Start(p.env))
    else
      var st :- StateAt(p, i - 1);
      Step(p, i - 1, st)
  }

  /** The pass gets through, and leaves no operands and no locals. */
  ghost predicate Balanced(p: Program)
  {
    && Sane(p.env) && StateAt(p, |p.code|).Ok?
    && StateAt(p, |p.code|).value.ops == [] && |StateAt(p, |p.code|).value.locals| == |p.env.params|
  }

  lemma {:induction false} EarlierOk(p: Program, i: nat, n: nat)
    requires Sane(p.env) && i <= n <= |p.code| && StateAt(p, n).Ok?
    ensures StateAt(p, i).Ok?
    decreases n
  {
    hide Step;
    if i < n {
      EarlierOk(p, i, n - 1);
    }
  }

  function Ops(p: Program, i: nat): seq<Operand>
    requires Balanced(p) && i <= |p.code|
  {
    EarlierOk(p, i, |p.code|);
    StateAt(p, i).value.ops
  }

  function Locals(p: Program, i: nat): seq<Local>
    requires Balanced(p) && i <= |p.code|
  {
    EarlierOk(p, i, |p.code|);
    StateAt(p, i).value.locals
  }

  lemma StepAt(p: Program, i: nat)
    requires Balanced(p) && i < |p.code|
    ensures ExecOps(p.env, p.base, p.code[i], i, i > 0 && p.code[i - 1].Return?, Ops(p, i), Locals(p, i)) == Ok(Ops(p, i + 1))
    ensures ExecLocals(p.env, p.code[i], i, Ops(p, i), Locals(p, i)) == Ok(Locals(p, i + 1))
    ensures Jumps(p, i, Ops(p, i)) ==> Target(p, i).Some?
  {
    hide ExecOps, ExecLocals, Jumps, Target;
    EarlierOk(p, i, |p.code|);
    EarlierOk(p, i + 1, |p.code|);
  }

  lemma EndsBalanced(p: Program)
    requires Balanced(p)
    ensures Ops(p, |p.code|) == [] && |Locals(p, |p.code|)| == |p.env.params|
  {
  }

  // ---------------------------------------------------------------- operands

  /** `b` is `a`, or `a` livened. */
  predicate SameEntry(a: Operand, b: Operand)
  {
    b == a || (a.kind.Shell? && b == a.(kind := Value))
  }

  /** `after` keeps some entries of `before` and adds at most one, born at `i`. */
  ghost predicate Stepped(before: seq<Operand>, after: seq<Operand>, i: nat)
  {
    forall k :: 0 <= k < |after| ==>
      (k < |before| && SameEntry(before[k], after[k])) || (k == |after| - 1 && k <= |before| && after[k].born == i)
  }

  /** One step keeps some entries and adds at most one, born now; it drops no barrier but for
      an EndBarrier, which drops just the one on top. */
  lemma {:induction false} OpsStep(p: Program, i: nat)
    requires Balanced(p) && i < |p.code|
    ensures Stepped(Ops(p, i), Ops(p, i + 1), i)
    ensures !p.code[i].EndBarrier? ==>
              forall k :: 0 <= k < |Ops(p, i)| && Ops(p, i)[k].kind.Barrier? ==>
                k < |Ops(p, i + 1)| && Ops(p, i + 1)[..k + 1] == Ops(p, i)[..k + 1]
    ensures p.code[i].EndBarrier? ==>
              && |Ops(p, i)| > 0 && Top(Ops(p, i), 0).kind.Barrier? && Ops(p, i + 1) == Liven(Drop(Ops(p, i), 1), Top(Ops(p, i), 0).count)
              && i > 0 && p.code[i - 1].Return?
  {
    hide Ops, Locals, PushOperand, ExecReturn, ExecExit, Balanced;
    StepAt(p, i);
  }

  /** Directly below the barrier that an EndBarrier removes are the shells it guards: the
      return before it has seen to that. */
  lemma {:induction false} GuardedShells(p: Program, i: nat)
    requires Balanced(p) && i < |p.code| && p.code[i].EndBarrier?
    ensures |Ops(p, i)| > 0
    ensures var b := |Ops(p, i)| - 1; var n := Ops(p, i)[b].count;
            1 <= n <= b && forall j :: b - n <= j < b ==> Ops(p, i)[j].kind.Shell?
  {
    hide Ops, Locals, PushOperand, ExecLocals, Balanced;
    OpsStep(p, i);
    StepAt(p, i - 1);
    var before, b := Ops(p, i - 1), |Ops(p, i)| - 1;
    var n := p.code[i - 1].count;
    assert n != |before|;
    assert ExecReturn(p.env, n, before) == Ok(Ops(p, i));
    assert Ops(p, i) == Drop(before, n) && Top(before, n) == Ops(p, i)[b];
    forall j | b - n <= j < b ensures Ops(p, i)[j].kind.Shell? {
      assert ReturnFits(p.env, before, n, b - 1 - j);
    }
  }

  /** A barrier, and everything below it, stays as it is until it is the top entry of an
      EndBarrier. */
  lemma {:induction false} BarrierSurvives(p: Program, i: nat, k: nat)
    requires Balanced(p) && i < |p.code| && k < |Ops(p, i)| && Ops(p, i)[k].kind.Barrier?
    ensures k < |Ops(p, i + 1)| ==> Ops(p, i + 1)[..k + 1] == Ops(p, i)[..k + 1]
    ensures |Ops(p, i + 1)| <= k ==> p.code[i].EndBarrier? && |Ops(p, i)| == k + 1 && |Ops(p, i + 1)| == k
  {
    hide Ops, Locals, Balanced;
    OpsStep(p, i);
    if p.code[i].EndBarrier? && k < |Ops(p, i)| - 1 {
      GuardedShells(p, i);
      var b := |Ops(p, i)| - 1;
      assert k < b - Ops(p, i)[b].count;
      forall j | 0 <= j <= k ensures Ops(p, i + 1)[j] == Ops(p, i)[j] {
      }
    }
  }

  /** Entries were born before `i`, later entries later. */
  ghost predicate InOrder(ops: seq<Operand>, i: nat)
  {
    && (forall k :: 0 <= k < |ops| ==> ops[k].born < i)
    && (forall j, k :: 0 <= j < k < |ops| ==> ops[j].born < ops[k].born)
  }

  lemma {:induction false} Births(p: Program, i: nat)
    requires Balanced(p) && i <= |p.code|
    ensures InOrder(Ops(p, i), i)
    decreases i
  {
    if i > 0 {
      Births(p, i - 1);
      OpsStep(p, i - 1);
      BirthsStep(Ops(p, i - 1), Ops(p, i), i - 1);
    }
  }

  lemma BirthsStep(before: seq<Operand>, after: seq<Operand>, i: nat)
    requires InOrder(before, i) && Stepped(before, after, i)
    ensures InOrder(after, i + 1)
  {
  }

  lemma OldEntry(before: seq<Operand>, after: seq<Operand>, i: nat, k: nat)
    requires Stepped(before, after, i) && k < |after| && after[k].born != i && after[k].kind.Barrier?
    ensures k < |before| && before[k] == after[k]
  {
  }

  /** Since its birth a barrier has been where it is, over the same entries. */
  lemma {:induction false} BarrierSince(p: Program, i: nat, k: nat, u: nat)
    requires Balanced(p) && i <= |p.code| && k < |Ops(p, i)| && Ops(p, i)[k].kind.Barrier?
    requires Ops(p, i)[k].born < u <= i
    ensures k < |Ops(p, u)| && Ops(p, u)[..k + 1] == Ops(p, i)[..k + 1]
    decreases i
  {
    if u < i {
      hide Ops, Balanced, Stepped;
      OpsStep(p, i - 1);
      OldEntry(Ops(p, i - 1), Ops(p, i), i - 1, k);
      BarrierSurvives(p, i - 1, k);
      BarrierSince(p, i - 1, k, u);
    }
  }

  /** A barrier lives until an EndBarrier that has it on top. */
  lemma {:induction false} BarrierEnds(p: Program, i: nat, k: nat) returns (e: nat)
    requires Balanced(p) && i <= |p.code| && k < |Ops(p, i)| && Ops(p, i)[k].kind.Barrier?
    ensures i <= e < |p.code| && p.code[e].EndBarrier? && |Ops(p, e)| == k + 1 && |Ops(p, e + 1)| == k
    ensures Ops(p, e) == Ops(p, i)[..k + 1]
    decreases |p.code| - i
  {
    hide Ops, Locals, Balanced;
    EndsBalanced(p);
    BarrierSurvives(p, i, k);
    if k < |Ops(p, i + 1)| {
      assert Ops(p, i + 1)[..k + 1][k] == Ops(p, i)[..k + 1][k];
      e := BarrierEnds(p, i + 1, k);
    } else {
      e := i;
      assert Ops(p, i)[..k + 1] == Ops(p, i);
    }
  }

  /** Every StartBarrier stands over as many shells as it guards, because its EndBarrier will:
      nothing is lost by a check of their kinds that never fails. */
  lemma {:induction false} StartBarrierShells(p: Program, i: nat)
    requires Balanced(p) && i < |p.code| && p.code[i].StartBarrier?
    ensures var n, h := p.code[i].count, |Ops(p, i)|;
            1 <= n <= h && forall j :: h - n <= j < h ==> Ops(p, i)[j].kind.Shell?
  {
    hide Ops, Locals, PushOperand, Balanced;
    var h := |Ops(p, i)|;
    StepAt(p, i);
    var e := BarrierEnds(p, i + 1, h);
    GuardedShells(p, e);
    assert Ops(p, i + 1)[..h + 1][h] == Ops(p, i + 1)[h];
    assert forall j :: 0 <= j < h ==> Ops(p, e)[j] == Ops(p, i + 1)[..h][j];
  }

  // ---------------------------------------------------------------- locals

  lemma {:induction false} LocalsStep(p: Program, i: nat)
    requires Balanced(p) && i < |p.code|
    ensures match p.code[i]
            case AllocLocal(_) => AddedLocal(p, i)
            case CreateLocal(_) => AddedLocal(p, i)
            case RemoveLocal => |p.env.params| < |Locals(p, i)| && Locals(p, i + 1) == Locals(p, i)[..|Locals(p, i)| - 1] && Ops(p, i) == []
            case _ => Locals(p, i + 1) == Locals(p, i)
  {
    hide Ops, Locals, PushLocal, ExecOps;
    StepAt(p, i);
  }

  /** `after` is `before`, or it with one local more, born at `i`, or without the last one. */
  ghost predicate LocalsStepped(before: seq<Local>, after: seq<Local>, i: nat)
  {
    || after == before
    || (|after| == |before| + 1 && after[..|before|] == before && after[|before|].born == i)
    || (before != [] && after == before[..|before| - 1])
  }

  lemma {:induction false} LocalsStepAt(p: Program, i: nat)
    requires Balanced(p) && i < |p.code|
    ensures LocalsStepped(Locals(p, i), Locals(p, i + 1), i)
  {
    hide Ops, Locals, Balanced;
    LocalsStep(p, i);
  }

  lemma OldLocal(before: seq<Local>, after: seq<Local>, i: nat, k: nat)
    requires LocalsStepped(before, after, i) && k < |after| && after[k].born != i
    ensures k < |before| && before[..k + 1] == after[..k + 1] && before[k] == after[k]
  {
    if |after| == |before| + 1 {
      assert after[..k + 1] == after[..|before|][..k + 1];
    } else if after != before {
      assert before[..|before| - 1][..k + 1] == before[..k + 1];
    }
  }

  ghost predicate AddedLocal(p: Program, i: nat)
    requires Balanced(p) && i < |p.code|
  {
    && |Locals(p, i + 1)| == |Locals(p, i)| + 1 && Locals(p, i + 1)[..|Locals(p, i)|] == Locals(p, i)
    && Locals(p, i + 1)[|Locals(p, i)|].born == i
  }

  /** The parameters are always there; other locals were born before now, later ones later. */
  lemma {:induction false} LocalBirths(p: Program, i: nat)
    requires Balanced(p) && i <= |p.code|
    ensures |p.env.params| <= |Locals(p, i)| && Locals(p, i)[..|p.env.params|] == Start(p.env).locals
    ensures forall k :: |p.env.params| <= k < |Locals(p, i)| ==> Locals(p, i)[k].born < i
    decreases i
  {
    hide Locals, Balanced;
    if i > 0 {
      LocalBirths(p, i - 1);
      LocalsStep(p, i - 1);
      assert |Locals(p, i)| >= |p.env.params|;
      assert Locals(p, i)[..|p.env.params|] == Locals(p, i - 1)[..|p.env.params|];
    } else {
      FirstLocals(p);
    }
  }

  lemma FirstLocals(p: Program)
    requires Balanced(p)
    ensures Locals(p, 0) == Start(p.env).locals && |Start(p.env).locals| == |p.env.params|
  {
  }

  /** Since its birth a local has been where it is, over the same locals. */
  lemma {:induction false} LocalSince(p: Program, i: nat, k: nat, u: nat)
    requires Balanced(p) && i <= |p.code| && |p.env.params| <= k < |Locals(p, i)|
    requires Locals(p, i)[k].born < u <= i
    ensures k < |Locals(p, u)| && Locals(p, u)[..k + 1] == Locals(p, i)[..k + 1]
    decreases i
  {
    if u < i {
      hide Ops, Locals, Balanced, LocalsStepped;
      LocalsStepAt(p, i - 1);
      OldLocal(Locals(p, i - 1), Locals(p, i), i - 1, k);
      LocalSince(p, i - 1, k, u);
    }
  }

  /** A local lives until a RemoveLocal that has it on top. */
  lemma {:induction false} LocalEnds(p: Program, i: nat, k: nat) returns (e: nat)
    requires Balanced(p) && i <= |p.code| && |p.env.params| <= k < |Locals(p, i)|
    ensures i <= e < |p.code| && p.code[e].RemoveLocal? && |Locals(p, e)| == k + 1
    ensures Locals(p, e) == Locals(p, i)[..k + 1]
    decreases |p.code| - i
  {
    hide Ops, Locals, Balanced;
    EndsBalanced(p);
    if i < |p.code| {
      LocalsStep(p, i);
      if k < |Locals(p, i + 1)| {
        assert Locals(p, i + 1)[..k + 1] == Locals(p, i)[..k + 1];
        e := LocalEnds(p, i + 1, k);
      } else {
        e := i;
        assert Locals(p, i)[..k + 1] == Locals(p, i);
      }
    }
  }
}
