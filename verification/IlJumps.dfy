/** Jumps: which ones the compiler accepts, and why a single linear pass with range checks
    is right for every path through the method. */
module IlJumps {
  import opened Wrappers
  import opened IlStacks
  import opened IlLinear

  // ---------------------------------------------------------------- what is accepted

  predicate Closes(p: Program, e: nat)
    requires e < |p.code|
  {
    p.code[e].RemoveLocal? || p.code[e].EndBarrier?
  }

  /** The instruction that created what the instruction at `e` removes. */
  function OpenedAt(p: Program, e: nat): nat
    requires Balanced(p) && e < |p.code| && Closes(p, e)
  {
    if p.code[e].RemoveLocal? then
      LocalsStep(p, e);
      Locals(p, e)[|Locals(p, e)| - 1].born
    else
      OpsStep(p, e);
      Top(Ops(p, e), 0).born
  }

  /** Whether removing at `e` restricts who may jump to `t`: the instructions while a local
      exists, and those from a StartBarrier on. */
  ghost predicate Confines(p: Program, e: nat, t: nat)
    requires Balanced(p)
  {
    e < |p.code| && Closes(p, e) && t < e && (if p.code[e].RemoveLocal? then OpenedAt(p, e) < t else OpenedAt(p, e) <= t)
  }

  /** `s` is within the jump range of `t`. */
  ghost predicate InRange(p: Program, s: nat, t: nat)
    requires Balanced(p)
  {
    forall e :: Confines(p, e, t) ==> OpenedAt(p, e) <= s <= e
  }

  /** StitchJump accepts the jump from `s` to `t`. */
  ghost predicate JumpAccepted(p: Program, s: nat, t: nat)
    requires Balanced(p)
  {
    t < |p.code| && EmptyOrBarrier(Ops(p, t)) && InRange(p, s, t)
  }

  /** The method is accepted: the pass gets through and so does every jump. */
  ghost predicate Accepted(p: Program)
  {
    Balanced(p) && forall s :: 0 <= s < |p.code| && Jumps(p, s, Ops(p, s)) ==>
      Target(p, s).Some? && JumpAccepted(p, s, Target(p, s).value)
  }

  // ---------------------------------------------------------------- jump soundness

  /** The locals an arriving jump must find: those before `t`, without the one `t` removes. */
  function LocalsFor(p: Program, t: nat): (r: seq<Local>)
    requires Balanced(p) && t < |p.code|
  {
    if p.code[t].RemoveLocal? then
      LocalsStep(p, t);
      Locals(p, t)[..|Locals(p, t)| - 1]
    else Locals(p, t)
  }

  /** A local that is there before `t`, and is not removed by `t`, is there for every jump to `t`. */
  lemma {:induction false} LocalReaches(p: Program, s: nat, t: nat, k: nat)
    requires Balanced(p) && s < |p.code| && t < |p.code| && InRange(p, s, t) && Jumps(p, s, Ops(p, s))
    requires |p.env.params| <= k < |Locals(p, t)| && (p.code[t].RemoveLocal? ==> k + 1 < |Locals(p, t)|)
    ensures k < |Locals(p, s)| && Locals(p, s)[..k + 1] == Locals(p, t)[..k + 1]
  {
    hide Ops, Locals, Balanced, Jumps;
    var e := LocalEnds(p, t, k);
    var c := Locals(p, t)[k].born;
    LocalBirths(p, t);
    assert Locals(p, e)[k] == Locals(p, t)[..k + 1][k];
    assert t < e;
    assert OpenedAt(p, e) == c;
    assert Confines(p, e, t);
    JumpIsNoLocal(p, s, c, e, k);
    LocalSince(p, e, k, s);
    LocalSince(p, e, k, t);
  }

  /** A jump is neither the instruction that creates a local nor the one that removes it. */
  lemma {:induction false} JumpIsNoLocal(p: Program, s: nat, c: nat, e: nat, k: nat)
    requires Balanced(p) && s < |p.code| && Jumps(p, s, Ops(p, s)) && e < |p.code| && p.code[e].RemoveLocal?
    requires |p.env.params| <= k < |Locals(p, e)| && Locals(p, e)[k].born == c && c <= s <= e
    ensures c < s < e
  {
    hide Ops, Locals, Balanced;
    LocalBirths(p, e);
    LocalSince(p, e, k, c + 1);
    assert Locals(p, c + 1)[..k + 1][k] == Locals(p, e)[..k + 1][k];
    if s == c {
      LocalsStep(p, c);
      LocalBirths(p, c);
      assert false;
    }
  }

  /** A barrier on top before `t` is there for every jump to `t`, over the same entries. */
  lemma {:induction false} BarrierReaches(p: Program, s: nat, t: nat)
    requires Balanced(p) && s < |p.code| && t < |p.code| && Jumps(p, s, Ops(p, s))
    requires Ops(p, t) != [] && Top(Ops(p, t), 0).kind.Barrier?
    requires if p.code[t].EndBarrier? then Top(Ops(p, t), 0).born < s < t else InRange(p, s, t)
    ensures Ops(p, t) <= Ops(p, s + 1)
  {
    hide Ops, Locals, Balanced, Jumps;
    var k := |Ops(p, t)| - 1;
    var e := BarrierEnds(p, t, k);
    var c := Ops(p, t)[k].born;
    assert Ops(p, t)[..k + 1] == Ops(p, t);
    assert Ops(p, e) == Ops(p, t);
    Births(p, t);
    if !p.code[t].EndBarrier? {
      assert t < e && OpenedAt(p, e) == c;
      assert Confines(p, e, t);
      JumpIsNoBarrier(p, s, c, e);
    }
    BarrierSince(p, e, k, s + 1);
  }

  lemma {:induction false} JumpIsNoBarrier(p: Program, s: nat, c: nat, e: nat)
    requires Balanced(p) && s < |p.code| && Jumps(p, s, Ops(p, s)) && e < |p.code| && p.code[e].EndBarrier?
    requires Ops(p, e) != [] && Top(Ops(p, e), 0).born == c && Top(Ops(p, e), 0).kind.Barrier? && c <= s <= e
    ensures c < s < e
  {
    hide Ops, Locals, Balanced;
    Births(p, e);
    var k := |Ops(p, e)| - 1;
    BarrierSince(p, e, k, c + 1);
    assert Ops(p, c + 1)[..k + 1][k] == Ops(p, e)[..k + 1][k];
    if s == c {
      Births(p, c);
      JumpPushesNothing(p, s);
      assert false;
    }
  }

  lemma {:induction false} JumpPushesNothing(p: Program, s: nat)
    requires Balanced(p) && s < |p.code| && Jumps(p, s, Ops(p, s))
    ensures Ops(p, s + 1) <= Ops(p, s) && Locals(p, s + 1) == Locals(p, s)
  {
    hide Ops, Locals, Balanced;
    StepAt(p, s);
  }

  /** Jump soundness: what is expected before the target is a prefix of what there is after
      the jump has popped its operands, for operands and for locals. */
  lemma {:induction false} JumpSound(p: Program, s: nat, t: nat)
    requires Balanced(p) && s < |p.code| && Jumps(p, s, Ops(p, s)) && JumpAccepted(p, s, t)
    requires !p.code[t].EndBarrier?
    ensures Ops(p, t) <= Ops(p, s + 1)
    ensures LocalsFor(p, t) <= Locals(p, s + 1)
  {
    hide Ops, Locals, Balanced, Jumps, InRange;
    if Ops(p, t) != [] {
      BarrierReaches(p, s, t);
    }
    JumpPushesNothing(p, s);
    LocalsReach(p, s, t);
  }

  lemma {:induction false} LocalsReach(p: Program, s: nat, t: nat)
    requires Balanced(p) && s < |p.code| && t < |p.code| && Jumps(p, s, Ops(p, s)) && InRange(p, s, t)
    ensures LocalsFor(p, t) <= Locals(p, s)
  {
    hide Ops, Locals, Balanced, Jumps, InRange;
    LocalBirths(p, s);
    LocalBirths(p, t);
    LocalsStep(p, t);
    var n := |LocalsFor(p, t)|;
    if n > |p.env.params| {
      LocalReaches(p, s, t, n - 1);
      assert LocalsFor(p, t) == Locals(p, t)[..n];
    } else {
      assert LocalsFor(p, t) == Locals(p, t)[..|p.env.params|] == Locals(p, s)[..|p.env.params|];
    }
  }

  /** A jump to an EndBarrier is accepted from further away; the operands expected there are a
      prefix of those at the jump exactly when the jump lies inside the barrier. */
  lemma {:induction false} JumpToEndBarrierIff(p: Program, s: nat, t: nat)
    requires Balanced(p) && s < |p.code| && t < |p.code| && Jumps(p, s, Ops(p, s)) && p.code[t].EndBarrier?
    ensures Ops(p, t) <= Ops(p, s + 1) <==> OpenedAt(p, t) < s < t
  {
    hide Ops, Locals, Balanced, Jumps;
    OpsStep(p, t);
    var c, k := OpenedAt(p, t), |Ops(p, t)| - 1;
    if c < s < t {
      BarrierReaches(p, s, t);
    }
    Births(p, t);
    if Ops(p, t) <= Ops(p, s + 1) {
      Births(p, s + 1);
      assert Ops(p, s + 1)[k] == Ops(p, t)[k];
      assert c < s + 1;
      if t < s + 1 {
        BarrierSince(p, s + 1, k, t + 1);
        assert false;
      }
      if s == c {
        JumpIsNoBarrier(p, s, c, t);
      }
    }
  }

  // ---------------------------------------------------------------- returns past a barrier

  /** How many barriers there are. */
  function Barriers(ops: seq<Operand>): nat
  {
    if ops == [] then 0 else Barriers(ops[..|ops| - 1]) + (if ops[|ops| - 1].kind.Barrier? then 1 else 0)
  }

  lemma {:induction false} BarriersOfTail(ops: seq<Operand>, m: nat)
    requires m <= |ops| && forall j :: m <= j < |ops| ==> !ops[j].kind.Barrier?
    ensures Barriers(ops) == Barriers(ops[..m])
    decreases |ops|
  {
    if m < |ops| {
      BarriersOfTail(ops[..|ops| - 1], m);
      assert ops[..|ops| - 1][..m] == ops[..m];
    } else {
      assert ops[..m] == ops;
    }
  }

  lemma {:induction false} BarriersSame(a: seq<Operand>, b: seq<Operand>)
    requires |a| == |b| && forall j :: 0 <= j < |a| ==> (a[j].kind.Barrier? <==> b[j].kind.Barrier?)
    ensures Barriers(a) == Barriers(b)
    decreases |a|
  {
    if a != [] {
      BarriersSame(a[..|a| - 1], b[..|b| - 1]);
    }
  }

  lemma {:induction false} BarriersGrow(ops: seq<Operand>, m: nat)
    requires m <= |ops|
    ensures Barriers(ops[..m]) <= Barriers(ops)
    decreases |ops|
  {
    if m < |ops| {
      BarriersGrow(ops[..|ops| - 1], m);
      assert ops[..|ops| - 1][..m] == ops[..m];
    } else {
      assert ops[..m] == ops;
    }
  }

  /** How many entries an instruction leaves where they are. */
  function Kept(instr: Instr, h: nat): int
  {
    match instr
    case CreateLocal(_) => h - 1
    case Load => h - 1
    case Move => h - 2
    case Pop => h - 1
    case EndBarrier => h - 1
    case Return(n) => h - n
    case JumpIfTrue(_) => h - 1
    case JumpIfFalse(_) => h - 1
    case _ => h
  }

  lemma {:induction false} KeptStep(p: Program, i: nat)
    requires Balanced(p) && i < |p.code| && !p.code[i].EndBarrier?
    ensures var a, b := Ops(p, i), Ops(p, i + 1); var m := Kept(p.code[i], |a|);
            && 0 <= m <= |a| && m <= |b| <= m + 1 && b[..m] == a[..m]
            && (forall j :: m <= j < |a| ==> !a[j].kind.Barrier?)
            && (|b| == m + 1 ==> (b[m].kind.Barrier? <==> p.code[i].StartBarrier?))
            && (p.code[i].StartBarrier? ==> |b| == m + 1)
  {
    hide Ops, Locals, PushOperand, ExecReturn, ExecExit, Balanced;
    StepAt(p, i);
  }

  /** The number of barriers on the stack follows the nesting of the code. */
  lemma {:induction false} BarriersStep(p: Program, i: nat)
    requires Balanced(p) && i < |p.code|
    ensures Barriers(Ops(p, i + 1)) == Barriers(Ops(p, i)) +
              (if p.code[i].StartBarrier? then 1 else if p.code[i].EndBarrier? then -1 else 0)
  {
    hide Ops, Locals, Balanced, Kept;
    var a, b := Ops(p, i), Ops(p, i + 1);
    if p.code[i].EndBarrier? {
      OpsStep(p, i);
      BarriersSame(Drop(a, 1), b);
    } else {
      KeptStep(p, i);
      var m := Kept(p.code[i], |a|);
      BarriersOfTail(a, m);
      if |b| == m + 1 {
        assert b[..|b| - 1] == a[..m];
      } else {
        assert b == a[..m];
      }
    }
  }

  /** While a barrier is there no local comes or goes. */
  lemma {:induction false} LocalsFrozen(p: Program, i: nat, k: nat)
    requires Balanced(p) && i < |p.code| && k < |Ops(p, i)| && Ops(p, i)[k].kind.Barrier?
    ensures Locals(p, i + 1) == Locals(p, i)
  {
    hide Ops, Locals, PushLocal, PushOperand, Balanced;
    StepAt(p, i);
  }

  /** From `u` on, counting starts and ends from the barriers above entry `k` finds the
      EndBarrier of entry `k`; locals stay as they are. */
  lemma {:induction false} MatchFrom(p: Program, u: nat, k: nat, e: nat)
    requires Balanced(p) && u <= e < |p.code| && k < |Ops(p, u)| && Ops(p, u)[k].kind.Barrier?
    requires p.code[e].EndBarrier? && |Ops(p, e)| == k + 1 && Ops(p, e) == Ops(p, u)[..k + 1]
    requires forall v :: u <= v <= e ==> k < |Ops(p, v)| && Ops(p, v)[..k + 1] == Ops(p, e)
    ensures var count: int := Barriers(Ops(p, u)) - Barriers(Ops(p, u)[..k]);
            count >= 1 && MatchingEnd(p.code, u, count) == Some(e)
    ensures Locals(p, u) == Locals(p, e)
    decreases e - u
  {
    hide Ops, Locals, Balanced;
    var ops := Ops(p, u);
    BarriersGrow(ops, k + 1);
    assert ops[..k + 1][..k] == ops[..k] && ops[..k + 1][k] == ops[k];
    BarriersStep(p, u);
    if u == e {
      OpsStep(p, e);
      assert ops[..k + 1] == ops;
    } else {
      LocalsFrozen(p, u, k);
      assert Ops(p, u + 1)[..k + 1][..k] == Ops(p, u + 1)[..k] == ops[..k];
      assert Ops(p, u + 1)[..k + 1][k] == Ops(p, u + 1)[k];
      MatchFrom(p, u + 1, k, e);
    }
  }

  /** A return past a barrier finds the EndBarrier of that very barrier, where exactly its
      remaining operands, and its locals, are expected. */
  lemma {:induction false} ReturnReachesBarrier(p: Program, s: nat)
    requires Balanced(p) && s < |p.code| && p.code[s].Return? && Jumps(p, s, Ops(p, s))
    ensures Target(p, s).Some?
    ensures var t := Target(p, s).value;
            s < t && p.code[t].EndBarrier? && Ops(p, t) == Ops(p, s + 1) && Locals(p, t) == Locals(p, s + 1)
  {
    hide Ops, Locals, Balanced;
    var n := p.code[s].count;
    ReturnLeavesBarrier(p, s);
    var k := |Ops(p, s + 1)| - 1;
    var e := BarrierEnds(p, s + 1, k);
    Births(p, s + 1);
    var after := Ops(p, s + 1);
    assert after[..k + 1] == after && Ops(p, e) == after;
    forall v | s + 1 <= v <= e ensures k < |Ops(p, v)| && Ops(p, v)[..k + 1] == Ops(p, e) {
      BarrierSince(p, e, k, v);
      assert Ops(p, e)[..k + 1] == Ops(p, e);
    }
    MatchFrom(p, s + 1, k, e);
    assert after[..|after| - 1] == after[..k];
  }

  lemma {:induction false} ReturnLeavesBarrier(p: Program, s: nat)
    requires Balanced(p) && s < |p.code| && p.code[s].Return? && Jumps(p, s, Ops(p, s))
    ensures Ops(p, s + 1) != [] && Top(Ops(p, s + 1), 0).kind.Barrier?
  {
    hide Ops, Locals, Balanced;
    StepAt(p, s);
    assert ExecReturn(p.env, p.code[s].count, Ops(p, s)) == Ok(Ops(p, s + 1));
  }
}
