/** The jump ranges: what the passes write down for every instruction, and what it means. */
module IlRanges {
  import opened IlStacks
  import opened IlLinear
  import opened IlJumps

  /** What is known of an instruction as a jump target. */
  datatype Meta = Meta(minJumpRange: nat, maxJumpRange: nat, validJumpTarget: bool)
  {
    predicate Admits(s: nat)
    {
      minJumpRange <= s <= maxJumpRange && validJumpTarget
    }
  }

  function Narrow(m: Meta, lo: nat, hi: nat): Meta
  {
    m.(minJumpRange := if m.minJumpRange < lo then lo else m.minJumpRange,
       maxJumpRange := if m.maxJumpRange > hi then hi else m.maxJumpRange)
  }

  /** Narrows the ranges of the instructions from `first` up to, but without, `hi`. */
  function NarrowFrom(metas: seq<Meta>, first: nat, lo: nat, hi: nat): (r: seq<Meta>)
    ensures |r| == |metas|
    ensures forall t :: 0 <= t < |metas| ==> r[t] == if first <= t < hi then Narrow(metas[t], lo, hi) else metas[t]
  {
    seq(|metas|, t requires 0 <= t < |metas| => if first <= t < hi then Narrow(metas[t], lo, hi) else metas[t])
  }

  /** What instruction `i` does to the ranges of the instructions before it. */
  function Confine(code: seq<Instr>, i: nat, st: Stacks, metas: seq<Meta>): (r: seq<Meta>)
    requires i < |code|
    ensures |r| == |metas|
  {
    if code[i].RemoveLocal? && st.locals != [] then
      var created := st.locals[|st.locals| - 1].born;
      NarrowFrom(metas, created + 1, created, i)
    else if code[i].EndBarrier? && st.ops != [] then
      NarrowFrom(metas, Top(st.ops, 0).born, Top(st.ops, 0).born, i)
    else metas
  }

  function Reset(p: Program, i: nat, st: Stacks): Meta
    requires i < |p.code|
  {
    Meta(0, |p.code| - 1, EmptyOrBarrier(st.ops))
  }

  /** What is written down before instruction `i`. */
  function MetasAt(p: Program, i: nat): (r: seq<Meta>)
    requires Sane(p.env) && i <= |p.code| && StateAt(p, i).Ok?
    ensures |r| == |p.code|
  {
    if i == 0 then seq(|p.code|, _ => Meta(0, 0, false))
    else
      var before := MetasAt(p, i - 1);
      var st := StateAt(p, i - 1).value;
      Confine(p.code, i - 1, st, before[i - 1 := Reset(p, i - 1, st)])
  }

  // ---------------------------------------------------------------- what they mean

  /** The removals before `i` let `s` jump to `t`. */
  ghost predicate HeldTo(p: Program, s: nat, t: nat, i: nat)
    requires Balanced(p)
  {
    forall e: nat :: e < i && Confines(p, e, t) ==> OpenedAt(p, e) <= s <= e
  }

  ghost predicate HeldBy(p: Program, s: nat, t: nat, e: nat)
    requires Balanced(p)
  {
    Confines(p, e, t) ==> OpenedAt(p, e) <= s <= e
  }

  lemma HeldToNext(p: Program, s: nat, t: nat, i: nat)
    requires Balanced(p)
    ensures HeldTo(p, s, t, i + 1) <==> HeldTo(p, s, t, i) && HeldBy(p, s, t, i)
  {
    hide OpenedAt, Balanced;
  }

  lemma HeldToStart(p: Program, s: nat, t: nat)
    requires Balanced(p)
    ensures HeldTo(p, s, t, t + 1)
  {
    hide OpenedAt, Balanced;
  }

  lemma HeldToAll(p: Program, s: nat, t: nat)
    requires Balanced(p)
    ensures HeldTo(p, s, t, |p.code|) <==> InRange(p, s, t)
  {
    hide OpenedAt, Balanced;
  }

  lemma ConfineMeans(p: Program, i: nat, metas: seq<Meta>, t: nat, s: nat)
    requires Balanced(p) && i < |p.code| && |metas| == |p.code| && t <= i && s < |p.code|
    ensures var after := Confine(p.code, i, Stacks(Ops(p, i), Locals(p, i)), metas);
            after[t].Admits(s) <==> (metas[t].Admits(s) && HeldBy(p, s, t, i))
  {
    hide Ops, Locals, Balanced;
    if p.code[i].RemoveLocal? {
      LocalsStep(p, i);
    } else if p.code[i].EndBarrier? {
      OpsStep(p, i);
    }
  }

  lemma StatesAt(p: Program, i: nat)
    requires Balanced(p) && i <= |p.code|
    ensures StateAt(p, i) == Ok(Stacks(Ops(p, i), Locals(p, i)))
  {
    hide Step;
    EarlierOk(p, i, |p.code|);
  }

  /** Before `i`, an instruction admits the jumps that the removals before `i` let through. */
  lemma {:induction false} MetasReflect(p: Program, i: nat, s: nat, t: nat)
    requires Balanced(p) && t < i <= |p.code| && StateAt(p, i).Ok? && s < |p.code|
    ensures MetasAt(p, i)[t].Admits(s) <==> (EmptyOrBarrier(Ops(p, t)) && HeldTo(p, s, t, i))
    decreases i
  {
    hide Ops, Locals, Step, Confine, HeldTo, HeldBy, EmptyOrBarrier;
    StatesAt(p, i - 1);
    var before := MetasAt(p, i - 1);
    var reset := before[i - 1 := Reset(p, i - 1, StateAt(p, i - 1).value)];
    ConfineMeans(p, i - 1, reset, t, s);
    HeldToNext(p, s, t, i - 1);
    if t < i - 1 {
      MetasReflect(p, i - 1, s, t);
    } else {
      HeldToStart(p, s, t);
    }
  }

  /** What is written down after the pass admits exactly the jumps in range. */
  lemma {:induction false} MetasAdmitIff(p: Program, s: nat, t: nat)
    requires Balanced(p) && s < |p.code| && t < |p.code|
    ensures MetasAt(p, |p.code|)[t].Admits(s) <==> JumpAccepted(p, s, t)
  {
    hide Ops, Locals, HeldTo, InRange, MetasAt;
    MetasReflect(p, |p.code|, s, t);
    HeldToAll(p, s, t);
  }

  // ---------------------------------------------------------------- how they are kept up to date

  lemma ConfineAgrees(code: seq<Instr>, i: nat, st: Stacks, a: seq<Meta>, b: seq<Meta>, k: nat)
    requires i < |code| && |a| == |b| && k <= |a| && a[..k] == b[..k]
    ensures Confine(code, i, st, a)[..k] == Confine(code, i, st, b)[..k]
  {
    assert forall t :: 0 <= t < k ==> a[t] == a[..k][t] && b[t] == b[..k][t];
  }

  lemma ConfineTwice(code: seq<Instr>, i: nat, st: Stacks, metas: seq<Meta>)
    requires i < |code|
    ensures Confine(code, i, st, Confine(code, i, st, metas)) == Confine(code, i, st, metas)
  {
  }

  /** Ranges that `i` no longer changes stay so when others narrow them. */
  lemma ConfineKeeps(code: seq<Instr>, i: nat, sti: Stacks, k: nat, stk: Stacks, metas: seq<Meta>)
    requires i < |code| && k < |code| && Confine(code, i, sti, metas) == metas
    ensures Confine(code, i, sti, Confine(code, k, stk, metas)) == Confine(code, k, stk, metas)
  {
    hide NarrowFrom;
    var after := Confine(code, k, stk, metas);
    forall t | 0 <= t < |metas| ensures Confine(code, i, sti, after)[t] == after[t] {
      assert Confine(code, i, sti, metas)[t] == metas[t];
    }
  }

  lemma ResetKeeps(code: seq<Instr>, i: nat, st: Stacks, metas: seq<Meta>, k: nat, m: Meta)
    requires i < |code| && i <= k < |metas| && Confine(code, i, st, metas) == metas
    ensures Confine(code, i, st, metas[k := m]) == metas[k := m]
  {
    hide NarrowFrom;
    var reset := metas[k := m];
    forall t | 0 <= t < |metas| ensures Confine(code, i, st, reset)[t] == reset[t] {
      assert Confine(code, i, st, metas)[t] == metas[t];
    }
  }

  /** Executing an instruction once more does not change what is written down later. */
  lemma {:induction false} Settles(p: Program, i: nat, j: nat)
    requires Balanced(p) && i < j <= |p.code| && StateAt(p, j).Ok?
    ensures Confine(p.code, i, Stacks(Ops(p, i), Locals(p, i)), MetasAt(p, j)) == MetasAt(p, j)
    decreases j
  {
    hide Ops, Locals, Step, Confine;
    StatesAt(p, j - 1);
    var before := MetasAt(p, j - 1);
    var st := Stacks(Ops(p, j - 1), Locals(p, j - 1));
    var reset := before[j - 1 := Reset(p, j - 1, st)];
    if i == j - 1 {
      ConfineTwice(p.code, i, st, reset);
    } else {
      Settles(p, i, j - 1);
      ResetKeeps(p.code, i, Stacks(Ops(p, i), Locals(p, i)), before, j - 1, Reset(p, j - 1, st));
      ConfineKeeps(p.code, i, Stacks(Ops(p, i), Locals(p, i)), j - 1, st, reset);
    }
  }

  lemma ConfineKeepsTargets(code: seq<Instr>, i: nat, st: Stacks, metas: seq<Meta>, t: nat)
    requires i < |code| && t < |metas|
    ensures Confine(code, i, st, metas)[t].validJumpTarget == metas[t].validJumpTarget
  {
  }

  lemma {:induction false} TargetsAt(p: Program, t: nat, j: nat)
    requires Balanced(p) && t < j <= |p.code| && StateAt(p, j).Ok?
    ensures MetasAt(p, j)[t].validJumpTarget == EmptyOrBarrier(Ops(p, t))
    decreases j
  {
    hide Ops, Locals, Step, Confine;
    StatesAt(p, j - 1);
    var before := MetasAt(p, j - 1);
    var st := Stacks(Ops(p, j - 1), Locals(p, j - 1));
    ConfineKeepsTargets(p.code, j - 1, st, before[j - 1 := Reset(p, j - 1, st)], t);
    if t < j - 1 {
      TargetsAt(p, t, j - 1);
    }
  }
}
