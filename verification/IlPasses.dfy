/** What holds in the middle of a pass, before instruction `i`: first while the jump ranges are
    written down, then while the jumps are checked against them. */
module IlPasses {
  import opened IlStacks
  import opened IlLinear
  import opened IlJumps
  import opened IlRanges
  import opened IlFrame

  lemma {:induction false} PassNext(env: Env, code: seq<Instr>, m: nat, o: nat, i: nat)
    requires Sane(env) && i < |code| && PassAt(env, code, m, o, i).Ok?
    ensures PassAt(env, code, m, o, i + 1) == PassStep(env, code, i, PassAt(env, code, m, o, i).value)
    ensures PassAt(env, code, m, o, i + 1).Err? ==> PassAt(env, code, m, o, |code|).Err?
    ensures |PassAt(env, code, m, o, i).value.st.locals| >= |env.params|
  {
    hide PassStep;
    PassLocals(env, code, m, o, i);
    if PassAt(env, code, m, o, |code|).Ok? {
      EarlierPass(env, code, m, o, i + 1, |code|);
    }
  }

  // ---------------------------------------------------------------- writing down

  /** If no local lies deeper than `m`, the pass is that of the program with a local area of
      `m` bytes, and what was written down is what that program says. */
  ghost predicate NotedUpTo(env: Env, code: seq<Instr>, m: nat, i: nat, ps: PassState, metas: seq<Meta>)
    requires Sane(env) && i <= |code|
  {
    && |metas| == |code| && m <= ps.localMax
    && (ps.localMax == m ==>
          && StateAt(Program(env, m, code), i) == Ok(ps.st)
          && metas[..i] == MetasAt(Program(env, m, code), i)[..i])
  }

  lemma NoteNext(env: Env, code: seq<Instr>, m: nat, i: nat, before: PassState, metas: seq<Meta>)
    requires Sane(env) && i < |code| && NotedUpTo(env, code, m, i, before, metas) && PassStep(env, code, i, before).Ok?
    ensures var after := PassStep(env, code, i, before).value;
            var reset := metas[i := Reset(Program(env, 0, code), i, before.st)];
            NotedUpTo(env, code, m, i + 1, after, Confine(code, i, before.st, reset))
  {
    hide Step, Confine;
    var p := Program(env, m, code);
    if PassStep(env, code, i, before).value.localMax == m {
      var a := metas[i := Reset(p, i, before.st)];
      var b := MetasAt(p, i)[i := Reset(p, i, before.st)];
      assert a[..i + 1] == metas[..i] + [a[i]] && b[..i + 1] == MetasAt(p, i)[..i] + [b[i]];
      ConfineAgrees(code, i, before.st, a, b, i + 1);
    }
  }

  // ---------------------------------------------------------------- checking jumps

  /** Everything is written down, and no local lies deeper than `m`. */
  ghost predicate Stitchable(env: Env, code: seq<Instr>, m: nat, metas: seq<Meta>)
  {
    var p := Program(env, m, code);
    && Balanced(p) && metas == MetasAt(p, |code|)
    && forall i: nat :: i <= |code| ==> LocalDepth(Locals(p, i)) <= m
  }

  ghost predicate AcceptedUpTo(p: Program, i: nat)
    requires Balanced(p) && i <= |p.code|
  {
    forall s :: 0 <= s < i && Jumps(p, s, Ops(p, s)) ==> Target(p, s).Some? && JumpAccepted(p, s, Target(p, s).value)
  }

  ghost predicate StitchedUpTo(env: Env, code: seq<Instr>, m: nat, i: nat, ps: PassState, metas: seq<Meta>)
    requires i <= |code|
  {
    var p := Program(env, m, code);
    && Stitchable(env, code, m, metas) && ps.localMax == m && ps.st == Stacks(Ops(p, i), Locals(p, i))
    && AcceptedUpTo(p, i)
  }

  /** If the instruction jumps, it has a target, and the target admits the jump. */
  ghost predicate Clear(env: Env, code: seq<Instr>, i: nat, ops: seq<Operand>, metas: seq<Meta>)
    requires i < |code| && |metas| == |code|
  {
    var p := Program(env, 0, code);
    Jumps(p, i, ops) ==> Target(p, i).Some? && metas[Target(p, i).value].Admits(i)
  }

  function Revalidated(metas: seq<Meta>, i: nat, ops: seq<Operand>): (r: seq<Meta>)
    requires i < |metas|
    ensures |r| == |metas|
  {
    metas[i := metas[i].(validJumpTarget := EmptyOrBarrier(ops))]
  }

  /** Going over the instructions once more changes nothing that is written down. */
  lemma {:induction false} NothingNew(env: Env, code: seq<Instr>, m: nat, i: nat, before: PassState, metas: seq<Meta>)
    requires i < |code| && StitchedUpTo(env, code, m, i, before, metas)
    ensures |metas| == |code|
    ensures Revalidated(metas, i, before.st.ops) == metas && Confine(code, i, before.st, metas) == metas
  {
    hide Ops, Locals, Confine, AcceptedUpTo, Step;
    var p := Program(env, m, code);
    TargetsAt(p, i, |code|);
    Settles(p, i, |code|);
  }

  /** What is written down decides whether the current instruction is accepted. */
  lemma {:induction false} ClearIff(env: Env, code: seq<Instr>, m: nat, i: nat, before: PassState, metas: seq<Meta>)
    requires i < |code| && StitchedUpTo(env, code, m, i, before, metas)
    ensures |metas| == |code|
    ensures Clear(env, code, i, before.st.ops, metas) <==> AcceptedUpTo(Program(env, m, code), i + 1)
  {
    hide Ops, Locals, MetasAt, JumpAccepted, MatchingEnd;
    var p := Program(env, m, code);
    assert Target(p, i) == Target(Program(env, 0, code), i);
    assert Jumps(p, i, Ops(p, i)) <==> Jumps(Program(env, 0, code), i, Ops(p, i));
    if Target(p, i).Some? {
      MetasAdmitIff(p, i, Target(p, i).value);
    }
  }

  lemma {:induction false} StitchNext(env: Env, code: seq<Instr>, m: nat, i: nat, before: PassState, metas: seq<Meta>)
    requires Sane(env) && i < |code| && StitchedUpTo(env, code, m, i, before, metas) && |metas| == |code|
    requires Clear(env, code, i, before.st.ops, metas) && PassStep(env, code, i, before).Ok?
    ensures StitchedUpTo(env, code, m, i + 1, PassStep(env, code, i, before).value, metas)
  {
    hide Ops, Locals, MetasAt, AcceptedUpTo, ExecOps, ExecLocals, Clear;
    var p := Program(env, m, code);
    ClearIff(env, code, m, i, before, metas);
    StepAt(p, i);
  }

  lemma AcceptedUpToAll(p: Program, i: nat)
    requires Balanced(p) && i <= |p.code|
    ensures !AcceptedUpTo(p, i) ==> !Accepted(p)
    ensures AcceptedUpTo(p, |p.code|) ==> Accepted(p)
  {
    hide Ops, Balanced, JumpAccepted, Target, Jumps;
  }

  lemma StitchedIsBalanced(env: Env, code: seq<Instr>, m: nat, i: nat, ps: PassState, metas: seq<Meta>)
    requires i <= |code| && StitchedUpTo(env, code, m, i, ps, metas)
    ensures Balanced(Program(env, m, code))
  {
  }

  // ---------------------------------------------------------------- begin and end

  lemma {:induction false} PassStarts(env: Env, code: seq<Instr>, m: nat, o: nat, metas: seq<Meta>)
    requires Sane(env) && |metas| == |code|
    ensures PassAt(env, code, m, o, 0) == Ok(PassState(Start(env), m, o))
    ensures NotedUpTo(env, code, m, 0, PassState(Start(env), m, o), metas)
    ensures Stitchable(env, code, m, metas) ==> StitchedUpTo(env, code, m, 0, PassState(Start(env), m, o), metas)
  {
    hide Step;
  }

  lemma {:induction false} PassEnds(env: Env, code: seq<Instr>, m: nat, metas: seq<Meta>, ps: PassState, stitching: bool)
    requires Sane(env) && ps.st.ops == [] && |ps.st.locals| == |env.params|
    requires if stitching then StitchedUpTo(env, code, m, |code|, ps, metas) else NotedUpTo(env, code, m, |code|, ps, metas)
    ensures stitching ==> ps.localMax == m && Accepted(Program(env, m, code))
    ensures ps.localMax == m ==> Balanced(Program(env, m, code)) && metas == MetasAt(Program(env, m, code), |code|)
  {
    var p := Program(env, m, code);
    if stitching {
      AcceptedUpToAll(p, |code|);
    } else if ps.localMax == m {
      assert metas[..|code|] == metas && MetasAt(p, |code|)[..|code|] == MetasAt(p, |code|);
    }
  }
}
