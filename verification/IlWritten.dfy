/** Definite assignment: which operands have been written when the machine gets to use them.
    A shell is written by a return, and becomes a value at the EndBarrier; a value must have
    been written. */
module IlWritten {
  import opened IlStacks
  import opened IlLinear
  import opened IlJumps
  import opened IlFrame
  import opened IlRuns

  /** The machine, and for every operand whether it has been written. */
  datatype Tracked = Tracked(m: Machine, written: seq<bool>)

  /** Whether what an instruction pushes is written at once; only an empty shell is not. */
  predicate Writes(instr: Instr)
  {
    !instr.PushEmpty?
  }

  /** The marks of the `height` operands that an instruction leaves. A return past a barrier
      writes the shells below it; other instructions keep some operands and may push one. */
  function MarksAfter(instr: Instr, written: seq<bool>, height: nat): (r: seq<bool>)
    ensures |r| == height
  {
    if instr.Return? then
      seq(height, k requires 0 <= k < height => height - 1 - instr.count <= k < height - 1 || (k < |written| && written[k]))
    else
      seq(height, k requires 0 <= k < height =>
        if instr.Load? && k == height - 1 then true else if k < |written| then written[k] else Writes(instr))
  }

  /** One step: the stacks as before, and the marks with them; a jump drops the topmost. */
  ghost predicate NextTracked(p: Program, a: Tracked, b: Tracked)
    requires Balanced(p)
  {
    && a.m.Running? && Next(p, a.m.pc, a.m.st, b.m)
    && (b.m.Running? ==>
          && |b.m.st.ops| <= |Step(p, a.m.pc, a.m.st).value.ops|
          && b.written == MarksAfter(p.code[a.m.pc], a.written, |Step(p, a.m.pc, a.m.st).value.ops|)[..|b.m.st.ops|])
  }

  ghost predicate IsTracked(p: Program, run: seq<Tracked>)
    requires Balanced(p)
  {
    && run != [] && run[0] == Tracked(Running(0, Start(p.env)), [])
    && forall j :: 0 <= j < |run| - 1 ==> NextTracked(p, run[j], run[j + 1])
  }

  /** All values have been written. */
  ghost predicate ValuesWritten(t: Tracked)
  {
    t.m.Running? ==> |t.written| == |t.m.st.ops| && forall k :: 0 <= k < |t.written| && t.m.st.ops[k].kind.Value? ==> t.written[k]
  }

  /** The machine is about to take a written jump, as opposed to a return, to an EndBarrier. */
  ghost predicate AtBarrierJump(p: Program, m: Machine)
    requires Balanced(p)
  {
    && m.Running? && m.pc < |p.code| && Jumps(p, m.pc, m.st.ops) && !p.code[m.pc].Return?
    && Target(p, m.pc).Some? && p.code[Target(p, m.pc).value].EndBarrier?
  }

  // ---------------------------------------------------------------- the invariant

  /** Values are written; shells are not, except for the `n` right below the top entry. */
  ghost predicate Marked(ops: seq<Operand>, written: seq<bool>, n: int)
  {
    && |written| == |ops|
    && forall k :: 0 <= k < |ops| ==>
         (ops[k].kind.Value? ==> written[k])
         && (ops[k].kind.Shell? ==> (written[k] <==> |ops| - 1 - n <= k < |ops| - 1))
  }

  /** How many shells below the top entry a return has written on its way to `pc`: those that
      the EndBarrier there makes values. */
  ghost function Ready(p: Program, pc: nat): int
    requires Balanced(p) && pc <= |p.code|
  {
    if pc < |p.code| && p.code[pc].EndBarrier? && Ops(p, pc) != [] then Top(Ops(p, pc), 0).count else 0
  }

  ghost predicate InMarks(p: Program, t: Tracked)
    requires Balanced(p)
  {
    && InShape(p, t.m)
    && (t.m.Running? ==> Marked(Ops(p, t.m.pc), t.written, Ready(p, t.m.pc)))
  }

  lemma MarkedPrefix(ops: seq<Operand>, written: seq<bool>, k: nat)
    requires Marked(ops, written, 0) && k <= |ops|
    ensures Marked(ops[..k], written[..k], 0)
  {
  }

  lemma MarkedPush(ops: seq<Operand>, written: seq<bool>, after: seq<Operand>, mark: bool)
    requires Marked(ops, written, 0) && |after| == |ops| + 1 && after[..|ops|] == ops
    requires (after[|ops|].kind.Value? ==> mark) && (after[|ops|].kind.Shell? ==> !mark)
    ensures Marked(after, written + [mark], 0)
  {
    assert forall k :: 0 <= k < |ops| ==> after[k] == ops[k];
  }

  lemma MarksKept(instr: Instr, written: seq<bool>, n: nat)
    requires n <= |written| && !instr.Return?
    ensures !instr.Load? ==> MarksAfter(instr, written, n) == written[..n]
    ensures instr.Load? || n == |written| ==>
              MarksAfter(instr, written, n + 1) == written[..n] + [if instr.Load? then true else Writes(instr)]
  {
  }

  /** The operands that an instruction keeps, and the one that it pushes. */
  lemma {:induction false} OpsAfter(p: Program, i: nat)
    requires Balanced(p) && i < |p.code| && !p.code[i].Return? && !p.code[i].EndBarrier?
    ensures var a, b := Ops(p, i), Ops(p, i + 1); var load := p.code[i].Load?;
            if Pushes(p.code[i]) then
              && (load ==> a != [])
              && var before := if load then Drop(a, 1) else a;
                 && |b| == |before| + 1 && b[..|before|] == before
                 && (b[|before|].kind.Value? ==> Writes(p.code[i])) && (b[|before|].kind.Shell? ==> p.code[i].PushEmpty?)
            else b <= a
  {
    hide Ops, Locals, PushOperand, Balanced, Jumps, Target, ExecLocals;
    StepAt(p, i);
  }

  /** An instruction that is neither a return nor an EndBarrier. */
  lemma {:induction false} MarksStep(p: Program, i: nat, written: seq<bool>)
    requires Balanced(p) && i < |p.code| && !p.code[i].Return? && !p.code[i].EndBarrier?
    requires Marked(Ops(p, i), written, 0)
    ensures Marked(Ops(p, i + 1), MarksAfter(p.code[i], written, |Ops(p, i + 1)|), 0)
  {
    hide Ops, Locals, MarksAfter, Balanced;
    OpsAfter(p, i);
    var a, b := Ops(p, i), Ops(p, i + 1);
    var n := if Pushes(p.code[i]) then |b| - 1 else |b|;
    MarkedPrefix(a, written, n);
    MarksKept(p.code[i], written, n);
    if Pushes(p.code[i]) {
      MarkedPush(a[..n], written[..n], b, if p.code[i].Load? then true else Writes(p.code[i]));
    }
  }

  lemma {:induction false} MarksEnd(p: Program, i: nat, written: seq<bool>)
    requires Balanced(p) && i < |p.code| && p.code[i].EndBarrier? && Marked(Ops(p, i), written, Ready(p, i))
    ensures Marked(Ops(p, i + 1), MarksAfter(p.code[i], written, |Ops(p, i + 1)|), 0)
  {
    hide Ops, Locals, Balanced;
    OpsStep(p, i);
    GuardedShells(p, i);
  }

  lemma {:induction false} MarksReturn(p: Program, i: nat, written: seq<bool>)
    requires Balanced(p) && i < |p.code| && p.code[i].Return? && Jumps(p, i, Ops(p, i)) && Marked(Ops(p, i), written, 0)
    ensures Ops(p, i + 1) != [] && Top(Ops(p, i + 1), 0).count == p.code[i].count
    ensures Marked(Ops(p, i + 1), MarksAfter(p.code[i], written, |Ops(p, i + 1)|), p.code[i].count)
  {
    hide Ops, Locals, Balanced, ExecExit, ExecReturn, Target, ExecLocals;
    StepAt(p, i);
    assert ExecReturn(p.env, p.code[i].count, Ops(p, i)) == Ok(Ops(p, i + 1));
    var n := p.code[i].count;
    assert Top(Ops(p, i), n) == Top(Ops(p, i + 1), 0);
  }

  // ---------------------------------------------------------------- one step

  /** Landing somewhere else than at an EndBarrier. */
  lemma {:induction false} LandsMarked(p: Program, s: nat, written: seq<bool>, m: Machine)
    requires Balanced(p) && Accepted(p) && s < |p.code| && Jumps(p, s, Ops(p, s)) && Target(p, s).Some?
    requires !p.code[s].Return? && !p.code[Target(p, s).value].EndBarrier?
    requires Marked(Ops(p, s + 1), written, 0)
    requires Lands(p, Target(p, s).value, Stacks(Ops(p, s + 1), Locals(p, s + 1)), m)
    ensures InMarks(p, Tracked(m, written[..|m.st.ops|]))
  {
    hide Ops, Locals, Balanced, Jumps, Target, Marked, Accepted;
    var t := Target(p, s).value;
    LandsInShape(p, s, m);
    MarkedPrefix(Ops(p, s + 1), written, |m.st.ops|);
    if p.code[t].RemoveLocal? && t + 1 < |p.code| && p.code[t + 1].EndBarrier? {
      OpsStep(p, t + 1);
      assert false;
    }
  }

  /** A return past a barrier lands at its EndBarrier with everything it leaves. */
  lemma {:induction false} ReturnMarked(p: Program, s: nat, written: seq<bool>, m: Machine)
    requires Balanced(p) && Accepted(p) && s < |p.code| && p.code[s].Return? && Jumps(p, s, Ops(p, s)) && Target(p, s).Some?
    requires Marked(Ops(p, s), written, 0)
    requires Lands(p, Target(p, s).value, Stacks(Ops(p, s + 1), Locals(p, s + 1)), m)
    ensures InMarks(p, Tracked(m, MarksAfter(p.code[s], written, |Ops(p, s + 1)|)[..|m.st.ops|]))
  {
    hide Ops, Locals, Balanced, Target, Marked, Accepted;
    ReturnReachesBarrier(p, s);
    LandsInShape(p, s, m);
    MarksReturn(p, s, written);
    var after := MarksAfter(p.code[s], written, |Ops(p, s + 1)|);
    assert after[..|after|] == after;
  }

  /** What a step does that is no jump, or a jump, or a return. */
  lemma {:induction false} StepGoes(p: Program, pc: nat, m: Machine)
    requires Balanced(p) && pc < |p.code| && Next(p, pc, Stacks(Ops(p, pc), Locals(p, pc)), m)
    ensures p.code[pc].Return? && m.Running? ==> Jumps(p, pc, Ops(p, pc))
    ensures Jumps(p, pc, Ops(p, pc)) && m != Running(pc + 1, Stacks(Ops(p, pc + 1), Locals(p, pc + 1))) ==>
              Target(p, pc).Some? && Lands(p, Target(p, pc).value, Stacks(Ops(p, pc + 1), Locals(p, pc + 1)), m)
    ensures p.code[pc].Return? && m.Running? ==>
              Target(p, pc).Some? && Lands(p, Target(p, pc).value, Stacks(Ops(p, pc + 1), Locals(p, pc + 1)), m)
    ensures !Jumps(p, pc, Ops(p, pc)) && !p.code[pc].Return? ==> m == Running(pc + 1, Stacks(Ops(p, pc + 1), Locals(p, pc + 1)))
  {
    hide Ops, Locals, Balanced, Step, Lands, MatchingEnd;
    StepInShape(p, pc);
  }

  /** Only a return stands in front of an EndBarrier. */
  lemma NoEndBehind(p: Program, pc: nat)
    requires Balanced(p) && pc < |p.code| && !p.code[pc].Return?
    ensures Ready(p, pc + 1) == 0
  {
    hide Ops, Balanced;
    if pc + 1 < |p.code| {
      OpsStep(p, pc + 1);
    }
  }

  /** Every step but a written jump to an EndBarrier keeps the marks right. */
  lemma {:induction false} NextInMarks(p: Program, a: Tracked, b: Tracked)
    requires Balanced(p) && Accepted(p) && InMarks(p, a) && NextTracked(p, a, b) && !AtBarrierJump(p, a.m)
    ensures InMarks(p, b)
  {
    hide Ops, Locals, Balanced, Target, Marked, Accepted, Step, Lands, MarksAfter, Jumps;
    var pc := a.m.pc;
    StepInShape(p, pc);
    var height := |Ops(p, pc + 1)|;
    var after := MarksAfter(p.code[pc], a.written, height);
    assert after[..height] == after;
    StepGoes(p, pc, b.m);
    if p.code[pc].Return? {
      if b.m.Running? {
        ReturnMarked(p, pc, a.written, b.m);
      }
    } else {
      if p.code[pc].EndBarrier? {
        MarksEnd(p, pc, a.written);
      } else {
        MarksStep(p, pc, a.written);
      }
      NoEndBehind(p, pc);
      if b.m != Running(pc + 1, Stacks(Ops(p, pc + 1), Locals(p, pc + 1))) {
        LandsMarked(p, pc, after, b.m);
      }
    }
  }

  // ---------------------------------------------------------------- runs

  /** Along a run, up to and at the first written jump to an EndBarrier, the marks are right. */
  lemma {:induction false} TrackedInMarks(p: Program, run: seq<Tracked>, j: nat)
    requires Balanced(p) && Accepted(p) && IsTracked(p, run) && j < |run|
    requires forall k :: 0 <= k < j ==> !AtBarrierJump(p, run[k].m)
    ensures InMarks(p, run[j])
    decreases j
  {
    hide Balanced, Accepted, AtBarrierJump, InMarks, NextTracked;
    if j == 0 {
      StartInMarks(p);
    } else {
      TrackedInMarks(p, run, j - 1);
      assert NextTracked(p, run[j - 1], run[j]);
      NextInMarks(p, run[j - 1], run[j]);
    }
  }

  lemma StartInMarks(p: Program)
    requires Balanced(p)
    ensures InMarks(p, Tracked(Running(0, Start(p.env)), []))
  {
    StartInShape(p);
  }

  /** The stacks are sound, and all values have been written. */
  ghost predicate Right(p: Program, t: Tracked)
    requires Balanced(p)
  {
    Sound(p, t.m) && ValuesWritten(t)
  }

  lemma {:induction false} InMarksIsRight(p: Program, t: Tracked)
    requires Balanced(p) && Accepted(p) && InMarks(p, t) && !AtBarrierJump(p, t.m)
    ensures Right(p, t)
  {
    hide Ops, Locals, Balanced, Accepted, Sound, Target, OpenedAt;
    SoundIff(p, t.m);
  }

  // ---------------------------------------------------------------- a jump to an EndBarrier

  /** The jump can be taken, and then the EndBarrier: they make a value of a shell that nobody
      has written. */
  lemma {:induction false} JumpLeavesUnwritten(p: Program, a: Tracked) returns (b: Tracked, c: Tracked)
    requires Balanced(p) && Accepted(p) && InMarks(p, a) && AtBarrierJump(p, a.m) && !AtStray(p, a.m)
    ensures NextTracked(p, a, b) && NextTracked(p, b, c) && !ValuesWritten(c)
  {
    hide Ops, Locals, Balanced, Accepted, Stray, Target, MarksAfter, Step, Marked, Lands;
    var s := a.m.pc;
    var t := Target(p, s).value;
    StepInShape(p, s);
    var n := Landing(p, s);
    LandsInShape(p, s, n);
    LandsAt(p, s, n);
    JumpIsNext(p, s, n);
    var after := MarksAfter(p.code[s], a.written, |Ops(p, s + 1)|);
    b := Tracked(n, after[..|Ops(p, t)|]);
    MarksStep(p, s, a.written);
    MarkedPrefix(Ops(p, s + 1), after, |Ops(p, t)|);
    c := EndLeavesUnwritten(p, t, b);
  }

  lemma LandsAt(p: Program, s: nat, n: Machine)
    requires Balanced(p) && s < |p.code| && Target(p, s).Some? && p.code[Target(p, s).value].EndBarrier?
    requires Lands(p, Target(p, s).value, Stacks(Ops(p, s + 1), Locals(p, s + 1)), n) && InShape(p, n)
    ensures var t := Target(p, s).value;
            && n == Running(t, Stacks(Ops(p, t), Locals(p, t))) && |Ops(p, t)| <= |Ops(p, s + 1)|
            && Ops(p, s + 1)[..|Ops(p, t)|] == Ops(p, t)
  {
    hide Ops, Locals, Balanced, Target;
  }

  lemma {:induction false} JumpIsNext(p: Program, s: nat, n: Machine)
    requires Balanced(p) && s < |p.code| && Jumps(p, s, Ops(p, s)) && !p.code[s].Return? && Target(p, s).Some?
    requires Lands(p, Target(p, s).value, Stacks(Ops(p, s + 1), Locals(p, s + 1)), n)
    ensures Next(p, s, Stacks(Ops(p, s), Locals(p, s)), n)
  {
    hide Ops, Locals, Balanced, Step, Target, Lands;
    StepInShape(p, s);
  }

  lemma {:induction false} EndLeavesUnwritten(p: Program, t: nat, b: Tracked) returns (c: Tracked)
    requires Balanced(p) && t < |p.code| && p.code[t].EndBarrier?
    requires b.m == Running(t, Stacks(Ops(p, t), Locals(p, t))) && Marked(Ops(p, t), b.written, 0)
    ensures NextTracked(p, b, c) && !ValuesWritten(c)
  {
    hide Ops, Locals, Balanced, Step;
    StepInShape(p, t);
    OpsStep(p, t);
    GuardedShells(p, t);
    var after := Ops(p, t + 1);
    c := Tracked(Running(t + 1, Stacks(after, Locals(p, t + 1))), MarksAfter(EndBarrier, b.written, |after|)[..|after|]);
    var k := |after| - 1;
    assert after[k].kind.Value? && !c.written[k];
  }

  // ---------------------------------------------------------------- the theorem

  ghost predicate AlwaysRight(p: Program)
    requires Balanced(p)
  {
    forall run: seq<Tracked> :: IsTracked(p, run) ==> Right(p, run[|run| - 1])
  }

  ghost predicate NeverAtBarrierJump(p: Program)
    requires Balanced(p)
  {
    forall run: seq<Tracked> :: IsTracked(p, run) ==> !AtBarrierJump(p, run[|run| - 1].m)
  }

  lemma TrackedPrefix(p: Program, run: seq<Tracked>, k: nat)
    requires Balanced(p) && IsTracked(p, run)
    ensures run != [] && (0 < k <= |run| ==> IsTracked(p, run[..k]))
  {
    hide NextTracked, Balanced;
  }

  /** Keeping the marks stands in the way of no run. */
  lemma {:induction false} EveryRunTracked(p: Program, run: seq<Machine>) returns (tracked: seq<Tracked>)
    requires Balanced(p) && IsRun(p, run)
    ensures IsTracked(p, tracked) && |tracked| == |run| && forall j :: 0 <= j < |run| ==> tracked[j].m == run[j]
    decreases |run|
  {
    hide Balanced, Next, NextTracked;
    var last := |run| - 1;
    if last == 0 {
      tracked := [Tracked(run[0], [])];
    } else {
      assert Next(p, run[last - 1].pc, run[last - 1].st, run[last]);
      RunPrefix(p, run, last);
      tracked := EveryRunTracked(p, run[..last]);
      var t := MarksOfNext(p, tracked[last - 1], run[last]);
      TrackedMore(p, tracked, t);
      tracked := tracked + [t];
    }
  }

  lemma {:induction false} MarksOfNext(p: Program, a: Tracked, m: Machine) returns (b: Tracked)
    requires Balanced(p) && a.m.Running? && Next(p, a.m.pc, a.m.st, m)
    ensures b.m == m && NextTracked(p, a, b)
  {
    hide Ops, Locals, StateAt, Step, Target, Jumps;
    var after := Step(p, a.m.pc, a.m.st).value.ops;
    b := Tracked(m, if m.Running? then MarksAfter(p.code[a.m.pc], a.written, |after|)[..|m.st.ops|] else []);
  }

  lemma TrackedMore(p: Program, run: seq<Tracked>, t: Tracked)
    requires Balanced(p) && IsTracked(p, run) && NextTracked(p, run[|run| - 1], t)
    ensures IsTracked(p, run + [t])
  {
    hide NextTracked, Balanced;
  }

  /** The first state of a run that is at a written jump to an EndBarrier. */
  lemma {:induction false} FirstBarrierJump(p: Program, run: seq<Tracked>, j: nat) returns (k: nat)
    requires Balanced(p) && j < |run| && AtBarrierJump(p, run[j].m)
    ensures k <= j && AtBarrierJump(p, run[k].m) && forall i :: 0 <= i < k ==> !AtBarrierJump(p, run[i].m)
    decreases j
  {
    hide AtBarrierJump;
    if i :| 0 <= i < j && AtBarrierJump(p, run[i].m) {
      k := FirstBarrierJump(p, run, i);
    } else {
      k := j;
    }
  }

  lemma NotRight(p: Program, run: seq<Tracked>)
    requires Balanced(p) && IsTracked(p, run) && run != [] && !Right(p, run[|run| - 1])
    ensures !AlwaysRight(p)
  {
    hide IsTracked, Right, Balanced;
  }

  lemma {:induction false} BarrierJumpIsWrong(p: Program, run: seq<Tracked>)
    requires Balanced(p) && Accepted(p) && IsTracked(p, run) && AtBarrierJump(p, run[|run| - 1].m)
    ensures !AlwaysRight(p)
  {
    hide Balanced, Accepted, AtBarrierJump, InShape, NextTracked, IsTracked, Sound, ValuesWritten, AtStray, AlwaysRight;
    TrackedPrefix(p, run, |run|);
    var k := FirstBarrierJump(p, run, |run| - 1);
    TrackedInMarks(p, run, k);
    var upTo := run[..k + 1];
    TrackedPrefix(p, run, k + 1);
    var a := upTo[k];
    if AtStray(p, a.m) {
      SoundIff(p, a.m);
      NotRight(p, upTo);
    } else {
      var b, c := JumpLeavesUnwritten(p, a);
      TrackedMore(p, upTo, b);
      TrackedMore(p, upTo + [b], c);
      NotRight(p, upTo + [b] + [c]);
    }
  }

  /** In an accepted method, every state that a run can come to is sound with all its values
      written, if and only if no run comes to a written jump to an EndBarrier: such jumps are the
      only way past a return. */
  lemma {:induction false} RunsWrittenIff(p: Program)
    requires Balanced(p) && Accepted(p)
    ensures AlwaysRight(p) <==> NeverAtBarrierJump(p)
  {
    hide Balanced, Accepted, AtBarrierJump, InMarks, IsTracked, Right;
    forall run: seq<Tracked> | IsTracked(p, run) && AlwaysRight(p) ensures run != [] && !AtBarrierJump(p, run[|run| - 1].m) {
      TrackedPrefix(p, run, |run|);
      if AtBarrierJump(p, run[|run| - 1].m) {
        BarrierJumpIsWrong(p, run);
      }
    }
    forall run: seq<Tracked> | IsTracked(p, run) && NeverAtBarrierJump(p) ensures run != [] && Right(p, run[|run| - 1]) {
      TrackedPrefix(p, run, |run|);
      forall k | 0 <= k < |run| ensures !AtBarrierJump(p, run[k].m) {
        TrackedPrefix(p, run, k + 1);
        assert run[..k + 1][k] == run[k];
      }
      TrackedInMarks(p, run, |run| - 1);
      InMarksIsRight(p, run[|run| - 1]);
    }
  }

  /** No jump that is written down goes to an EndBarrier. */
  predicate NoBarrierJumps(p: Program)
  {
    forall s :: 0 <= s < |p.code| && !p.code[s].Return? && Target(p, s).Some? ==> !p.code[Target(p, s).value].EndBarrier?
  }

  /** So much can be seen from the code, without a look at stacks or runs. */
  lemma {:induction false} NoBarrierJumpsRight(p: Program)
    requires Balanced(p) && Accepted(p) && NoBarrierJumps(p)
    ensures AlwaysRight(p)
  {
    hide Balanced, Accepted, IsTracked, Right, Target, Jumps;
    forall run: seq<Tracked> | IsTracked(p, run) ensures run != [] && !AtBarrierJump(p, run[|run| - 1].m) {
      TrackedPrefix(p, run, |run|);
    }
    RunsWrittenIff(p);
  }
}
