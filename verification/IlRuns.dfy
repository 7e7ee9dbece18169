/** Runs of an accepted method: along every path the stacks have the shape that the linear
    pass computed. */
module IlRuns {
  import opened IlStacks
  import opened IlLinear
  import opened IlJumps

  /** The machine executes instruction `pc` with actual stacks, or has returned to its caller. */
  datatype Machine = Running(pc: nat, st: Stacks) | Returned

  /** A jump to `t` keeps what is live there; a RemoveLocal has no code of its own, so a jump
      to one arrives behind it. */
  ghost predicate Lands(p: Program, t: nat, st: Stacks, m: Machine)
    requires Balanced(p) && t < |p.code|
  {
    && |Ops(p, t)| <= |st.ops| && |LocalsFor(p, t)| <= |st.locals|
    && m == Running(if p.code[t].RemoveLocal? then t + 1 else t,
                    Stacks(st.ops[..|Ops(p, t)|], st.locals[..|LocalsFor(p, t)|]))
  }

  /** One step of the machine, from `pc` with stacks `st`. */
  ghost predicate Next(p: Program, pc: nat, st: Stacks, m: Machine)
    requires Balanced(p)
  {
    && pc < |p.code| && Step(p, pc, st).Ok?
    && var after := Step(p, pc, st).value;
       match p.code[pc]
       case Jump(_) => Target(p, pc).Some? && Lands(p, Target(p, pc).value, after, m)
       case JumpIfTrue(_) => m == Running(pc + 1, after) || (Target(p, pc).Some? && Lands(p, Target(p, pc).value, after, m))
       case JumpIfFalse(_) => m == Running(pc + 1, after) || (Target(p, pc).Some? && Lands(p, Target(p, pc).value, after, m))
       case Return(n) =>
         if n == |st.ops| then m == Returned else Target(p, pc).Some? && Lands(p, Target(p, pc).value, after, m)
       case _ => m == Running(pc + 1, after)
  }

  ghost predicate IsRun(p: Program, run: seq<Machine>)
    requires Balanced(p)
  {
    && run != [] && run[0] == Running(0, Start(p.env))
    && forall j :: 0 <= j < |run| - 1 ==> run[j].Running? && Next(p, run[j].pc, run[j].st, run[j + 1])
  }

  /** A written jump that enters a barrier at its EndBarrier from outside. */
  ghost predicate Stray(p: Program, s: nat)
    requires Balanced(p) && s < |p.code|
  {
    && Jumps(p, s, Ops(p, s)) && !p.code[s].Return? && Target(p, s).Some?
    && var t := Target(p, s).value;
       p.code[t].EndBarrier? && !(OpenedAt(p, t) < s < t)
  }

  ghost predicate NoStrayJumps(p: Program)
    requires Balanced(p)
  {
    forall s :: 0 <= s < |p.code| ==> !Stray(p, s)
  }

  /** The machine is about to execute such a jump. */
  ghost predicate AtStray(p: Program, m: Machine)
    requires Balanced(p)
  {
    m.Running? && m.pc < |p.code| && Stray(p, m.pc)
  }

  /** The stacks are those of the linear pass. */
  ghost predicate InShape(p: Program, m: Machine)
    requires Balanced(p)
  {
    m.Returned? || (m.pc <= |p.code| && m.st == Stacks(Ops(p, m.pc), Locals(p, m.pc)))
  }

  lemma {:induction false} StepInShape(p: Program, pc: nat)
    requires Balanced(p) && pc < |p.code|
    ensures Step(p, pc, Stacks(Ops(p, pc), Locals(p, pc))) == Ok(Stacks(Ops(p, pc + 1), Locals(p, pc + 1)))
  {
    hide Ops, Locals, Balanced, ExecOps, ExecLocals;
    StepAt(p, pc);
  }

  /** What every jump finds: enough on both stacks, and in the right places. */
  lemma {:induction false} TargetMet(p: Program, s: nat)
    requires Balanced(p) && Accepted(p) && s < |p.code| && !Stray(p, s) && Jumps(p, s, Ops(p, s))
    ensures Target(p, s).Some?
    ensures Ops(p, Target(p, s).value) <= Ops(p, s + 1) && LocalsFor(p, Target(p, s).value) <= Locals(p, s + 1)
  {
    hide Ops, Locals, Balanced, Jumps, InRange, MatchingEnd;
    var t := Target(p, s).value;
    if p.code[s].Return? {
      ReturnReachesBarrier(p, s);
    } else if p.code[t].EndBarrier? {
      JumpToEndBarrierIff(p, s, t);
      JumpPushesNothing(p, s);
      LocalsReach(p, s, t);
    } else {
      JumpSound(p, s, t);
    }
  }

  /** Landing there, the stacks are the expected ones. */
  lemma {:induction false} LandsInShape(p: Program, s: nat, m: Machine)
    requires Balanced(p) && Accepted(p) && s < |p.code| && !Stray(p, s) && Jumps(p, s, Ops(p, s)) && Target(p, s).Some?
    requires Lands(p, Target(p, s).value, Stacks(Ops(p, s + 1), Locals(p, s + 1)), m)
    ensures InShape(p, m)
  {
    hide Ops, Locals, Balanced, Jumps, InRange, MatchingEnd, Target;
    TargetMet(p, s);
    var t := Target(p, s).value;
    LocalsStep(p, t);
    assert Ops(p, s + 1)[..|Ops(p, t)|] == Ops(p, t);
    assert Locals(p, s + 1)[..|LocalsFor(p, t)|] == LocalsFor(p, t);
    if p.code[t].RemoveLocal? {
      RemoveLeavesOps(p, t);
    }
  }

  /** The jump can be taken. */
  lemma {:induction false} Landing(p: Program, s: nat) returns (m: Machine)
    requires Balanced(p) && Accepted(p) && s < |p.code| && !Stray(p, s) && Jumps(p, s, Ops(p, s))
    ensures Target(p, s).Some? && Lands(p, Target(p, s).value, Stacks(Ops(p, s + 1), Locals(p, s + 1)), m)
  {
    hide Ops, Locals, Balanced, Jumps, Accepted, Stray, Target;
    TargetMet(p, s);
    var t := Target(p, s).value;
    m := Running(if p.code[t].RemoveLocal? then t + 1 else t,
                 Stacks(Ops(p, s + 1)[..|Ops(p, t)|], Locals(p, s + 1)[..|LocalsFor(p, t)|]));
  }

  lemma {:induction false} RemoveLeavesOps(p: Program, t: nat)
    requires Balanced(p) && t < |p.code| && p.code[t].RemoveLocal?
    ensures Ops(p, t + 1) == Ops(p, t)
  {
    hide Ops, Locals, Balanced;
    StepAt(p, t);
  }

  /** Every step keeps the shape, and as long as there is an instruction there is a step. */
  lemma {:induction false} NextInShape(p: Program, pc: nat, m: Machine)
    requires Balanced(p) && Accepted(p) && pc < |p.code| && !Stray(p, pc)
    requires Next(p, pc, Stacks(Ops(p, pc), Locals(p, pc)), m)
    ensures InShape(p, m)
  {
    hide Ops, Locals, Balanced, Step, Lands, MatchingEnd, Accepted, Stray;
    StepInShape(p, pc);
    if Jumps(p, pc, Ops(p, pc)) && m != Running(pc + 1, Stacks(Ops(p, pc + 1), Locals(p, pc + 1))) {
      LandsInShape(p, pc, m);
    }
  }

  lemma {:induction false} NeverStuck(p: Program, pc: nat) returns (m: Machine)
    requires Balanced(p) && Accepted(p) && pc < |p.code| && !Stray(p, pc)
    ensures Next(p, pc, Stacks(Ops(p, pc), Locals(p, pc)), m)
  {
    hide Ops, Locals, Balanced, Step, MatchingEnd, Accepted, Stray;
    StepInShape(p, pc);
    var after := Stacks(Ops(p, pc + 1), Locals(p, pc + 1));
    if Jumps(p, pc, Ops(p, pc)) {
      m := Landing(p, pc);
    } else if p.code[pc].Return? {
      m := Returned;
    } else {
      m := Running(pc + 1, after);
    }
  }

  /** The main result: in every state of a run, whatever jumps were taken, the stacks are those
      the single linear pass computed for that instruction, unless it took a stray jump. */
  lemma {:induction false} RunsKeepShape(p: Program, run: seq<Machine>, j: nat)
    requires Balanced(p) && Accepted(p) && IsRun(p, run) && j < |run|
    requires forall k :: 0 <= k < j ==> !AtStray(p, run[k])
    ensures InShape(p, run[j])
    decreases j
  {
    hide Ops, Locals, Next, Accepted, Stray, Balanced;
    if j == 0 {
      StartInShape(p);
    } else {
      RunsKeepShape(p, run, j - 1);
      var m := run[j - 1];
      assert m.Running? && Next(p, m.pc, m.st, run[j]);
      NextBounds(p, m.pc, m.st, run[j]);
      assert !AtStray(p, m);
      NextInShape(p, m.pc, run[j]);
    }
  }

  /** The stacks are as expected, and so they are where the jump, if there is one here, lands. */
  ghost predicate Sound(p: Program, m: Machine)
    requires Balanced(p)
  {
    && InShape(p, m)
    && (m.Running? && m.pc < |p.code| && Jumps(p, m.pc, m.st.ops) ==>
          && Target(p, m.pc).Some? && Step(p, m.pc, m.st).Ok?
          && exists n :: Lands(p, Target(p, m.pc).value, Step(p, m.pc, m.st).value, n) && InShape(p, n))
  }

  /** A state in shape is sound exactly if it is not at a stray jump. */
  lemma {:induction false} SoundIff(p: Program, m: Machine)
    requires Balanced(p) && Accepted(p) && InShape(p, m)
    ensures Sound(p, m) <==> !AtStray(p, m)
  {
    hide Ops, Locals, Balanced, Step, Lands, MatchingEnd, Accepted, Stray;
    if m.Running? && m.pc < |p.code| && Jumps(p, m.pc, m.st.ops) {
      StepInShape(p, m.pc);
      if AtStray(p, m) {
        StrayLands(p, m.pc);
      } else {
        var n := Landing(p, m.pc);
        LandsInShape(p, m.pc, n);
      }
    } else {
      StrayJumps(p, m);
    }
  }

  lemma StrayJumps(p: Program, m: Machine)
    requires Balanced(p) && InShape(p, m)
    ensures AtStray(p, m) ==> Jumps(p, m.pc, m.st.ops)
  {
    hide Ops, Locals, Balanced, Target, OpenedAt;
  }

  /** Where a stray jump lands, if it lands at all, the operands are not the expected ones. */
  lemma {:induction false} StrayLands(p: Program, s: nat)
    requires Balanced(p) && s < |p.code| && Stray(p, s)
    ensures forall n :: Lands(p, Target(p, s).value, Stacks(Ops(p, s + 1), Locals(p, s + 1)), n) ==> !InShape(p, n)
  {
    hide Ops, Locals, Balanced, MatchingEnd, OpenedAt;
    var t := Target(p, s).value;
    JumpToEndBarrierIff(p, s, t);
  }

  ghost predicate AlwaysSound(p: Program)
    requires Balanced(p)
  {
    forall run :: IsRun(p, run) ==> Sound(p, run[|run| - 1])
  }

  ghost predicate NeverAtStray(p: Program)
    requires Balanced(p)
  {
    forall run :: IsRun(p, run) ==> !AtStray(p, run[|run| - 1])
  }

  /** In an accepted method, every state that a run can come to is sound if and only if none of
      them is at a stray jump. */
  lemma {:induction false} RunsSoundIff(p: Program)
    requires Balanced(p) && Accepted(p)
    ensures AlwaysSound(p) <==> NeverAtStray(p)
  {
    hide IsRun, Sound, AtStray, InShape, Balanced, Accepted;
    forall run | IsRun(p, run) && AlwaysSound(p) ensures run != [] && !AtStray(p, run[|run| - 1]) {
      RunPrefix(p, run, |run|);
      assert Sound(p, run[|run| - 1]);
      SoundInShape(p, run[|run| - 1]);
      SoundIff(p, run[|run| - 1]);
    }
    forall run | IsRun(p, run) && NeverAtStray(p) ensures run != [] && Sound(p, run[|run| - 1]) {
      RunPrefix(p, run, |run|);
      forall k | 0 <= k < |run| ensures !AtStray(p, run[k]) {
        RunPrefix(p, run, k + 1);
        assert run[..k + 1][k] == run[k];
      }
      RunsKeepShape(p, run, |run| - 1);
      SoundIff(p, run[|run| - 1]);
    }
  }

  /** A caller who looks at the code alone can rely on it: without stray jumps all is sound. */
  lemma {:induction false} NoStrayJumpsSound(p: Program)
    requires Balanced(p) && Accepted(p) && NoStrayJumps(p)
    ensures AlwaysSound(p)
  {
    hide Balanced, Accepted, Stray, IsRun, Sound;
    forall run | IsRun(p, run) ensures run != [] && !AtStray(p, run[|run| - 1]) {
      RunPrefix(p, run, |run|);
    }
    RunsSoundIff(p);
  }

  lemma RunPrefix(p: Program, run: seq<Machine>, k: nat)
    requires Balanced(p) && IsRun(p, run)
    ensures run != [] && (0 < k <= |run| ==> IsRun(p, run[..k]))
  {
    hide Next, Balanced;
  }

  lemma SoundInShape(p: Program, m: Machine)
    requires Balanced(p) && Sound(p, m)
    ensures InShape(p, m)
  {
  }

  lemma NextBounds(p: Program, pc: nat, st: Stacks, m: Machine)
    requires Balanced(p) && Next(p, pc, st, m)
    ensures pc < |p.code|
  {
  }

  lemma StartInShape(p: Program)
    requires Balanced(p)
    ensures InShape(p, Running(0, Start(p.env)))
  {
  }
}
