/** The compilation of a method as a whole: three passes, the local area between operands and
    frame, and the frame that results. */
module IlMethod {
  import opened IlStacks
  import opened IlLinear
  import opened IlJumps
  import opened IlRanges
  import opened IlRuns
  import opened IlFrame
  import opened IlPasses

  /** What the compiler hands over: the depth of the local area and of the whole frame. */
  datatype Compiled = Compiled(base: nat, frameCapacity: nat)

  /** One pass over the whole method, which must leave the stacks as it found them. */
  function FullPass(env: Env, code: seq<Instr>, localMax: nat, opMax: nat): (r: Result<PassState>)
    requires Sane(env)
  {
    var ps :- PassAt(env, code, localMax, opMax, |code|);
    if ps.st.ops != [] || |ps.st.locals| != |env.params| then Err(StacksUnbalanced) else Ok(ps)
  }

  /** The local area, rounded up to the operand boundary. */
  function LocalArea(env: Env, localMax: nat): (r: Result<nat>)
    requires Sane(env)
  {
    if localMax + env.stackAlign - 1 > LARGEINT_MAX then Err(IntegerOverflow) else Ok(PadTo(localMax, env.stackAlign))
  }

  function FrameCapacity(opMax: nat): (r: Result<nat>)
  {
    if PadTo(opMax, RDX_MAX_ALIGNMENT) > LARGEINT_MAX then Err(IntegerOverflow) else Ok(PadTo(opMax, RDX_MAX_ALIGNMENT))
  }

  /** What the counting pass leaves behind: its stacks keep no offsets, so every local seems
      the only one. */
  function LargestLocal(env: Env, code: seq<Instr>): (r: nat)
    requires Sane(env)
    ensures forall j :: 0 <= j < |code| && AddsLocal(code[j]) ==> env.size(code[j].ty) <= r
  {
    if code == [] then 0
    else
      var rest, last := LargestLocal(env, code[..|code| - 1]), code[|code| - 1];
      if AddsLocal(last) then Max(rest, PadTo(env.size(last.ty), env.align(last.ty))) else rest
  }

  ghost function CompileResult(env: Env, code: seq<Instr>): (r: Result<Compiled>)
    requires Sane(env)
  {
    var first :- FullPass(env, code, LargestLocal(env, code), 0);
    var base :- LocalArea(env, first.localMax);
    var second :- FullPass(env, code, base, first.opMax);
    var third :- FullPass(env, code, second.localMax, second.opMax);
    if !Accepted(Program(env, second.localMax, code)) then Err(InvalidJumpTarget)
    else
      var frameCapacity :- FrameCapacity(third.opMax);
      Ok(Compiled(second.localMax, frameCapacity))
  }

  /** The passes behind an accepted method. */
  ghost predicate Passes(env: Env, code: seq<Instr>, first: PassState, second: PassState, third: PassState, c: Compiled)
    requires Sane(env)
  {
    && PassAt(env, code, LargestLocal(env, code), 0, |code|) == Ok(first) && first.localMax <= c.base
    && PassAt(env, code, c.base, first.opMax, |code|) == Ok(second)
    && PassAt(env, code, c.base, second.opMax, |code|) == Ok(third)
    && c.frameCapacity == PadTo(third.opMax, RDX_MAX_ALIGNMENT)
  }

  lemma {:induction false} PassesOf(env: Env, code: seq<Instr>, c: Compiled)
    returns (first: PassState, second: PassState, third: PassState)
    requires Sane(env) && CompileResult(env, code) == Ok(c)
    ensures Passes(env, code, first, second, third, c)
    ensures c.base == PadTo(first.localMax, env.stackAlign) && Accepted(Program(env, c.base, code))
  {
    hide PassAt, Accepted, PadTo;
    first := FullPass(env, code, LargestLocal(env, code), 0).value;
    var base := PadTo(first.localMax, env.stackAlign);
    second := FullPass(env, code, base, first.opMax).value;
    LaterPass(env, code, LargestLocal(env, code), 0, base, first.opMax, |code|);
    third := FullPass(env, code, base, second.opMax).value;
  }

  /** After the pass over the rounded local area everything is ready for checking the jumps. */
  lemma {:induction false} BecomesStitchable(env: Env, code: seq<Instr>, m: nat, base: nat, o: nat, metas: seq<Meta>)
    requires Sane(env) && FullPass(env, code, m, 0).Ok? && FullPass(env, code, m, 0).value.localMax <= base
    requires FullPass(env, code, base, o).Ok?
    requires FullPass(env, code, base, o).value.localMax == base ==>
               Balanced(Program(env, base, code)) && metas == MetasAt(Program(env, base, code), |code|)
    ensures FullPass(env, code, base, o).value.localMax == base
    ensures Stitchable(env, code, base, metas)
  {
    hide PassAt, Step, LocalsLaidOut, MetasAt;
    LaterPass(env, code, m, 0, base, o, |code|);
    forall i: nat | i <= |code| ensures LocalDepth(Locals(Program(env, base, code), i)) <= base {
      EarlierPass(env, code, base, o, i, |code|);
      LaterPass(env, code, m, 0, base, o, i);
      DepthInArea(env, Locals(Program(env, base, code), i), base);
    }
  }

  /** The frame layout of an accepted method: before every instruction the locals lie disjoint
      and aligned in the local area, and the operands disjoint below it, within the frame. */
  lemma {:induction false} FrameLaidOut(env: Env, code: seq<Instr>, c: Compiled, i: nat)
    requires Sane(env) && CompileResult(env, code) == Ok(c) && i <= |code|
    ensures var p := Program(env, c.base, code);
            && Accepted(p) && c.base % env.stackAlign == 0 && c.frameCapacity % RDX_MAX_ALIGNMENT == 0
            && LocalsLaidOut(env, Locals(p, i), c.base) && OpsLaidOut(Ops(p, i), c.base, c.frameCapacity)
  {
    hide PassAt, PadTo, LocalsLaidOut, OpsLaidOut;
    var first, second, third := PassesOf(env, code, c);
    EarlierPass(env, code, c.base, second.opMax, i, |code|);
    LaterPass(env, code, LargestLocal(env, code), 0, c.base, second.opMax, i);
    Roomier(PassAt(env, code, c.base, second.opMax, i).value.st.ops, c.base,
            PassAt(env, code, c.base, second.opMax, i).value.opMax, c.frameCapacity);
  }

  lemma Roomier(ops: seq<Operand>, base: nat, limit: nat, limit': nat)
    requires OpsLaidOut(ops, base, limit) && limit <= limit'
    ensures OpsLaidOut(ops, base, limit')
  {
  }

  /** In every state of a run of an accepted method, as long as it takes no stray jump, what is
      live is laid out so: no live local or operand ever overlaps another. */
  lemma {:induction false} RunsLaidOut(env: Env, code: seq<Instr>, c: Compiled, run: seq<Machine>, j: nat)
    requires Sane(env) && CompileResult(env, code) == Ok(c) && Balanced(Program(env, c.base, code))
    requires IsRun(Program(env, c.base, code), run) && j < |run|
    requires forall k :: 0 <= k < j ==> !AtStray(Program(env, c.base, code), run[k])
    ensures run[j].Running? ==>
              && LocalsLaidOut(env, run[j].st.locals, c.base)
              && OpsLaidOut(run[j].st.ops, c.base, c.frameCapacity)
  {
    hide LocalsLaidOut, OpsLaidOut, IsRun, AtStray, Ops, Locals;
    FrameLaidOut(env, code, c, 0);
    RunsKeepShape(Program(env, c.base, code), run, j);
    if run[j].Running? {
      FrameLaidOut(env, code, c, run[j].pc);
    }
  }

  // ---------------------------------------------------------------- what the frame does not cover

  /** The local that an instruction adds is as deep as it is large. */
  lemma {:induction false} AddedDepth(p: Program, j: nat)
    requires Balanced(p) && j < |p.code| && AddsLocal(p.code[j])
    ensures var k := |Locals(p, j)|; |Locals(p, j + 1)| == k + 1 && |p.env.params| <= k && p.env.size(p.code[j].ty) <= Locals(p, j + 1)[k].depth
  {
    hide Ops, Locals, ExecOps, Jumps, Target;
    StepAt(p, j);
    LocalBirths(p, j);
  }

  ghost predicate AllAtZero(locals: seq<Local>)
  {
    forall k :: 0 <= k < |locals| ==> locals[k].depth == 0
  }

  ghost predicate NoLocalBytes(env: Env, code: seq<Instr>)
  {
    forall j :: 0 <= j < |code| && AddsLocal(code[j]) ==> env.size(code[j].ty) == 0
  }

  lemma {:induction false} PushedAtZero(env: Env, locals: seq<Local>, ty: nat, born: nat)
    requires env.align(ty) >= 1 && env.size(ty) == 0 && AllAtZero(locals)
    ensures PushLocal(env, locals, ty, born).Ok? ==> AllAtZero(PushLocal(env, locals, ty, born).value)
  {
    PadZero(env.align(ty));
  }

  lemma {:induction false} LocalsAtZero(p: Program, i: nat)
    requires Balanced(p) && i <= |p.code| && NoLocalBytes(p.env, p.code)
    ensures AllAtZero(Locals(p, i))
    decreases i
  {
    hide Locals, AllAtZero, NoLocalBytes, Balanced;
    if i > 0 {
      LocalsAtZero(p, i - 1);
      AtZeroStep(p, i - 1);
    } else {
      FirstLocals(p);
      StartAtZero(p.env);
    }
  }

  lemma StartAtZero(env: Env)
    ensures AllAtZero(Start(env).locals)
  {
  }

  lemma {:induction false} AtZeroStep(p: Program, i: nat)
    requires Balanced(p) && i < |p.code| && NoLocalBytes(p.env, p.code) && AllAtZero(Locals(p, i))
    ensures AllAtZero(Locals(p, i + 1))
  {
    hide Locals, Ops, ExecOps, PushLocal, AllAtZero, Jumps, Target, Balanced;
    StepAt(p, i);
    if AddsLocal(p.code[i]) {
      PushedAtZero(p.env, Locals(p, i), p.code[i].ty, i);
    } else if p.code[i].RemoveLocal? {
      DroppedAtZero(Locals(p, i));
    }
  }

  lemma DroppedAtZero(locals: seq<Local>)
    requires AllAtZero(locals) && locals != []
    ensures AllAtZero(locals[..|locals| - 1])
  {
  }

  /** The frame is as deep as the operands of the method; whether it covers the locals too. */
  ghost predicate FrameCoversLocals(env: Env, code: seq<Instr>, c: Compiled)
    requires Sane(env) && Balanced(Program(env, c.base, code))
  {
    forall i, k :: 0 <= i <= |code| && 0 <= k < |Locals(Program(env, c.base, code), i)| ==>
      Locals(Program(env, c.base, code), i)[k].depth <= c.frameCapacity
  }

  /** The frame of an accepted method covers its locals exactly when the method pushes an
      operand somewhere, or none of its locals has any bytes. */
  lemma {:induction false} FrameCoversLocalsIff(env: Env, code: seq<Instr>, c: Compiled)
    requires Sane(env) && CompileResult(env, code) == Ok(c)
    ensures Balanced(Program(env, c.base, code))
    ensures FrameCoversLocals(env, code, c) <==> ((exists j :: 0 <= j < |code| && Pushes(code[j])) || NoLocalBytes(env, code))
  {
    hide PassAt, PadTo, OpsLaidOut, Locals, Balanced;
    var p := Program(env, c.base, code);
    FrameLaidOut(env, code, c, 0);
    var first, second, third := PassesOf(env, code, c);
    if j :| 0 <= j < |code| && Pushes(code[j]) {
      PushCovers(env, code, LargestLocal(env, code), 0, c.base, second.opMax, j);
      forall i: nat | i <= |code| ensures LocalsLaidOut(env, Locals(p, i), c.base) {
        FrameLaidOut(env, code, c, i);
      }
    } else if NoLocalBytes(env, code) {
      forall i: nat | i <= |code| ensures AllAtZero(Locals(p, i)) {
        LocalsAtZero(p, i);
      }
    } else {
      var j :| 0 <= j < |code| && AddsLocal(code[j]) && env.size(code[j].ty) != 0;
      AddedDepth(p, j);
      NoPushes(env, code, LargestLocal(env, code), 0, |code|);
      NoPushes(env, code, c.base, first.opMax, |code|);
      NoPushes(env, code, c.base, second.opMax, |code|);
      PadZero(RDX_MAX_ALIGNMENT);
    }
  }
}
