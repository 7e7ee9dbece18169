/** The counting pass: before there are any stacks, it finds out how large they will have to
    be. It knows no types, only how many entries there are. */
module IlCounting {
  import opened IlStacks
  import opened IlLinear
  import opened IlFrame
  import opened IlMethod

  /** Heights so far, their maxima, that of the journal of both stacks, and the offset maximum. */
  datatype Counts = Counts(ops: nat, locals: nat, opMax: nat, localMax: nat, journalMax: nat, offsetMax: nat)

  function Reach(c: Counts, ops: nat, locals: nat): Counts
  {
    Counts(ops, locals, Max(c.opMax, ops), Max(c.localMax, locals), Max(c.journalMax, ops + locals), c.offsetMax)
  }

  /** A local more; its offset is that of the only local, as the stack keeps no offsets yet. */
  function ReachLocal(env: Env, ty: nat, c: Counts, ops: nat): (r: Result<Counts>)
    requires Sane(env)
    ensures r.Ok? ==> r.value == Reach(c, ops, c.locals + 1).(offsetMax := r.value.offsetMax)
  {
    var only :- PushLocal(env, [], ty, 0);
    Ok(Reach(c, ops, c.locals + 1).(offsetMax := Max(c.offsetMax, LocalDepth(only))))
  }

  /** The conditions and the offset of a local that seems to be the only one. */
  lemma OnlyLocal(env: Env, ty: nat)
    requires Sane(env)
    ensures var size, align := env.size(ty), env.align(ty);
            var end := size + (align - 1);
            && (PushLocal(env, [], ty, 0).Ok? <==>
                  size <= LARGEINT_MAX && align <= LARGEINT_MAX && end <= LARGEINT_MAX && size + end <= LARGEINT_MAX)
            && (PushLocal(env, [], ty, 0).Ok? ==> LocalDepth(PushLocal(env, [], ty, 0).value) == RoundDown(end, align))
  {
    hide RoundDown;
  }

  function CountStep(env: Env, instr: Instr, c: Counts): (r: Result<Counts>)
    requires Sane(env)
  {
    match instr
    case AllocLocal(t) => if c.ops != 0 then Err(ForbiddenState) else ReachLocal(env, t, c, c.ops)
    case CreateLocal(t) =>
      if c.ops == 0 then Err(StackUnderflow)
      else if c.ops != 1 then Err(ForbiddenState)
      else ReachLocal(env, t, c, 0)
    case RemoveLocal =>
      if c.ops != 0 then Err(ForbiddenState)
      else if c.locals <= |env.params| then Err(StackUnderflow)
      else Ok(Reach(c, c.ops, c.locals - 1))
    case PushLocalRef(index) => if !(0 <= index < c.locals) then Err(InvalidOperand) else Ok(Reach(c, c.ops + 1, c.locals))
    case Return(n) =>
      if n < 0 then Err(InvalidOperand) else if n > c.ops then Err(StackUnderflow) else Ok(Reach(c, c.ops - n, c.locals))
    case _ =>
      if Popped(instr) > c.ops then Err(StackUnderflow)
      else Ok(Reach(c, c.ops - Popped(instr) + (if Pushes(instr) then 1 else 0), c.locals))
  }

  /** The instructions that need no more than enough operands. */
  predicate OnlyPops(instr: Instr)
  {
    !AddsLocal(instr) && !instr.RemoveLocal? && !instr.PushLocalRef? && !instr.Return?
  }

  /** How many operands those pop. */
  function Popped(instr: Instr): nat
  {
    match instr
    case Load => 1
    case Move => 2
    case Pop => 1
    case EndBarrier => 1
    case JumpIfTrue(_) => 1
    case JumpIfFalse(_) => 1
    case _ => 0
  }

  function CountAt(env: Env, code: seq<Instr>, i: nat): (r: Result<Counts>)
    requires Sane(env) && i <= |code|
  {
    if i == 0 then Ok(Counts(0, |env.params|, 0, |env.params|, |env.params|, 0))
    else
      var c :- CountAt(env, code, i - 1);
      CountStep(env, code[i - 1], c)
  }

  /** The whole pass, which must come out even. */
  function CountAll(env: Env, code: seq<Instr>): (r: Result<Counts>)
    requires Sane(env)
  {
    var c :- CountAt(env, code, |code|);
    if c.ops != 0 || c.locals != |env.params| then Err(StacksUnbalanced) else Ok(c)
  }

  // ---------------------------------------------------------------- the later passes

  /** What a later pass can do, the counting pass can do, and they agree on the heights. */
  lemma {:induction false} CountsStep(env: Env, base: nat, code: seq<Instr>, i: nat, st: Stacks, c: Counts)
    requires Sane(env) && i < |code| && |st.ops| == c.ops && |st.locals| == c.locals
    requires Step(Program(env, base, code), i, st).Ok?
    ensures var after := Step(Program(env, base, code), i, st).value;
            && CountStep(env, code[i], c).Ok?
            && CountStep(env, code[i], c).value.ops == |after.ops| && CountStep(env, code[i], c).value.locals == |after.locals|
  {
    hide PushOperand, ExecExit, ExecReturn, Jumps, Target, Liven, PushLocal;
    var after := Step(Program(env, base, code), i, st).value;
    assert ExecOps(env, base, code[i], i, i > 0 && code[i - 1].Return?, st.ops, st.locals) == Ok(after.ops);
    assert ExecLocals(env, code[i], i, st.ops, st.locals) == Ok(after.locals);
  }

  /** As far as a pass with types gets, so far does the counting pass, with the same heights. */
  lemma {:induction false} CountsAgree(env: Env, code: seq<Instr>, m: nat, o: nat, i: nat)
    requires Sane(env) && i <= |code| && PassAt(env, code, m, o, i).Ok?
    ensures CountAt(env, code, i).Ok?
    ensures var c, st := CountAt(env, code, i).value, PassAt(env, code, m, o, i).value.st;
            c.ops == |st.ops| && c.locals == |st.locals|
    decreases i
  {
    hide Step, CountStep;
    if i > 0 {
      CountsAgree(env, code, m, o, i - 1);
      PassBefore(env, code, m, o, i);
      var before := PassAt(env, code, m, o, i - 1).value;
      CountsStep(env, before.localMax, code, i - 1, before.st, CountAt(env, code, i - 1).value);
    }
  }

  /** The counting pass refuses no method that the pass after it would let through. */
  lemma {:induction false} CountingLoses(env: Env, code: seq<Instr>, m: nat, o: nat)
    requires Sane(env) && FullPass(env, code, m, o).Ok?
    ensures CountAll(env, code).Ok?
  {
    hide PassAt, CountAt;
    CountsAgree(env, code, m, o, |code|);
  }

  // ---------------------------------------------------------------- maxima

  /** The maxima cover the heights, and those of `a` are no greater than those of `b`. */
  predicate Below(a: Counts, b: Counts)
  {
    a.ops <= a.opMax <= b.opMax && a.locals <= a.localMax <= b.localMax && a.ops + a.locals <= a.journalMax <= b.journalMax
  }

  lemma ReachAgain(c: Counts, ops: nat)
    requires Below(c, c) && ops <= c.ops
    ensures Reach(Reach(c, ops, c.locals), ops + 1, c.locals) == Reach(c, ops + 1, c.locals)
  {
  }

  lemma CountStepReach(env: Env, instr: Instr, c: Counts)
    requires Sane(env) && Below(c, c) && CountStep(env, instr, c).Ok?
    ensures Below(c, CountStep(env, instr, c).value) && Below(CountStep(env, instr, c).value, CountStep(env, instr, c).value)
  {
    hide ReachLocal;
  }

  lemma {:induction false} CountsReach(env: Env, code: seq<Instr>, i: nat, n: nat)
    requires Sane(env) && i <= n <= |code| && CountAt(env, code, n).Ok?
    ensures CountAt(env, code, i).Ok? && Below(CountAt(env, code, i).value, CountAt(env, code, n).value)
    decreases n
  {
    hide CountStep;
    if n > 0 {
      CountsReach(env, code, n - 1, n - 1);
      CountStepReach(env, code[n - 1], CountAt(env, code, n - 1).value);
    }
    if i < n {
      CountsReach(env, code, i, n - 1);
    }
  }

  /** A step that fails, fails the pass. */
  lemma CountsStop(env: Env, code: seq<Instr>, i: nat)
    requires Sane(env) && i < |code| && CountAt(env, code, i).Ok?
    ensures CountAt(env, code, i + 1) == CountStep(env, code[i], CountAt(env, code, i).value)
    ensures CountAt(env, code, i + 1).Err? ==> CountAll(env, code).Err?
  {
    hide CountStep;
    if CountAt(env, code, |code|).Ok? {
      CountsReach(env, code, i + 1, |code|);
    }
  }

  /** The parameters are never removed. */
  lemma CountLocals(env: Env, instr: Instr, c: Counts)
    requires Sane(env) && |env.params| <= c.locals
    ensures CountStep(env, instr, c).Ok? ==> |env.params| <= CountStep(env, instr, c).value.locals
  {
    hide ReachLocal;
  }

  lemma CountsFrom(env: Env, code: seq<Instr>, i: nat)
    requires Sane(env) && 0 < i <= |code| && CountAt(env, code, i).Ok?
    ensures CountAt(env, code, i - 1).Ok? && CountStep(env, code[i - 1], CountAt(env, code, i - 1).value) == CountAt(env, code, i)
  {
    hide CountStep;
  }

  lemma OffsetStep(env: Env, instr: Instr, c: Counts)
    requires Sane(env) && CountStep(env, instr, c).Ok?
    ensures CountStep(env, instr, c).value.offsetMax ==
              if AddsLocal(instr) then Max(c.offsetMax, PadTo(env.size(instr.ty), env.align(instr.ty))) else c.offsetMax
  {
    hide PadTo, Max;
  }

  lemma LargestNext(env: Env, code: seq<Instr>, i: nat)
    requires Sane(env) && i < |code|
    ensures LargestLocal(env, code[..i + 1]) ==
              if AddsLocal(code[i]) then Max(LargestLocal(env, code[..i]), PadTo(env.size(code[i].ty), env.align(code[i].ty)))
              else LargestLocal(env, code[..i])
  {
    hide PadTo, Max;
    assert code[..i + 1][..i] == code[..i];
  }

  /** The offset maximum is the largest local. */
  lemma {:induction false} CountsOffset(env: Env, code: seq<Instr>, i: nat)
    requires Sane(env) && i <= |code| && CountAt(env, code, i).Ok?
    ensures CountAt(env, code, i).value.offsetMax == LargestLocal(env, code[..i])
    decreases i
  {
    hide CountAt, CountStep, LargestLocal, PadTo, Max;
    if i > 0 {
      CountsFrom(env, code, i);
      CountsOffset(env, code, i - 1);
      OffsetStep(env, code[i - 1], CountAt(env, code, i - 1).value);
      LargestNext(env, code, i - 1);
    } else {
      NothingCounted(env, code);
    }
  }

  lemma NothingCounted(env: Env, code: seq<Instr>)
    requires Sane(env)
    ensures CountAt(env, code, 0).Ok? && CountAt(env, code, 0).value.offsetMax == LargestLocal(env, code[..0])
  {
  }

  /** Whatever the instruction is about to push, there is a free entry for it in stacks that
      hold `opMax` operands and `localMax` locals, and in a journal of `journalMax` of both. */
  predicate Room(instr: Instr, ops: nat, locals: nat, opMax: nat, localMax: nat, journalMax: nat)
  {
    && ops <= opMax && locals <= localMax && ops + locals <= journalMax
    && (Pushes(instr) && !instr.Load? ==> ops < opMax && ops + locals < journalMax)
    && (instr.AllocLocal? ==> locals < localMax && ops + locals < journalMax)
    && (instr.CreateLocal? ==> locals < localMax)
  }

  /** No later pass ever pushes more than the counting pass has counted, not even in an
      instruction that fails after its push: the arrays made from the maxima are large enough. */
  lemma {:induction false} PushesFit(env: Env, code: seq<Instr>, m: nat, o: nat, i: nat)
    requires Sane(env) && i < |code| && PassAt(env, code, m, o, i).Ok? && CountAll(env, code).Ok?
    ensures var st, c := PassAt(env, code, m, o, i).value.st, CountAll(env, code).value;
            Room(code[i], |st.ops|, |st.locals|, c.opMax, c.localMax, c.journalMax)
  {
    hide PassAt, ReachLocal;
    CountsAgree(env, code, m, o, i);
    CountsReach(env, code, i, |code|);
    CountsReach(env, code, i + 1, |code|);
  }
}
