/** The frame layout: the passes with their offset maxima, and where locals and operands lie. */
module IlFrame {
  import opened IlStacks
  import opened IlLinear

  const RDX_MAX_ALIGNMENT: nat := 16

  function Max(a: nat, b: nat): nat
  {
    if a < b then b else a
  }

  /** What one pass carries along: the stacks and the two offset maxima. */
  datatype PassState = PassState(st: Stacks, localMax: nat, opMax: nat)

  /** Whether the instruction pushes an operand (a return past a barrier moves values, but
      pushes none). */
  predicate Pushes(instr: Instr)
  {
    instr.PushLocalRef? || instr.Load? || instr.Constant? || instr.PushEmpty? || instr.StartBarrier?
  }

  predicate AddsLocal(instr: Instr)
  {
    instr.AllocLocal? || instr.CreateLocal?
  }

  /** One instruction of a pass. Operands are placed below the greatest local depth so far. */
  function PassStep(env: Env, code: seq<Instr>, i: nat, ps: PassState): (r: Result<PassState>)
    requires Sane(env) && i < |code|
  {
    var st :- Step(Program(env, ps.localMax, code), i, ps.st);
    Ok(PassState(st,
                 if AddsLocal(code[i]) then Max(ps.localMax, LocalDepth(st.locals)) else ps.localMax,
                 if Pushes(code[i]) then Max(ps.opMax, OperandDepth(0, st.ops)) else ps.opMax))
  }

  /** The pass before instruction `i`, begun with the maxima of the pass before it. */
  function PassAt(env: Env, code: seq<Instr>, localMax: nat, opMax: nat, i: nat): (r: Result<PassState>)
    requires Sane(env) && i <= |code|
  {
    if i == 0 then Ok(PassState(Start(env), localMax, opMax))
    else
      var ps :- PassAt(env, code, localMax, opMax, i - 1);
      PassStep(env, code, i - 1, ps)
  }

  // ---------------------------------------------------------------- layout

  /** Locals other than parameters lie one below the other, aligned, and in an area of `base` bytes. */
  ghost predicate LocalsLaidOut(env: Env, locals: seq<Local>, base: nat)
    requires Sane(env)
  {
    && |env.params| <= |locals|
    && (forall k :: 0 <= k < |env.params| ==> locals[k].depth == 0)
    && (forall k :: |env.params| <= k < |locals| ==>
          env.size(locals[k].ty) <= locals[k].depth <= base && locals[k].depth % env.align(locals[k].ty) == 0)
    && (forall j, k :: |env.params| <= j < k < |locals| ==> locals[j].depth + env.size(locals[k].ty) <= locals[k].depth)
  }

  /** Operands lie one below the other, below the local area, none deeper than `limit`. */
  ghost predicate OpsLaidOut(ops: seq<Operand>, base: nat, limit: nat)
  {
    && (forall k :: 0 <= k < |ops| ==> base + ops[k].size <= ops[k].depth <= limit)
    && (forall j, k :: 0 <= j < k < |ops| ==> ops[j].depth + ops[k].size <= ops[k].depth)
  }

  lemma LocalsGrow(env: Env, locals: seq<Local>, base: nat, more: seq<Local>, base': nat)
    requires Sane(env) && LocalsLaidOut(env, locals, base) && |more| == |locals| + 1 && more[..|locals|] == locals
    requires var top := more[|locals|];
             LocalDepth(locals) + env.size(top.ty) <= top.depth && top.depth % env.align(top.ty) == 0 && top.depth <= base'
    requires base <= base'
    ensures LocalsLaidOut(env, more, base')
  {
    assert forall k :: 0 <= k < |locals| ==> more[k] == locals[k];
  }

  lemma LocalsKept(env: Env, locals: seq<Local>, base: nat, n: nat, base': nat)
    requires Sane(env) && LocalsLaidOut(env, locals, base) && |env.params| <= n <= |locals| && base <= base'
    ensures LocalsLaidOut(env, locals[..n], base')
  {
  }

  lemma OpsGrow(ops: seq<Operand>, base: nat, limit: nat, more: seq<Operand>, limit': nat)
    requires OpsLaidOut(ops, base, limit) && |more| == |ops| + 1 && more[..|ops|] == ops
    requires more[|ops|].depth == OperandDepth(base, ops) + more[|ops|].size && more[|ops|].depth <= limit' && limit <= limit'
    ensures OpsLaidOut(more, base, limit')
  {
    assert forall k :: 0 <= k < |ops| ==> more[k] == ops[k];
  }

  /** Keeping entries, livened or not, keeps the layout. */
  lemma OpsKept(ops: seq<Operand>, base: nat, limit: nat, fewer: seq<Operand>)
    requires OpsLaidOut(ops, base, limit) && |fewer| <= |ops|
    requires forall k :: 0 <= k < |fewer| ==> fewer[k].depth == ops[k].depth && fewer[k].size == ops[k].size
    ensures OpsLaidOut(fewer, base, limit)
  {
  }

  /** One step keeps operands laid out, with the limit raised to a pushed one. */
  lemma {:induction false} StepOpsLayout(env: Env, base: nat, code: seq<Instr>, i: nat, st: Stacks, limit: nat)
    requires Sane(env) && i < |code| && OpsLaidOut(st.ops, base, limit)
    requires Step(Program(env, base, code), i, st).Ok?
    ensures var after := Step(Program(env, base, code), i, st).value.ops;
            var limit' := if Pushes(code[i]) then Max(limit, OperandDepth(0, after)) else limit;
            OpsLaidOut(after, base, limit')
    ensures Pushes(code[i]) ==> Step(Program(env, base, code), i, st).value.ops != []
  {
    hide OpsLaidOut, PushOperand, ExecLocals, ExecExit, ExecReturn;
    var after := Step(Program(env, base, code), i, st).value.ops;
    if Pushes(code[i]) {
      var before := if code[i].Load? then Drop(st.ops, 1) else st.ops;
      assert |after| == |before| + 1 && after[..|before|] == before;
      OpsKept(st.ops, base, limit, before);
      OpsGrow(before, base, limit, after, Max(limit, OperandDepth(0, after)));
    } else {
      OpsKept(st.ops, base, limit, after);
    }
  }

  lemma {:induction false} StepLocalsLayout(env: Env, base: nat, code: seq<Instr>, i: nat, st: Stacks, area: nat)
    requires Sane(env) && i < |code| && LocalsLaidOut(env, st.locals, area)
    requires Step(Program(env, base, code), i, st).Ok?
    ensures var after := Step(Program(env, base, code), i, st).value.locals;
            LocalsLaidOut(env, after, if AddsLocal(code[i]) then Max(area, LocalDepth(after)) else area)
  {
    hide LocalsLaidOut, PushLocal, ExecOps;
    var after := Step(Program(env, base, code), i, st).value.locals;
    if AddsLocal(code[i]) {
      LocalsGrow(env, st.locals, area, after, Max(area, LocalDepth(after)));
    } else if code[i].RemoveLocal? {
      LocalsKept(env, st.locals, area, |st.locals| - 1, area);
    }
  }

  // ---------------------------------------------------------------- passes

  lemma {:induction false} EarlierPass(env: Env, code: seq<Instr>, m: nat, o: nat, i: nat, n: nat)
    requires Sane(env) && i <= n <= |code| && PassAt(env, code, m, o, n).Ok?
    ensures PassAt(env, code, m, o, i).Ok?
    ensures var a, b := PassAt(env, code, m, o, i).value, PassAt(env, code, m, o, n).value;
            m <= a.localMax <= b.localMax && o <= a.opMax <= b.opMax
    decreases n
  {
    hide Step;
    if i < n {
      EarlierPass(env, code, m, o, i, n - 1);
    } else if n > 0 {
      EarlierPass(env, code, m, o, n - 1, n - 1);
    }
  }

  /** A pass gets to `i` by a step from the instruction before. */
  lemma PassBefore(env: Env, code: seq<Instr>, m: nat, o: nat, i: nat)
    requires Sane(env) && 0 < i <= |code| && PassAt(env, code, m, o, i).Ok?
    ensures PassAt(env, code, m, o, i - 1).Ok?
    ensures var before := PassAt(env, code, m, o, i - 1).value;
            Step(Program(env, before.localMax, code), i - 1, before.st) == Ok(PassAt(env, code, m, o, i).value.st)
  {
    hide Step;
  }

  /** In every pass the locals are laid out in the area known so far. */
  lemma {:induction false} PassLocals(env: Env, code: seq<Instr>, m: nat, o: nat, i: nat)
    requires Sane(env) && i <= |code| && PassAt(env, code, m, o, i).Ok?
    ensures var ps := PassAt(env, code, m, o, i).value; LocalsLaidOut(env, ps.st.locals, ps.localMax)
    decreases i
  {
    if i > 0 {
      hide Step, LocalsLaidOut;
      PassLocals(env, code, m, o, i - 1);
      var ps := PassAt(env, code, m, o, i - 1).value;
      StepLocalsLayout(env, ps.localMax, code, i - 1, ps.st, ps.localMax);
    }
  }

  /** Where locals lie does not depend on where the operands are. */
  lemma {:induction false} SameLocals(env: Env, code: seq<Instr>, m: nat, o: nat, m': nat, o': nat, i: nat)
    requires Sane(env) && i <= |code| && PassAt(env, code, m, o, i).Ok? && PassAt(env, code, m', o', i).Ok?
    ensures PassAt(env, code, m, o, i).value.st.locals == PassAt(env, code, m', o', i).value.st.locals
    decreases i
  {
    hide Step, PassAt;
    if i > 0 {
      PassBefore(env, code, m, o, i);
      PassBefore(env, code, m', o', i);
      SameLocals(env, code, m, o, m', o', i - 1);
      var a, b := PassAt(env, code, m, o, i - 1).value, PassAt(env, code, m', o', i - 1).value;
      SameLocalsStep(env, code, a.localMax, b.localMax, i - 1, a.st, b.st);
    } else {
      FirstPassState(env, code, m, o);
      FirstPassState(env, code, m', o');
    }
  }

  lemma FirstPassState(env: Env, code: seq<Instr>, m: nat, o: nat)
    requires Sane(env)
    ensures PassAt(env, code, m, o, 0) == Ok(PassState(Start(env), m, o))
  {
  }

  lemma SameLocalsStep(env: Env, code: seq<Instr>, base: nat, base': nat, i: nat, a: Stacks, b: Stacks)
    requires Sane(env) && i < |code| && a.locals == b.locals
    requires Step(Program(env, base, code), i, a).Ok? && Step(Program(env, base', code), i, b).Ok?
    ensures Step(Program(env, base, code), i, a).value.locals == Step(Program(env, base', code), i, b).value.locals
  {
    hide ExecOps, PushLocal, Jumps, Target;
  }

  /** A pass that starts with an area large enough for all locals keeps it, and computes the
      stacks of the program with operands placed below that area. */
  lemma {:induction false} LaterPass(env: Env, code: seq<Instr>, m: nat, o: nat, base: nat, o': nat, i: nat)
    requires Sane(env) && i <= |code| && PassAt(env, code, m, o, |code|).Ok?
    requires PassAt(env, code, m, o, |code|).value.localMax <= base
    ensures PassAt(env, code, base, o', i).Ok? <==> StateAt(Program(env, base, code), i).Ok?
    ensures PassAt(env, code, base, o', i).Ok? ==>
              var ps := PassAt(env, code, base, o', i).value;
              && ps.localMax == base && ps.st == StateAt(Program(env, base, code), i).value
              && OpsLaidOut(ps.st.ops, base, ps.opMax) && LocalsLaidOut(env, ps.st.locals, base)
    decreases i
  {
    hide Step, OpsLaidOut, LocalsLaidOut;
    if i == 0 {
      StartLaidOut(env, base, o');
    } else {
      LaterPass(env, code, m, o, base, o', i - 1);
      if PassAt(env, code, base, o', i - 1).Ok? && StateAt(Program(env, base, code), i).Ok? {
        LaterPassStep(env, code, m, o, base, o', i);
      }
    }
  }

  lemma StartLaidOut(env: Env, base: nat, limit: nat)
    requires Sane(env)
    ensures LocalsLaidOut(env, Start(env).locals, base) && OpsLaidOut(Start(env).ops, base, limit)
  {
  }

  lemma {:induction false} LaterPassStep(env: Env, code: seq<Instr>, m: nat, o: nat, base: nat, o': nat, i: nat)
    requires Sane(env) && 0 < i <= |code| && PassAt(env, code, m, o, |code|).Ok?
    requires PassAt(env, code, m, o, |code|).value.localMax <= base
    requires PassAt(env, code, base, o', i).Ok? && PassAt(env, code, base, o', i - 1).Ok?
    requires var ps := PassAt(env, code, base, o', i - 1).value;
             ps.localMax == base && OpsLaidOut(ps.st.ops, base, ps.opMax) && LocalsLaidOut(env, ps.st.locals, base)
    ensures var ps := PassAt(env, code, base, o', i).value;
            ps.localMax == base && OpsLaidOut(ps.st.ops, base, ps.opMax) && LocalsLaidOut(env, ps.st.locals, base)
  {
    hide Step, OpsLaidOut;
    var before, after := PassAt(env, code, base, o', i - 1).value, PassAt(env, code, base, o', i).value;
    StepOpsLayout(env, base, code, i - 1, before.st, before.opMax);
    StepLocalsLayout(env, base, code, i - 1, before.st, base);
    EarlierPass(env, code, m, o, i, |code|);
    SameLocals(env, code, base, o', m, o, i);
    PassLocals(env, code, m, o, i);
    DepthInArea(env, after.st.locals, PassAt(env, code, m, o, i).value.localMax);
  }

  lemma DepthInArea(env: Env, locals: seq<Local>, area: nat)
    requires Sane(env) && LocalsLaidOut(env, locals, area)
    ensures LocalDepth(locals) <= area
  {
  }

  // ---------------------------------------------------------------- the frame

  /** After a push, the operand maximum covers the local area. */
  lemma {:induction false} PushCovers(env: Env, code: seq<Instr>, m: nat, o: nat, base: nat, o': nat, j: nat)
    requires Sane(env) && j < |code| && PassAt(env, code, m, o, |code|).Ok? && Pushes(code[j])
    requires PassAt(env, code, m, o, |code|).value.localMax <= base && PassAt(env, code, base, o', |code|).Ok?
    ensures base <= PassAt(env, code, base, o', |code|).value.opMax
  {
    hide Step, LocalsLaidOut;
    EarlierPass(env, code, base, o', j, |code|);
    EarlierPass(env, code, base, o', j + 1, |code|);
    LaterPass(env, code, m, o, base, o', j);
    var before, after := PassAt(env, code, base, o', j).value, PassAt(env, code, base, o', j + 1).value;
    StepOpsLayout(env, base, code, j, before.st, before.opMax);
    DepthOfTop(after.st.ops, base, after.opMax);
  }

  lemma DepthOfTop(ops: seq<Operand>, base: nat, limit: nat)
    requires OpsLaidOut(ops, base, limit) && ops != []
    ensures base <= OperandDepth(0, ops) <= limit
  {
  }

  /** In any pass, without a push the operand maximum stays what it was. */
  lemma {:induction false} NoPushes(env: Env, code: seq<Instr>, m: nat, o: nat, i: nat)
    requires Sane(env) && i <= |code| && PassAt(env, code, m, o, i).Ok?
    requires forall j :: 0 <= j < |code| ==> !Pushes(code[j])
    ensures PassAt(env, code, m, o, i).value.opMax == o
    decreases i
  {
    if i > 0 {
      hide Step;
      NoPushes(env, code, m, o, i - 1);
    }
  }
}
