/** Type safety: the types of the values that the machine really stores, along every run, against
    the types that the linear pass assigns. */
module IlTypes {
  import opened IlStacks
  import opened IlLinear
  import opened IlJumps
  import opened IlRuns
  import opened IlWritten

  // ---------------------------------------------------------------- what is stored

  /** What the machine has in an operand or in a local: a value, of the type that it was made
      with; the empty space of a shell; a reference to a local; a barrier, which is nothing. */
  datatype Slot = Holds(ty: nat) | Unwritten | Refers(index: nat) | Guard

  datatype Typed = Typed(m: Machine, slots: seq<Slot>, locals: seq<Slot>)

  /** What is read from an operand: through a reference, what the local has. */
  function Read(slots: seq<Slot>, locals: seq<Slot>, k: nat): (r: Slot)
  {
    if k >= |slots| then Unwritten
    else match slots[k]
      case Refers(index) => if index < |locals| then locals[index] else Unwritten
      case other => other
  }

  /** What an instruction pushes. Moving a value about does not change its type. */
  function Pushed(instr: Instr, slots: seq<Slot>, locals: seq<Slot>): Slot
  {
    match instr
    case Constant(ty, _) => Holds(ty)
    case PushLocalRef(index) => if index >= 0 then Refers(index) else Unwritten
    case Load => if slots == [] then Unwritten else Read(slots, locals, |slots| - 1)
    case StartBarrier(_) => Guard
    case _ => Unwritten
  }

  /** The `height` operands that an instruction leaves. A return past a barrier puts the values
      into the shells below it; other instructions keep some operands and may push one. */
  function SlotsAfter(instr: Instr, slots: seq<Slot>, locals: seq<Slot>, height: nat): (r: seq<Slot>)
    ensures |r| == height
  {
    if instr.Return? then
      seq(height, k requires 0 <= k < height =>
        if height - 1 - instr.count <= k < height - 1 then Read(slots, locals, k + 1 + instr.count)
        else if k < |slots| then slots[k] else Unwritten)
    else
      seq(height, k requires 0 <= k < height =>
        if k < |slots| && !(instr.Load? && k == height - 1) then slots[k] else Pushed(instr, slots, locals))
  }

  /** The locals: a new one has the default value of its type or what it is created from, and a
      move puts what it reads into the local that the topmost operand refers to. */
  function LocalsAfter(instr: Instr, slots: seq<Slot>, locals: seq<Slot>): seq<Slot>
  {
    match instr
    case AllocLocal(ty) => locals + [Holds(ty)]
    case CreateLocal(_) => locals + [if slots == [] then Unwritten else Read(slots, locals, |slots| - 1)]
    case RemoveLocal => if locals == [] then [] else locals[..|locals| - 1]
    case Move =>
      if |slots| >= 2 && slots[|slots| - 1].Refers? && slots[|slots| - 1].index < |locals|
      then locals[slots[|slots| - 1].index := Read(slots, locals, |slots| - 2)]
      else locals
    case _ => locals
  }

  /** One step: the stacks as before, and what is stored in them; a jump drops the topmost. */
  ghost predicate NextTyped(p: Program, a: Typed, b: Typed)
    requires Balanced(p)
  {
    && a.m.Running? && Next(p, a.m.pc, a.m.st, b.m)
    && (b.m.Running? ==>
          var instr, height := p.code[a.m.pc], |Step(p, a.m.pc, a.m.st).value.ops|;
          && |b.m.st.ops| <= height && |b.m.st.locals| <= |LocalsAfter(instr, a.slots, a.locals)|
          && b.slots == SlotsAfter(instr, a.slots, a.locals, height)[..|b.m.st.ops|]
          && b.locals == LocalsAfter(instr, a.slots, a.locals)[..|b.m.st.locals|])
  }

  function StartTyped(env: Env): Typed
  {
    Typed(Running(0, Start(env)), [], seq(|env.params|, j requires 0 <= j < |env.params| => Holds(env.params[j])))
  }

  ghost predicate IsTypedRun(p: Program, run: seq<Typed>)
    requires Balanced(p)
  {
    && run != [] && run[0] == StartTyped(p.env)
    && forall j :: 0 <= j < |run| - 1 ==> NextTyped(p, run[j], run[j + 1])
  }

  // ---------------------------------------------------------------- conversions

  /** A value of type `a` may be found where `b` is expected: a chain of conversions, each of them
      allowed in this direction, leads from one to the other. */
  ghost predicate Reaches(env: Env, a: nat, b: nat)
  {
    exists chain: seq<nat> :: IsChain(env, chain, a, b)
  }

  ghost predicate IsChain(env: Env, chain: seq<nat>, a: nat, b: nat)
  {
    && chain != [] && chain[0] == a && chain[|chain| - 1] == b
    && forall i :: 0 < i < |chain| ==> env.compatible(chain[i - 1], chain[i])
  }

  lemma ReachesSame(env: Env, a: nat)
    ensures Reaches(env, a, a)
  {
    assert IsChain(env, [a], a, a);
  }

  lemma ReachesOneMore(env: Env, a: nat, b: nat, c: nat)
    requires Reaches(env, a, b) && env.compatible(b, c)
    ensures Reaches(env, a, c)
  {
    var chain: seq<nat> :| IsChain(env, chain, a, b);
    var longer := chain + [c];
    forall i | 0 < i < |longer| ensures env.compatible(longer[i - 1], longer[i]) {
      if i < |chain| {
        assert longer[i - 1] == chain[i - 1] && longer[i] == chain[i];
      }
    }
    assert IsChain(env, longer, a, c);
  }

  /** Where conversions can be composed, one of them is enough. */
  lemma {:induction false} ReachesAtOnce(env: Env, a: nat, b: nat)
    requires Reaches(env, a, b)
    requires forall x: nat, y: nat, z: nat :: env.compatible(x, y) && env.compatible(y, z) ==> env.compatible(x, z)
    ensures a == b || env.compatible(a, b)
  {
    var chain: seq<nat> :| IsChain(env, chain, a, b);
    var i := 0;
    while i < |chain| - 1
      invariant 0 <= i < |chain| && (chain[i] == a || env.compatible(a, chain[i]))
    {
      i := i + 1;
      assert env.compatible(chain[i - 1], chain[i]);
    }
  }

  // ---------------------------------------------------------------- the invariant

  /** What is stored fits the type it has there. */
  ghost predicate Fits(env: Env, s: Slot, ty: nat)
  {
    s.Unwritten? || (s.Holds? && Reaches(env, s.ty, ty))
  }

  /** A reference is to a local there is, and has its type. */
  predicate RefOk(v: Operand, locals: seq<Local>)
  {
    v.kind.LocalRef? ==> v.index < |locals| && locals[v.index].ty == v.ty
  }

  ghost predicate SlotOk(env: Env, v: Operand, s: Slot)
  {
    match v.kind
    case Value => Fits(env, s, v.ty)
    case Shell => Fits(env, s, v.ty)
    case LocalRef => s == Refers(v.index)
    case Barrier => s == Guard
  }

  ghost predicate SlotsOk(env: Env, ops: seq<Operand>, slots: seq<Slot>)
  {
    |slots| == |ops| && forall k :: 0 <= k < |ops| ==> SlotOk(env, ops[k], slots[k])
  }

  predicate RefsOk(ops: seq<Operand>, locals: seq<Local>)
  {
    forall k :: 0 <= k < |ops| ==> RefOk(ops[k], locals)
  }

  ghost predicate LocalsOk(env: Env, locals: seq<Local>, stored: seq<Slot>)
  {
    |stored| == |locals| && forall k :: 0 <= k < |locals| ==> Fits(env, stored[k], locals[k].ty)
  }

  /** Operands and locals have what the linear pass says they have. */
  ghost predicate WellTyped(env: Env, ops: seq<Operand>, locals: seq<Local>, slots: seq<Slot>, stored: seq<Slot>)
  {
    SlotsOk(env, ops, slots) && RefsOk(ops, locals) && LocalsOk(env, locals, stored)
  }

  /** What is read from an operand fits its type. */
  lemma ReadFits(env: Env, ops: seq<Operand>, locals: seq<Local>, slots: seq<Slot>, stored: seq<Slot>, k: nat)
    requires WellTyped(env, ops, locals, slots, stored) && k < |ops| && Returnable(ops[k])
    ensures Fits(env, Read(slots, stored, k), ops[k].ty)
  {
    hide Reaches;
    assert SlotOk(env, ops[k], slots[k]) && RefOk(ops[k], locals);
  }

  lemma FitsAfter(env: Env, s: Slot, a: nat, b: nat)
    requires Fits(env, s, a) && env.compatible(a, b)
    ensures Fits(env, s, b)
  {
    hide Reaches;
    if s.Holds? {
      ReachesOneMore(env, s.ty, a, b);
    }
  }

  // ---------------------------------------------------------------- one instruction

  /** The operands are some of those before, from the bottom. */
  lemma KeepsSome(env: Env, instr: Instr, ops: seq<Operand>, slots: seq<Slot>, stored: seq<Slot>, n: nat)
    requires SlotsOk(env, ops, slots) && n <= |ops| && !instr.Return? && !instr.Load?
    ensures SlotsOk(env, ops[..n], SlotsAfter(instr, slots, stored, n))
  {
    hide SlotOk;
  }

  lemma RefsKept(ops: seq<Operand>, locals: seq<Local>, n: nat)
    requires RefsOk(ops, locals) && n <= |ops|
    ensures RefsOk(ops[..n], locals)
  {
    hide RefOk;
  }

  /** One operand is pushed. */
  lemma PushesOne(env: Env, instr: Instr, ops: seq<Operand>, slots: seq<Slot>, stored: seq<Slot>, after: seq<Operand>)
    requires SlotsOk(env, ops, slots) && !instr.Return? && !instr.Load?
    requires |after| == |ops| + 1 && after[..|ops|] == ops && SlotOk(env, after[|ops|], Pushed(instr, slots, stored))
    ensures SlotsOk(env, after, SlotsAfter(instr, slots, stored, |after|))
  {
    hide SlotOk;
    forall k | 0 <= k < |after| ensures SlotOk(env, after[k], SlotsAfter(instr, slots, stored, |after|)[k]) {
      if k < |ops| {
        assert after[k] == after[..|ops|][k];
      }
    }
  }

  lemma RefsPushed(ops: seq<Operand>, locals: seq<Local>, after: seq<Operand>)
    requires RefsOk(ops, locals) && |after| == |ops| + 1 && after[..|ops|] == ops && RefOk(after[|ops|], locals)
    ensures RefsOk(after, locals)
  {
    hide RefOk;
    forall k | 0 <= k < |after| ensures RefOk(after[k], locals) {
      if k < |ops| {
        assert after[k] == after[..|ops|][k];
      }
    }
  }

  /** References, barriers, constants and shells. */
  lemma {:induction false} PushTyped(env: Env, base: nat, instr: Instr, i: nat, after: bool, ops: seq<Operand>, locals: seq<Local>,
                                     slots: seq<Slot>, stored: seq<Slot>)
    requires Sane(env) && WellTyped(env, ops, locals, slots, stored)
    requires instr.PushLocalRef? || instr.Constant? || instr.PushEmpty? || instr.StartBarrier?
    requires ExecOps(env, base, instr, i, after, ops, locals).Ok?
    ensures var ops' := ExecOps(env, base, instr, i, after, ops, locals).value;
            WellTyped(env, ops', locals, SlotsAfter(instr, slots, stored, |ops'|), stored)
  {
    hide PushOperand, SlotsOk, RefsOk, LocalsOk, SlotsAfter, Reaches, IsConstant;
    var ops' := ExecOps(env, base, instr, i, after, ops, locals).value;
    if instr.Constant? {
      ReachesSame(env, instr.ty);
    }
    PushesOne(env, instr, ops, slots, stored, ops');
    RefsPushed(ops, locals, ops');
  }

  lemma {:induction false} LoadTyped(env: Env, base: nat, i: nat, after: bool, ops: seq<Operand>, locals: seq<Local>,
                                     slots: seq<Slot>, stored: seq<Slot>)
    requires Sane(env) && WellTyped(env, ops, locals, slots, stored) && ExecOps(env, base, Load, i, after, ops, locals).Ok?
    ensures var ops' := ExecOps(env, base, Load, i, after, ops, locals).value;
            WellTyped(env, ops', locals, SlotsAfter(Load, slots, stored, |ops'|), stored)
  {
    hide PushOperand, RefsOk, LocalsOk, Reaches, RefOk, Fits;
    var ops' := ExecOps(env, base, Load, i, after, ops, locals).value;
    var n := |ops| - 1;
    LoadedFits(env, ops, locals, slots, stored);
    RefsKept(ops, locals, n);
    assert RefOk(ops'[n], locals) by { NoRef(ops'[n], locals); }
    RefsPushed(ops[..n], locals, ops');
    forall k | 0 <= k < |ops'| ensures SlotOk(env, ops'[k], SlotsAfter(Load, slots, stored, |ops'|)[k]) {
      if k < n {
        assert ops'[k] == ops'[..n][k] == ops[k];
      }
    }
  }

  lemma NoRef(v: Operand, locals: seq<Local>)
    requires !v.kind.LocalRef?
    ensures RefOk(v, locals)
  {
  }

  lemma LoadedFits(env: Env, ops: seq<Operand>, locals: seq<Local>, slots: seq<Slot>, stored: seq<Slot>)
    requires WellTyped(env, ops, locals, slots, stored) && ops != [] && Top(ops, 0).kind.LocalRef?
    ensures Top(ops, 0).index < |locals| && Fits(env, Pushed(Load, slots, stored), locals[Top(ops, 0).index].ty)
  {
    hide Reaches;
    ReadFits(env, ops, locals, slots, stored, |ops| - 1);
    assert RefOk(ops[|ops| - 1], locals);
  }

  lemma {:induction false} MoveTyped(env: Env, base: nat, i: nat, after: bool, ops: seq<Operand>, locals: seq<Local>,
                                     slots: seq<Slot>, stored: seq<Slot>)
    requires Sane(env) && WellTyped(env, ops, locals, slots, stored) && ExecOps(env, base, Move, i, after, ops, locals).Ok?
    ensures var ops' := ExecOps(env, base, Move, i, after, ops, locals).value;
            WellTyped(env, ops', locals, SlotsAfter(Move, slots, stored, |ops'|), LocalsAfter(Move, slots, stored))
  {
    hide Fits, SlotsAfter, SlotsOk, RefsOk, LocalsOk;
    KeepsSome(env, Move, ops, slots, stored, |ops| - 2);
    RefsKept(ops, locals, |ops| - 2);
    ReadFits(env, ops, locals, slots, stored, |ops| - 2);
    FitsAfter(env, Read(slots, stored, |ops| - 2), Top(ops, 1).ty, Top(ops, 0).ty);
    MovedOk(env, ops, locals, slots, stored);
  }

  lemma MovedOk(env: Env, ops: seq<Operand>, locals: seq<Local>, slots: seq<Slot>, stored: seq<Slot>)
    requires WellTyped(env, ops, locals, slots, stored) && |ops| >= 2 && Top(ops, 0).kind.LocalRef?
    requires Fits(env, Read(slots, stored, |ops| - 2), Top(ops, 0).ty)
    ensures LocalsOk(env, locals, LocalsAfter(Move, slots, stored))
  {
    hide Fits;
    var last := |ops| - 1;
    assert SlotOk(env, ops[last], slots[last]) && RefOk(ops[last], locals);
  }

  lemma {:induction false} CreateTyped(env: Env, base: nat, t: nat, i: nat, after: bool, ops: seq<Operand>, locals: seq<Local>,
                                       slots: seq<Slot>, stored: seq<Slot>, locals': seq<Local>)
    requires Sane(env) && WellTyped(env, ops, locals, slots, stored) && ExecOps(env, base, CreateLocal(t), i, after, ops, locals).Ok?
    requires ExecLocals(env, CreateLocal(t), i, ops, locals) == Ok(locals')
    ensures var ops' := ExecOps(env, base, CreateLocal(t), i, after, ops, locals).value;
            WellTyped(env, ops', locals', SlotsAfter(CreateLocal(t), slots, stored, |ops'|), LocalsAfter(CreateLocal(t), slots, stored))
  {
    hide PushLocal, Fits, Read;
    ReadFits(env, ops, locals, slots, stored, |ops| - 1);
    AddedOk(env, locals, stored, locals', Read(slots, stored, |slots| - 1));
  }

  lemma AddedOk(env: Env, locals: seq<Local>, stored: seq<Slot>, locals': seq<Local>, s: Slot)
    requires LocalsOk(env, locals, stored) && |locals'| == |locals| + 1 && locals'[..|locals|] == locals
    requires Fits(env, s, locals'[|locals|].ty)
    ensures LocalsOk(env, locals', stored + [s])
  {
    hide Fits;
    forall k | 0 <= k < |locals'| ensures Fits(env, (stored + [s])[k], locals'[k].ty) {
      if k < |locals| {
        assert locals'[k] == locals'[..|locals|][k];
      }
    }
  }

  /** Allocated and removed, with no operands. */
  lemma {:induction false} AllocTyped(env: Env, instr: Instr, i: nat, locals: seq<Local>, slots: seq<Slot>, stored: seq<Slot>, locals': seq<Local>)
    requires Sane(env) && LocalsOk(env, locals, stored) && (instr.AllocLocal? || instr.RemoveLocal?)
    requires ExecLocals(env, instr, i, [], locals) == Ok(locals')
    ensures LocalsOk(env, locals', LocalsAfter(instr, slots, stored))
  {
    hide PushLocal, Fits;
    if instr.AllocLocal? {
      OwnFits(env, instr.ty);
      AddedOk(env, locals, stored, locals', Holds(instr.ty));
    }
  }

  lemma OwnFits(env: Env, t: nat)
    ensures Fits(env, Holds(t), t)
  {
    hide Reaches;
    ReachesSame(env, t);
  }

  /** A shell that becomes a value keeps what it has. */
  lemma {:induction false} EndTyped(env: Env, base: nat, i: nat, after: bool, ops: seq<Operand>, locals: seq<Local>,
                                    slots: seq<Slot>, stored: seq<Slot>)
    requires Sane(env) && WellTyped(env, ops, locals, slots, stored) && ExecOps(env, base, EndBarrier, i, after, ops, locals).Ok?
    ensures var ops' := ExecOps(env, base, EndBarrier, i, after, ops, locals).value;
            WellTyped(env, ops', locals, SlotsAfter(EndBarrier, slots, stored, |ops'|), stored)
  {
    hide Fits, LocalsOk;
    var ops' := ExecOps(env, base, EndBarrier, i, after, ops, locals).value;
    forall k | 0 <= k < |ops'| ensures SlotOk(env, ops'[k], SlotsAfter(EndBarrier, slots, stored, |ops'|)[k]) && RefOk(ops'[k], locals) {
      assert SlotOk(env, ops[k], slots[k]) && RefOk(ops[k], locals);
    }
  }

  lemma {:induction false} ReturnTyped(env: Env, n: int, ops: seq<Operand>, locals: seq<Local>, slots: seq<Slot>, stored: seq<Slot>)
    requires WellTyped(env, ops, locals, slots, stored) && ExecReturn(env, n, ops).Ok?
    ensures var ops' := ExecReturn(env, n, ops).value;
            WellTyped(env, ops', locals, SlotsAfter(Return(n), slots, stored, |ops'|), stored)
  {
    hide LocalsOk, Fits, SlotOk, Read;
    var ops' := ExecReturn(env, n, ops).value;
    RefsKept(ops, locals, |ops'|);
    forall k | 0 <= k < |ops'| ensures SlotOk(env, ops'[k], SlotsAfter(Return(n), slots, stored, |ops'|)[k]) {
      assert ops'[k] == ops[k];
      if |ops'| - 1 - n <= k < |ops'| - 1 {
        ShellWritten(env, n, ops, locals, slots, stored, |ops'| - 2 - k);
      }
    }
  }

  lemma ShellWritten(env: Env, n: nat, ops: seq<Operand>, locals: seq<Local>, slots: seq<Slot>, stored: seq<Slot>, j: nat)
    requires WellTyped(env, ops, locals, slots, stored) && j < n && n + 1 + j < |ops| && ReturnFits(env, ops, n, j)
    ensures SlotOk(env, Top(ops, n + 1 + j), Read(slots, stored, |ops| - 1 - j))
  {
    hide Fits, WellTyped, Read;
    ReadFits(env, ops, locals, slots, stored, |ops| - 1 - j);
    FitsAfter(env, Read(slots, stored, |ops| - 1 - j), Top(ops, j).ty, Top(ops, n + 1 + j).ty);
  }

  /** The instructions that only take operands away. */
  lemma {:induction false} TakeTyped(env: Env, base: nat, instr: Instr, i: nat, after: bool, ops: seq<Operand>, locals: seq<Local>,
                                     slots: seq<Slot>, stored: seq<Slot>)
    requires Sane(env) && WellTyped(env, ops, locals, slots, stored) && ExecOps(env, base, instr, i, after, ops, locals).Ok?
    requires instr.Pop? || instr.Jump? || instr.JumpIfTrue? || instr.JumpIfFalse? || instr.AllocLocal? || instr.RemoveLocal?
    ensures var ops' := ExecOps(env, base, instr, i, after, ops, locals).value;
            SlotsOk(env, ops', SlotsAfter(instr, slots, stored, |ops'|)) && RefsOk(ops', locals)
  {
    hide SlotsOk, RefsOk, SlotsAfter, LocalsOk;
    var ops' := ExecOps(env, base, instr, i, after, ops, locals).value;
    assert ops' == ops[..|ops'|];
    KeepsSome(env, instr, ops, slots, stored, |ops'|);
    RefsKept(ops, locals, |ops'|);
  }

  /** One instruction, whichever it is, keeps what is stored in order. */
  lemma {:induction false} StepTyped(p: Program, i: nat, slots: seq<Slot>, stored: seq<Slot>)
    requires Balanced(p) && i < |p.code| && WellTyped(p.env, Ops(p, i), Locals(p, i), slots, stored)
    ensures WellTyped(p.env, Ops(p, i + 1), Locals(p, i + 1), SlotsAfter(p.code[i], slots, stored, |Ops(p, i + 1)|),
                      LocalsAfter(p.code[i], slots, stored))
  {
    hide Ops, Locals, Balanced, ExecOps, ExecLocals, SlotsAfter, SlotsOk, RefsOk, LocalsOk, LocalsAfter, Jumps, Target;
    StepAt(p, i);
    IsSane(p);
    var ops, locals, after := Ops(p, i), Locals(p, i), i > 0 && p.code[i - 1].Return?;
    match p.code[i] {
      case AllocLocal(_) =>
        NoOperands(p, i);
        AllocTyped(p.env, p.code[i], i, locals, slots, stored, Locals(p, i + 1));
        TakenTyped(p, i, slots, stored);
      case RemoveLocal =>
        NoOperands(p, i);
        AllocTyped(p.env, p.code[i], i, locals, slots, stored, Locals(p, i + 1));
        TakenTyped(p, i, slots, stored);
      case CreateLocal(t) =>
        CreateTyped(p.env, p.base, t, i, after, ops, locals, slots, stored, Locals(p, i + 1));
      case Load =>
        LoadTyped(p.env, p.base, i, after, ops, locals, slots, stored);
        LocalsStay(p, i, slots, stored);
      case Move =>
        MoveTyped(p.env, p.base, i, after, ops, locals, slots, stored);
        SameLocalsAt(p, i);
      case EndBarrier =>
        EndTyped(p.env, p.base, i, after, ops, locals, slots, stored);
        LocalsStay(p, i, slots, stored);
      case Return(n) =>
        ReturnedTyped(p, i, n, slots, stored);
        LocalsStay(p, i, slots, stored);
      case Pop =>
        TakenTyped(p, i, slots, stored);
        LocalsStay(p, i, slots, stored);
      case Jump(_) =>
        TakenTyped(p, i, slots, stored);
        LocalsStay(p, i, slots, stored);
      case JumpIfTrue(_) =>
        TakenTyped(p, i, slots, stored);
        LocalsStay(p, i, slots, stored);
      case JumpIfFalse(_) =>
        TakenTyped(p, i, slots, stored);
        LocalsStay(p, i, slots, stored);
      case _ =>
        PushTyped(p.env, p.base, p.code[i], i, after, ops, locals, slots, stored);
        LocalsStay(p, i, slots, stored);
    }
  }

  lemma IsSane(p: Program)
    requires Balanced(p)
    ensures Sane(p.env)
  {
  }

  lemma SameLocalsAt(p: Program, i: nat)
    requires Balanced(p) && i < |p.code| && !p.code[i].AllocLocal? && !p.code[i].CreateLocal? && !p.code[i].RemoveLocal?
    ensures Locals(p, i + 1) == Locals(p, i)
  {
    hide Ops, Locals, Balanced;
    StepAt(p, i);
  }

  lemma LocalsStay(p: Program, i: nat, slots: seq<Slot>, stored: seq<Slot>)
    requires Balanced(p) && i < |p.code|
    requires !p.code[i].AllocLocal? && !p.code[i].CreateLocal? && !p.code[i].RemoveLocal? && !p.code[i].Move?
    ensures Locals(p, i + 1) == Locals(p, i) && LocalsAfter(p.code[i], slots, stored) == stored
  {
    hide Ops, Locals, Balanced;
    SameLocalsAt(p, i);
  }

  lemma NoOperands(p: Program, i: nat)
    requires Balanced(p) && i < |p.code| && (p.code[i].AllocLocal? || p.code[i].RemoveLocal?)
    ensures Ops(p, i) == [] && Ops(p, i + 1) == [] && ExecLocals(p.env, p.code[i], i, [], Locals(p, i)) == Ok(Locals(p, i + 1))
  {
    hide Ops, Locals, Balanced, PushLocal;
    StepAt(p, i);
  }

  lemma TakenTyped(p: Program, i: nat, slots: seq<Slot>, stored: seq<Slot>)
    requires Balanced(p) && i < |p.code| && WellTyped(p.env, Ops(p, i), Locals(p, i), slots, stored)
    requires var instr := p.code[i];
             instr.Pop? || instr.Jump? || instr.JumpIfTrue? || instr.JumpIfFalse? || instr.AllocLocal? || instr.RemoveLocal?
    ensures SlotsOk(p.env, Ops(p, i + 1), SlotsAfter(p.code[i], slots, stored, |Ops(p, i + 1)|))
    ensures RefsOk(Ops(p, i + 1), Locals(p, i)) && (Ops(p, i + 1) == [] ==> RefsOk(Ops(p, i + 1), Locals(p, i + 1)))
  {
    hide Ops, Locals, Balanced, ExecOps, ExecLocals, SlotsAfter, SlotsOk, LocalsOk, Jumps, Target;
    StepAt(p, i);
    IsSane(p);
    TakeTyped(p.env, p.base, p.code[i], i, i > 0 && p.code[i - 1].Return?, Ops(p, i), Locals(p, i), slots, stored);
  }

  lemma ReturnedTyped(p: Program, i: nat, n: int, slots: seq<Slot>, stored: seq<Slot>)
    requires Balanced(p) && i < |p.code| && p.code[i] == Return(n) && WellTyped(p.env, Ops(p, i), Locals(p, i), slots, stored)
    ensures WellTyped(p.env, Ops(p, i + 1), Locals(p, i), SlotsAfter(p.code[i], slots, stored, |Ops(p, i + 1)|), stored)
  {
    hide Ops, Locals, Balanced, ExecReturn, ExecExit, SlotsAfter, LocalsOk, Jumps, Target;
    StepAt(p, i);
    IsSane(p);
    if n == |Ops(p, i)| {
      assert Ops(p, i + 1) == [] by { ExitLeavesNothing(p.env, n, Ops(p, i)); }
      NothingTyped(p.env, p.code[i], Locals(p, i), slots, stored);
    } else {
      ReturnTyped(p.env, n, Ops(p, i), Locals(p, i), slots, stored);
    }
  }

  lemma ExitLeavesNothing(env: Env, n: nat, ops: seq<Operand>)
    requires n == |ops| && env.stackAlign >= 1 && ExecExit(env, n, ops).Ok?
    ensures ExecExit(env, n, ops).value == []
  {
  }

  lemma NothingTyped(env: Env, instr: Instr, locals: seq<Local>, slots: seq<Slot>, stored: seq<Slot>)
    ensures SlotsOk(env, [], SlotsAfter(instr, slots, stored, 0)) && RefsOk([], locals)
  {
  }

  // ---------------------------------------------------------------- landing

  /** References are right before every instruction. */
  lemma {:induction false} RefsAt(p: Program, i: nat)
    requires Balanced(p) && i <= |p.code|
    ensures RefsOk(Ops(p, i), Locals(p, i))
    decreases i
  {
    hide Ops, Locals, Balanced, SlotsAfter, LocalsAfter, SlotsOk, LocalsOk;
    if i == 0 {
      StartRefs(p);
    } else {
      RefsAt(p, i - 1);
      SomeSlots(p.env, Ops(p, i - 1));
      SomeStored(p.env, Locals(p, i - 1));
      StepTyped(p, i - 1, SlotsFor(Ops(p, i - 1)), StoredFor(Locals(p, i - 1)));
    }
  }

  lemma StartRefs(p: Program)
    requires Balanced(p)
    ensures RefsOk(Ops(p, 0), Locals(p, 0))
  {
  }

  /** Something that could be stored. */
  function SlotsFor(ops: seq<Operand>): seq<Slot>
  {
    seq(|ops|, k requires 0 <= k < |ops| =>
      match ops[k].kind case LocalRef => Refers(ops[k].index) case Barrier => Guard case _ => Unwritten)
  }

  function StoredFor(locals: seq<Local>): seq<Slot>
  {
    seq(|locals|, _ => Unwritten)
  }

  lemma SomeSlots(env: Env, ops: seq<Operand>)
    ensures SlotsOk(env, ops, SlotsFor(ops))
  {
  }

  lemma SomeStored(env: Env, locals: seq<Local>)
    ensures LocalsOk(env, locals, StoredFor(locals))
  {
  }

  lemma PartTyped(env: Env, ops: seq<Operand>, locals: seq<Local>, slots: seq<Slot>, stored: seq<Slot>, a: nat, b: nat)
    requires WellTyped(env, ops, locals, slots, stored) && a <= |ops| && b <= |locals| && RefsOk(ops[..a], locals[..b])
    ensures WellTyped(env, ops[..a], locals[..b], slots[..a], stored[..b])
  {
    hide SlotOk, Fits;
  }

  /** The machine is in shape, and everything stored has the type it should have. */
  ghost predicate TypesHold(p: Program, t: Typed)
    requires Balanced(p)
  {
    InShape(p, t.m) && (t.m.Running? ==> WellTyped(p.env, Ops(p, t.m.pc), Locals(p, t.m.pc), t.slots, t.locals))
  }

  lemma {:induction false} LandsTyped(p: Program, s: nat, slots: seq<Slot>, stored: seq<Slot>, m: Machine)
    requires Balanced(p) && Accepted(p) && s < |p.code| && !Stray(p, s) && Jumps(p, s, Ops(p, s)) && Target(p, s).Some?
    requires WellTyped(p.env, Ops(p, s + 1), Locals(p, s + 1), slots, stored)
    requires Lands(p, Target(p, s).value, Stacks(Ops(p, s + 1), Locals(p, s + 1)), m)
    ensures |m.st.ops| <= |slots| && |m.st.locals| <= |stored|
    ensures TypesHold(p, Typed(m, slots[..|m.st.ops|], stored[..|m.st.locals|]))
  {
    hide Ops, Locals, Balanced, Jumps, Target, Accepted, Stray, SlotOk, RefOk, Fits, InRange;
    LandsInShape(p, s, m);
    RefsAt(p, m.pc);
    PartTyped(p.env, Ops(p, s + 1), Locals(p, s + 1), slots, stored, |m.st.ops|, |m.st.locals|);
  }

  // ---------------------------------------------------------------- runs

  lemma {:induction false} NextTypesHold(p: Program, a: Typed, b: Typed)
    requires Balanced(p) && Accepted(p) && TypesHold(p, a) && NextTyped(p, a, b) && !AtStray(p, a.m)
    ensures TypesHold(p, b)
  {
    hide Ops, Locals, Balanced, Target, Accepted, Stray, Step, Lands, SlotsAfter, LocalsAfter, Jumps, SlotsOk, RefsOk, LocalsOk;
    if b.m.Running? {
      var pc := a.m.pc;
      StepInShape(p, pc);
      StepTyped(p, pc, a.slots, a.locals);
      var height := |Ops(p, pc + 1)|;
      var slots, stored := SlotsAfter(p.code[pc], a.slots, a.locals, height), LocalsAfter(p.code[pc], a.slots, a.locals);
      SizesHold(p.env, Ops(p, pc + 1), Locals(p, pc + 1), slots, stored);
      StepGoes(p, pc, b.m);
      if b.m == Running(pc + 1, Stacks(Ops(p, pc + 1), Locals(p, pc + 1))) {
        assert slots[..height] == slots && stored[..|stored|] == stored;
      } else {
        LandsTyped(p, pc, slots, stored, b.m);
      }
    }
  }

  lemma SizesHold(env: Env, ops: seq<Operand>, locals: seq<Local>, slots: seq<Slot>, stored: seq<Slot>)
    requires WellTyped(env, ops, locals, slots, stored)
    ensures |slots| == |ops| && |stored| == |locals|
  {
  }

  lemma StartTypesHold(p: Program)
    requires Balanced(p)
    ensures TypesHold(p, StartTyped(p.env))
  {
    hide Reaches;
    StartInShape(p);
    forall t: nat ensures Reaches(p.env, t, t) {
      ReachesSame(p.env, t);
    }
  }

  /** Type safety: along a run, up to and at the first stray jump, every value stored in an operand
      or in a local is of a type from which allowed conversions lead to the type that the compiler
      has assigned there. */
  lemma {:induction false} RunsKeepTypes(p: Program, run: seq<Typed>, j: nat)
    requires Balanced(p) && Accepted(p) && IsTypedRun(p, run) && j < |run|
    requires forall k :: 0 <= k < j ==> !AtStray(p, run[k].m)
    ensures TypesHold(p, run[j])
    decreases j
  {
    hide Balanced, Accepted, AtStray, TypesHold, NextTyped, StartTyped;
    if j == 0 {
      StartTypesHold(p);
    } else {
      RunsKeepTypes(p, run, j - 1);
      assert NextTyped(p, run[j - 1], run[j]);
      NextTypesHold(p, run[j - 1], run[j]);
    }
  }

  // ---------------------------------------------------------------- where types matter

  /** The condition of a jump is a value of the boolean type. */
  lemma {:induction false} ConditionsAreBool(p: Program, t: Typed)
    requires Balanced(p) && TypesHold(p, t) && t.m.Running? && t.m.pc < |p.code|
    requires p.code[t.m.pc].JumpIfTrue? || p.code[t.m.pc].JumpIfFalse?
    ensures t.slots != [] && Fits(p.env, t.slots[|t.slots| - 1], p.env.boolType)
  {
    hide Ops, Locals, Balanced, Fits;
    StepAt(p, t.m.pc);
    assert SlotOk(p.env, Top(Ops(p, t.m.pc), 0), t.slots[|t.slots| - 1]);
  }

  /** What is returned to the caller fits the declared results, one by one. */
  lemma {:induction false} ResultsFit(p: Program, t: Typed, k: nat)
    requires Balanced(p) && TypesHold(p, t) && t.m.Running? && t.m.pc < |p.code|
    requires p.code[t.m.pc].Return? && p.code[t.m.pc].count == |t.m.st.ops|
    ensures |t.slots| == |p.env.results|
    ensures k < |t.slots| ==> Fits(p.env, Read(t.slots, t.locals, k), p.env.results[k])
  {
    hide Ops, Locals, Balanced, Fits, Read;
    StepAt(p, t.m.pc);
    IsSane(p);
    var ops := Ops(p, t.m.pc);
    assert ExecExit(p.env, |ops|, ops).Ok?;
    if k < |t.slots| {
      ReadFits(p.env, ops, Locals(p, t.m.pc), t.slots, t.locals, k);
      FitsAfter(p.env, Read(t.slots, t.locals, k), ops[k].ty, p.env.results[k]);
    }
  }

  /** Only constants that their type admits are loaded. */
  lemma {:induction false} ConstantsFit(p: Program, i: nat, ty: nat, value: int)
    requires Balanced(p) && i < |p.code| && p.code[i] == Constant(ty, value)
    ensures match p.env.constants(ty)
            case NoConstants => false
            case Integers(lo, hi) => lo <= value <= hi
            case Enumerants(lo, hi, isEnumerant) => lo <= value <= hi && isEnumerant(value)
  {
    hide Ops, Locals, Balanced, PushOperand;
    StepAt(p, i);
  }

  /** Types hold, where a jump looks at a value and where values leave the method, too. */
  ghost predicate Safe(p: Program, t: Typed)
    requires Balanced(p)
  {
    && TypesHold(p, t)
    && (t.m.Running? && t.m.pc < |p.code| ==>
          match p.code[t.m.pc]
          case JumpIfTrue(_) => t.slots != [] && Fits(p.env, t.slots[|t.slots| - 1], p.env.boolType)
          case JumpIfFalse(_) => t.slots != [] && Fits(p.env, t.slots[|t.slots| - 1], p.env.boolType)
          case Return(n) => n == |t.slots| ==> n == |p.env.results| && forall k :: 0 <= k < n ==> Fits(p.env, Read(t.slots, t.locals, k), p.env.results[k])
          case _ => true)
  }

  lemma {:induction false} HoldingIsSafe(p: Program, t: Typed)
    requires Balanced(p) && TypesHold(p, t)
    ensures Safe(p, t)
  {
    hide Ops, Locals, Balanced, Fits, Read, SlotOk, RefsOk, LocalsOk;
    if t.m.Running? && t.m.pc < |p.code| {
      if p.code[t.m.pc].JumpIfTrue? || p.code[t.m.pc].JumpIfFalse? {
        ConditionsAreBool(p, t);
      } else if p.code[t.m.pc].Return? && p.code[t.m.pc].count == |t.slots| {
        ResultsFit(p, t, 0);
        forall k | 0 <= k < |t.slots| ensures Fits(p.env, Read(t.slots, t.locals, k), p.env.results[k]) {
          ResultsFit(p, t, k);
        }
      }
    }
  }

  ghost predicate AlwaysSafe(p: Program)
    requires Balanced(p)
  {
    forall run: seq<Typed> :: IsTypedRun(p, run) ==> Safe(p, run[|run| - 1])
  }

  lemma TypedPrefix(p: Program, run: seq<Typed>, k: nat)
    requires Balanced(p) && IsTypedRun(p, run)
    ensures run != [] && (0 < k <= |run| ==> IsTypedRun(p, run[..k]))
  {
    hide NextTyped, Balanced, StartTyped;
  }

  /** Without stray jumps, all runs are safe. */
  lemma {:induction false} NoStrayJumpsSafe(p: Program)
    requires Balanced(p) && Accepted(p) && NoStrayJumps(p)
    ensures AlwaysSafe(p)
  {
    hide Balanced, Accepted, Stray, IsTypedRun, Safe, TypesHold;
    forall run: seq<Typed> | IsTypedRun(p, run) ensures run != [] && Safe(p, run[|run| - 1]) {
      TypedPrefix(p, run, |run|);
      RunsKeepTypes(p, run, |run| - 1);
      HoldingIsSafe(p, run[|run| - 1]);
    }
  }

  // ---------------------------------------------------------------- every run

  /** Keeping account of types stands in the way of no run. */
  lemma {:induction false} EveryRunTyped(p: Program, run: seq<Machine>) returns (typed: seq<Typed>)
    requires Balanced(p) && IsRun(p, run)
    ensures IsTypedRun(p, typed) && |typed| == |run| && forall j :: 0 <= j < |run| ==> typed[j].m == run[j] && SameSizes(typed[j])
    decreases |run|
  {
    hide Balanced, Next, NextTyped, SameSizes, StartTyped;
    var last := |run| - 1;
    if last == 0 {
      StartSizes(p.env);
      typed := [StartTyped(p.env)];
    } else {
      assert Next(p, run[last - 1].pc, run[last - 1].st, run[last]);
      RunPrefix(p, run, last);
      typed := EveryRunTyped(p, run[..last]);
      var t := TypesOfNext(p, typed[last - 1], run[last]);
      TypedMore(p, typed, t);
      typed := typed + [t];
    }
  }

  predicate SameSizes(t: Typed)
  {
    t.m.Running? ==> |t.slots| == |t.m.st.ops| && |t.locals| == |t.m.st.locals|
  }

  lemma StartSizes(env: Env)
    ensures SameSizes(StartTyped(env)) && StartTyped(env).m == Running(0, Start(env))
  {
  }

  lemma TypedMore(p: Program, run: seq<Typed>, t: Typed)
    requires Balanced(p) && IsTypedRun(p, run) && NextTyped(p, run[|run| - 1], t)
    ensures IsTypedRun(p, run + [t])
  {
    hide NextTyped, Balanced, StartTyped;
  }

  lemma LocalsSize(p: Program, i: nat, st: Stacks, slots: seq<Slot>, stored: seq<Slot>)
    requires Sane(p.env) && i < |p.code| && Step(p, i, st).Ok? && |stored| == |st.locals|
    ensures |LocalsAfter(p.code[i], slots, stored)| == |Step(p, i, st).value.locals|
  {
    hide ExecOps, PushLocal, Jumps, Target, Read;
  }

  lemma {:induction false} TypesOfNext(p: Program, a: Typed, m: Machine) returns (b: Typed)
    requires Balanced(p) && a.m.Running? && Next(p, a.m.pc, a.m.st, m) && SameSizes(a)
    ensures b.m == m && NextTyped(p, a, b) && SameSizes(b)
  {
    hide Ops, Locals, StateAt, Step, Target, Jumps, SlotsAfter, LocalsAfter;
    IsSane(p);
    var after := Step(p, a.m.pc, a.m.st).value;
    LocalsSize(p, a.m.pc, a.m.st, a.slots, a.locals);
    var slots, stored := SlotsAfter(p.code[a.m.pc], a.slots, a.locals, |after.ops|), LocalsAfter(p.code[a.m.pc], a.slots, a.locals);
    b := if m.Running? then Typed(m, slots[..|m.st.ops|], stored[..|m.st.locals|]) else Typed(m, [], []);
  }

  // ---------------------------------------------------------------- values are there

  /** Which operands have been written. */
  function Marks(slots: seq<Slot>): (r: seq<bool>)
    ensures |r| == |slots|
  {
    seq(|slots|, k requires 0 <= k < |slots| => !slots[k].Unwritten?)
  }

  /** Types hold, operands have been written as they should be, and locals always have a value. */
  ghost predicate Held(p: Program, t: Typed)
    requires Balanced(p)
  {
    && TypesHold(p, t) && InMarks(p, Tracked(t.m, Marks(t.slots)))
    && (t.m.Running? ==> forall k :: 0 <= k < |t.locals| ==> t.locals[k].Holds?)
  }

  /** A value or a reference can be read where all values have been written. */
  lemma ReadHolds(env: Env, ops: seq<Operand>, locals: seq<Local>, slots: seq<Slot>, stored: seq<Slot>, n: int, k: nat)
    requires WellTyped(env, ops, locals, slots, stored) && Marked(ops, Marks(slots), n)
    requires forall j :: 0 <= j < |stored| ==> stored[j].Holds?
    requires k < |ops| && Returnable(ops[k])
    ensures Read(slots, stored, k).Holds?
  {
    hide Reaches;
    assert SlotOk(env, ops[k], slots[k]) && RefOk(ops[k], locals);
  }

  lemma MarksOfReturn(n: nat, slots: seq<Slot>, stored: seq<Slot>, height: nat)
    requires 1 <= n <= height - 1 && height + n == |slots| && forall k :: height <= k < height + n ==> Read(slots, stored, k).Holds?
    ensures Marks(SlotsAfter(Return(n), slots, stored, height)) == MarksAfter(Return(n), Marks(slots), height)
  {
    hide Read;
  }

  lemma MarksOfOther(instr: Instr, slots: seq<Slot>, stored: seq<Slot>, height: nat)
    requires !instr.Return? && height <= |slots| + 1
    requires instr.Load? || height == |slots| + 1 ==> (Pushed(instr, slots, stored) != Unwritten <==> Writes(instr))
    requires instr.Load? ==> height == |slots|
    ensures Marks(SlotsAfter(instr, slots, stored, height)) == MarksAfter(instr, Marks(slots), height)
  {
    hide Pushed;
  }

  /** How many operands are left, and whether one that is pushed is written. */
  lemma {:induction false} OtherHeight(p: Program, i: nat, slots: seq<Slot>, stored: seq<Slot>)
    requires Balanced(p) && i < |p.code| && !p.code[i].Return? && !p.code[i].Load?
    ensures |Ops(p, i + 1)| <= |Ops(p, i)| + 1
    ensures |Ops(p, i + 1)| == |Ops(p, i)| + 1 ==> (Pushed(p.code[i], slots, stored) != Unwritten <==> Writes(p.code[i]))
  {
    hide Ops, Locals, Balanced, ExecLocals, PushOperand, Target, Jumps;
    StepAt(p, i);
  }

  lemma LoadHeight(p: Program, i: nat)
    requires Balanced(p) && i < |p.code| && p.code[i].Load?
    ensures Ops(p, i) != [] && |Ops(p, i + 1)| == |Ops(p, i)| && Returnable(Top(Ops(p, i), 0))
  {
    hide Ops, Locals, Balanced, ExecLocals, PushOperand, Target, Jumps;
    StepAt(p, i);
  }

  /** Marks go with what is stored. */
  lemma {:induction false} MarksFollow(p: Program, i: nat, slots: seq<Slot>, stored: seq<Slot>)
    requires Balanced(p) && i < |p.code| && WellTyped(p.env, Ops(p, i), Locals(p, i), slots, stored)
    requires Marked(Ops(p, i), Marks(slots), Ready(p, i)) && forall j :: 0 <= j < |stored| ==> stored[j].Holds?
    requires p.code[i].Return? ==> Jumps(p, i, Ops(p, i))
    ensures Marks(SlotsAfter(p.code[i], slots, stored, |Ops(p, i + 1)|)) == MarksAfter(p.code[i], Marks(slots), |Ops(p, i + 1)|)
  {
    hide Ops, Locals, Balanced, WellTyped, Marked, Read, Ready, Jumps, Marks, MarksAfter, SlotsAfter;
    var ops, height := Ops(p, i), |Ops(p, i + 1)|;
    SizesHold(p.env, ops, Locals(p, i), slots, stored);
    if p.code[i].Return? {
      ReturnsWritten(p, i, slots, stored);
      MarksOfReturn(p.code[i].count, slots, stored, height);
    } else {
      if p.code[i].Load? {
        LoadHeight(p, i);
        ReadHolds(p.env, ops, Locals(p, i), slots, stored, Ready(p, i), |ops| - 1);
      } else {
        OtherHeight(p, i, slots, stored);
      }
      MarksOfOther(p.code[i], slots, stored, height);
    }
  }

  /** What is put into a local is there. */
  lemma {:induction false} LocalsHeld(p: Program, i: nat, slots: seq<Slot>, stored: seq<Slot>)
    requires Balanced(p) && i < |p.code| && WellTyped(p.env, Ops(p, i), Locals(p, i), slots, stored)
    requires Marked(Ops(p, i), Marks(slots), Ready(p, i)) && forall j :: 0 <= j < |stored| ==> stored[j].Holds?
    ensures forall j :: 0 <= j < |LocalsAfter(p.code[i], slots, stored)| ==> LocalsAfter(p.code[i], slots, stored)[j].Holds?
  {
    hide Ops, Locals, Balanced, WellTyped, Marked, ExecLocals, ExecReturn, ExecExit, PushOperand, Read, Ready, Target, Jumps, Marks;
    var ops := Ops(p, i);
    StepAt(p, i);
    SizesHold(p.env, ops, Locals(p, i), slots, stored);
    if p.code[i].CreateLocal? {
      ReadHolds(p.env, ops, Locals(p, i), slots, stored, Ready(p, i), |ops| - 1);
    } else if p.code[i].Move? {
      ReadHolds(p.env, ops, Locals(p, i), slots, stored, Ready(p, i), |ops| - 2);
    }
  }

  lemma {:induction false} ReturnsWritten(p: Program, i: nat, slots: seq<Slot>, stored: seq<Slot>)
    requires Balanced(p) && i < |p.code| && WellTyped(p.env, Ops(p, i), Locals(p, i), slots, stored)
    requires Marked(Ops(p, i), Marks(slots), Ready(p, i)) && forall j :: 0 <= j < |stored| ==> stored[j].Holds?
    requires p.code[i].Return? && Jumps(p, i, Ops(p, i))
    ensures var n, height := p.code[i].count, |Ops(p, i + 1)|;
            1 <= n <= height - 1 && height + n == |Ops(p, i)| && forall k :: height <= k < height + n ==> Read(slots, stored, k).Holds?
  {
    hide Ops, Locals, Balanced, WellTyped, Marked, ExecLocals, ExecExit, Ready, Read, Target;
    StepAt(p, i);
    var ops, n, height := Ops(p, i), p.code[i].count, |Ops(p, i + 1)|;
    assert ExecReturn(p.env, n, ops) == Ok(Ops(p, i + 1));
    forall k | height <= k < height + n ensures Read(slots, stored, k).Holds? {
      assert ReturnFits(p.env, ops, n, height + n - 1 - k);
      ReadHolds(p.env, ops, Locals(p, i), slots, stored, Ready(p, i), k);
    }
  }

  lemma MarksOfPart(slots: seq<Slot>, n: nat)
    requires n <= |slots|
    ensures Marks(slots[..n]) == Marks(slots)[..n]
  {
  }

  lemma {:induction false} NextHeld(p: Program, a: Typed, b: Typed)
    requires Balanced(p) && Accepted(p) && Held(p, a) && NextTyped(p, a, b) && !AtBarrierJump(p, a.m)
    ensures Held(p, b)
  {
    hide Ops, Locals, Balanced, Target, Accepted, Step, Lands, SlotsAfter, LocalsAfter, Jumps, WellTyped, Marked, MarksAfter, Marks, Ready, OpenedAt;
    var pc := a.m.pc;
    StrayIsBarrierJump(p, a.m);
    NextTypesHold(p, a, b);
    StepInShape(p, pc);
    StepGoes(p, pc, b.m);
    if b.m.Running? {
      var height := |Ops(p, pc + 1)|;
      MarksFollow(p, pc, a.slots, a.locals);
      LocalsHeld(p, pc, a.slots, a.locals);
      MarksOfPart(SlotsAfter(p.code[pc], a.slots, a.locals, height), |b.m.st.ops|);
    }
    NextInMarks(p, Tracked(a.m, Marks(a.slots)), Tracked(b.m, Marks(b.slots)));
  }

  lemma StrayIsBarrierJump(p: Program, m: Machine)
    requires Balanced(p) && InShape(p, m)
    ensures AtStray(p, m) ==> AtBarrierJump(p, m)
  {
    hide Ops, Locals, Balanced, Target, OpenedAt;
  }

  lemma StartHeld(p: Program)
    requires Balanced(p)
    ensures Held(p, StartTyped(p.env))
  {
    StartTypesHold(p);
    StartInMarks(p);
    assert Marks([]) == [];
  }

  /** Up to and at the first written jump to an EndBarrier, operands and locals that should have
      a value have one. */
  lemma {:induction false} RunsHold(p: Program, run: seq<Typed>, j: nat)
    requires Balanced(p) && Accepted(p) && IsTypedRun(p, run) && j < |run|
    requires forall k :: 0 <= k < j ==> !AtBarrierJump(p, run[k].m)
    ensures Held(p, run[j])
    decreases j
  {
    hide Balanced, Accepted, AtBarrierJump, Held, NextTyped, StartTyped;
    if j == 0 {
      StartHeld(p);
    } else {
      RunsHold(p, run, j - 1);
      assert NextTyped(p, run[j - 1], run[j]);
      NextHeld(p, run[j - 1], run[j]);
    }
  }

  /** A value is stored, and its type leads to `ty`. */
  ghost predicate HasType(env: Env, s: Slot, ty: nat)
  {
    s.Holds? && Reaches(env, s.ty, ty)
  }

  /** Every value on the operand stack, and every local, is there, with a type from which allowed
      conversions lead to the one the compiler assigned. */
  lemma {:induction false} ValuesHaveTypes(p: Program, run: seq<Typed>, j: nat, k: nat)
    requires Balanced(p) && Accepted(p) && IsTypedRun(p, run) && j < |run| && run[j].m.Running?
    requires forall i :: 0 <= i < j ==> !AtBarrierJump(p, run[i].m)
    ensures |run[j].slots| == |run[j].m.st.ops| && |run[j].locals| == |run[j].m.st.locals|
    ensures k < |run[j].slots| && run[j].m.st.ops[k].kind.Value? ==> HasType(p.env, run[j].slots[k], run[j].m.st.ops[k].ty)
    ensures k < |run[j].locals| ==> HasType(p.env, run[j].locals[k], run[j].m.st.locals[k].ty)
  {
    hide Balanced, Accepted, AtBarrierJump, NextTyped, StartTyped, Reaches, Ops, Locals, Ready;
    RunsHold(p, run, j);
    var t := run[j];
    var ops, locals := Ops(p, t.m.pc), Locals(p, t.m.pc);
    assert k < |ops| ==> SlotOk(p.env, ops[k], t.slots[k]);
    assert k < |locals| ==> Fits(p.env, t.locals[k], locals[k].ty);
  }
}
