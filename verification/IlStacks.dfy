/** The operand and local stacks of the IL compiler, as its linear pass sees them: the
    effect of every instruction of the modelled set, with the checks and the frame offsets
    of the passes that generate code. */
module IlStacks {

  const LARGEINT_MAX: nat := 0x7FFF_FFFF_FFFF_FFFF
  const LARGEUINT_MAX: nat := 0xFFFF_FFFF_FFFF_FFFF

  datatype Error =
    | ForbiddenState | InvalidOperand | StackUnderflow | IntegerOverflow
    | Unalignable | IncompatibleConversion | InvalidJumpTarget | StacksUnbalanced

  datatype Result<+T> = Ok(value: T) | Err(error: Error) {
    predicate IsFailure() { Err? }
    function PropagateFailure<U>(): Result<U>
      requires Err?
    {
      Err(error)
    }
    function Extract(): T
      requires Ok?
    {
      value
    }
  }

  /** What can be written as a constant of a type: nothing, the integers that its
      representation holds (floating point numbers stand as the integer of their bits), or
      those among them that are enumerants. */
  datatype Constants = NoConstants | Integers(lo: int, hi: int) | Enumerants(lo: int, hi: int, isEnumerant: int -> bool)

  /** Types are numbers; what the object manager knows about them is arbitrary. */
  datatype Env = Env(
    size: nat -> nat, align: nat -> nat, compatible: (nat, nat) -> bool, constants: nat -> Constants,
    boolType: nat, stackAlign: nat, params: seq<nat>, results: seq<nat>)

  ghost predicate Sane(env: Env)
  {
    env.stackAlign >= 1 && forall t :: env.align(t) >= 1
  }

  datatype Instr =
    | AllocLocal(ty: nat) | CreateLocal(ty: nat) | RemoveLocal
    | PushLocalRef(index: int) | Load | Move | Pop | Constant(ty: nat, value: int) | PushEmpty(ty: nat)
    | StartBarrier(count: int) | EndBarrier | Return(count: int)
    | Jump(delta: int) | JumpIfTrue(delta: int) | JumpIfFalse(delta: int)

  datatype Kind = Value | LocalRef | Barrier | Shell

  /** An operand-stack entry: `born` is the instruction that pushed it, `count` the number of
      values a barrier guards. Frame offsets are negative; `depth` is the offset negated. */
  datatype Operand = Operand(kind: Kind, ty: nat, index: nat, count: int, born: nat, size: nat, depth: nat)

  datatype Local = Local(ty: nat, isParameter: bool, born: nat, depth: nat)

  datatype Stacks = Stacks(ops: seq<Operand>, locals: seq<Local>)

  // ---------------------------------------------------------------- primitives

  function RoundDown(m: nat, align: nat): (r: nat)
    requires align >= 1
    ensures m - align < r <= m && r % align == 0
  {
    PadLemma(m, align);
    m - m % align
  }

  function PadTo(n: nat, align: nat): (r: nat)
    requires align >= 1
    ensures n <= r < n + align && r % align == 0
  {
    RoundDown(n + align - 1, align)
  }

  lemma PadLemma(m: nat, align: nat)
    requires align >= 1
    ensures m % align < align && (m - m % align) % align == 0
  {
    var q, x := m / align, m - m % align;
    assert x == q * align;
    var q', r' := x / align, x % align;
    assert (q - q') * align == r' by {
      assert x == q' * align + r';
      assert (q - q') * align == q * align - q' * align;
    }
    if q - q' >= 1 {
      Multiple(q - q', align);
    } else if q - q' <= -1 {
      Multiple(q' - q, align);
    }
  }

  lemma Multiple(d: int, align: nat)
    requires d >= 1
    ensures d * align >= align
  {
  }

  /** Only values, and the shells that become values, take space. */
  predicate TakesSpace(kind: Kind)
  {
    kind.Value? || kind.Shell?
  }

  /** OpstackUsed: the padded size of an operand. */
  function OperandSize(env: Env, kind: Kind, ty: nat): (r: Result<nat>)
    requires env.stackAlign >= 1
    ensures r.Ok? && TakesSpace(kind) ==>
              env.size(ty) <= r.value < env.size(ty) + env.stackAlign && r.value % env.stackAlign == 0 && env.align(ty) <= env.stackAlign
    ensures r.Ok? && !TakesSpace(kind) ==> r.value == 0
    ensures r.Ok? <==> if TakesSpace(kind) then env.align(ty) <= env.stackAlign && env.size(ty) + env.stackAlign <= 0x1_0000_0000_0000_0000
                       else env.stackAlign <= 0x1_0000_0000_0000_0000
  {
    if TakesSpace(kind) && env.align(ty) > env.stackAlign then Err(Unalignable)
    else
      var raw := if TakesSpace(kind) then env.size(ty) else 0;
      if raw + env.stackAlign - 1 > LARGEUINT_MAX then Err(IntegerOverflow)
      else
        PadZero(env.stackAlign);
        Ok(PadTo(raw, env.stackAlign))
  }

  lemma PadZero(align: nat)
    requires align >= 1
    ensures PadTo(0, align) == 0
  {
  }

  /** How deep in the frame the operand stack reaches; an empty one starts at `base`. */
  function OperandDepth(base: nat, ops: seq<Operand>): nat
  {
    if ops == [] then base else ops[|ops| - 1].depth
  }

  /** AppendOpstack. */
  function PushOperand(env: Env, base: nat, ops: seq<Operand>, v: Operand): (r: Result<seq<Operand>>)
    requires env.stackAlign >= 1
    ensures r.Ok? ==> |r.value| == |ops| + 1 && r.value[..|ops|] == ops
    ensures r.Ok? ==> var top := r.value[|ops|];
                      top.kind == v.kind && top.ty == v.ty && top.index == v.index && top.count == v.count && top.born == v.born
    ensures r.Ok? ==> var top := r.value[|ops|];
                      top.depth == OperandDepth(base, ops) + top.size && OperandSize(env, v.kind, v.ty) == Ok(top.size)
    ensures r.Ok? <==> OperandSize(env, v.kind, v.ty).Ok? && OperandDepth(base, ops) + OperandSize(env, v.kind, v.ty).value <= 0x7FFF_FFFF_FFFF_FFFF
  {
    var used :- OperandSize(env, v.kind, v.ty);
    if used > LARGEINT_MAX || used + OperandDepth(base, ops) > LARGEINT_MAX then Err(IntegerOverflow)
    else Ok(ops + [v.(size := used, depth := OperandDepth(base, ops) + used)])
  }

  function LocalDepth(locals: seq<Local>): nat
  {
    if locals == [] then 0 else locals[|locals| - 1].depth
  }

  /** AppendLocal, for a local that is not a parameter. */
  function PushLocal(env: Env, locals: seq<Local>, ty: nat, born: nat): (r: Result<seq<Local>>)
    requires env.align(ty) >= 1
    ensures r.Ok? ==> |r.value| == |locals| + 1 && r.value[..|locals|] == locals
    ensures r.Ok? ==> var top := r.value[|locals|]; top.born == born && !top.isParameter && top.ty == ty
    ensures r.Ok? ==> var top := r.value[|locals|];
                      LocalDepth(locals) + env.size(ty) <= top.depth && top.depth % env.align(ty) == 0
    ensures r.Ok? ==> r.value[|locals|].depth < LocalDepth(locals) + env.size(ty) + env.align(ty)
    ensures r.Ok? <==>
              && env.align(ty) <= 0x7FFF_FFFF_FFFF_FFFF
              && 2 * (LocalDepth(locals) + env.size(ty)) + env.align(ty) - 1 <= 0x7FFF_FFFF_FFFF_FFFF
  {
    var size, align := env.size(ty), env.align(ty);
    var end := LocalDepth(locals) + size;
    if size > LARGEINT_MAX || end > LARGEINT_MAX || align > LARGEINT_MAX || end + align - 1 > LARGEINT_MAX
       || end + (end + align - 1) > LARGEINT_MAX then Err(IntegerOverflow)
    else Ok(locals + [Local(ty, false, born, PadTo(end, align))])
  }

  // ---------------------------------------------------------------- instructions

  /** No operands, or a barrier on top: where jumps may leave and arrive. */
  predicate EmptyOrBarrier(ops: seq<Operand>)
  {
    ops == [] || ops[|ops| - 1].kind.Barrier?
  }

  function Drop(ops: seq<Operand>, n: nat): (r: seq<Operand>)
    requires n <= |ops|
  {
    ops[..|ops| - n]
  }

  /** The entry `i` below the top. */
  function Top(ops: seq<Operand>, i: nat): Operand
    requires i < |ops|
  {
    ops[|ops| - 1 - i]
  }

  function Fresh(kind: Kind, ty: nat, index: nat, count: int, born: nat): Operand
  {
    Operand(kind, ty, index, count, born, 0, 0)
  }

  /** What an instruction does to the locals. */
  function ExecLocals(env: Env, instr: Instr, i: nat, ops: seq<Operand>, locals: seq<Local>): (r: Result<seq<Local>>)
    requires Sane(env)
  {
    match instr
    case AllocLocal(t) => if ops != [] then Err(ForbiddenState) else PushLocal(env, locals, t, i)
    case CreateLocal(t) => PushLocal(env, locals, t, i)
    case RemoveLocal =>
      if ops != [] then Err(ForbiddenState)
      else if |locals| <= |env.params| then Err(StackUnderflow)
      else Ok(locals[..|locals| - 1])
    case _ => Ok(locals)
  }

  /** Whether a value of kind `k` may be returned. */
  predicate Returnable(v: Operand)
  {
    v.kind.Value? || v.kind.LocalRef?
  }

  /** The space that the results from `k` on take in the frame of the caller; the last one
      is placed first. */
  function ResultSpace(env: Env, k: nat): (r: Result<nat>)
    requires env.stackAlign >= 1 && k <= |env.results|
    decreases |env.results| - k
  {
    if k == |env.results| then Ok(0)
    else
      var before :- ResultSpace(env, k + 1);
      var used :- OperandSize(env, Value, env.results[k]);
      if used > LARGEINT_MAX || before + used > LARGEINT_MAX then Err(IntegerOverflow) else Ok(before + used)
  }

  /** A return to the caller: all operands are the return values. */
  function ExecExit(env: Env, n: nat, ops: seq<Operand>): (r: Result<seq<Operand>>)
    requires n == |ops| && env.stackAlign >= 1
    ensures r.Ok? ==> r.value == []
    ensures r.Ok? <==>
              && n == |env.results| && ResultSpace(env, 0).Ok?
              && forall j :: 0 <= j < n ==> Returnable(ops[j]) && env.compatible(ops[j].ty, env.results[j])
  {
    if n != |env.results| then Err(InvalidOperand)
    else if exists v :: v in ops && !Returnable(v) then Err(InvalidOperand)
    else if exists j :: 0 <= j < n && !env.compatible(ops[j].ty, env.results[j]) then Err(IncompatibleConversion)
    else
      var _ :- ResultSpace(env, 0);
      Ok([])
  }

  /** A return of `n` values leaves the barrier on top, with that count and enough below it. */
  predicate AtBarrier(ops: seq<Operand>, n: int)
  {
    1 <= n && 2 * n < |ops| && Top(ops, n).kind.Barrier? && Top(ops, n).count == n
  }

  /** The value `j` from the top fits the shell `j` below the barrier. */
  predicate ReturnFits(env: Env, ops: seq<Operand>, n: nat, j: nat)
    requires j < n && n + 1 + j < |ops|
  {
    Returnable(Top(ops, j)) && Top(ops, n + 1 + j).kind.Shell? && env.compatible(Top(ops, j).ty, Top(ops, n + 1 + j).ty)
  }

  /** A return past a barrier: the values go to the shells below it; the barrier stays. */
  function ExecReturn(env: Env, n: int, ops: seq<Operand>): (r: Result<seq<Operand>>)
    ensures r.Ok? <==> AtBarrier(ops, n) && forall j :: 0 <= j < n ==> ReturnFits(env, ops, n, j)
    ensures r.Ok? ==> r.value == Drop(ops, n) && forall j :: |ops| - n <= j < |ops| ==> !ops[j].kind.Barrier?
  {
    if n < 1 || n >= |ops| then Err(InvalidOperand)
    else if !Top(ops, n).kind.Barrier? || Top(ops, n).count != n then Err(InvalidOperand)
    else if 2 * n >= |ops| then Err(StackUnderflow)
    else if exists j :: 0 <= j < n && !ReturnFits(env, ops, n, j) then
      Err(if forall j :: 0 <= j < n ==> Returnable(Top(ops, j)) then IncompatibleConversion else InvalidOperand)
    else
      assert forall j :: |ops| - n <= j < |ops| ==> ReturnFits(env, ops, n, |ops| - 1 - j) && ops[j] == Top(ops, |ops| - 1 - j);
      Ok(Drop(ops, n))
  }

  /** What an instruction does to the operands; `locals` are those before it. */
  function ExecOps(env: Env, base: nat, instr: Instr, i: nat, afterReturn: bool, ops: seq<Operand>, locals: seq<Local>): (r: Result<seq<Operand>>)
    requires Sane(env)
  {
    match instr
    case AllocLocal(_) => Ok(ops)
    case CreateLocal(t) =>
      if ops == [] then Err(StackUnderflow)
      else if !Top(ops, 0).kind.Value? || Top(ops, 0).ty != t then Err(InvalidOperand)
      else if |ops| != 1 then Err(ForbiddenState)
      else Ok([])
    case RemoveLocal => Ok(ops)
    case PushLocalRef(index) =>
      if !(0 <= index < |locals|) then Err(InvalidOperand)
      else PushOperand(env, base, ops, Fresh(LocalRef, locals[index].ty, index, 0, i))
    case Load =>
      if ops == [] then Err(StackUnderflow)
      else if !Top(ops, 0).kind.LocalRef? then Err(InvalidOperand)
      else if Top(ops, 0).index >= |locals| then Err(StackUnderflow)
      else PushOperand(env, base, Drop(ops, 1), Fresh(Value, locals[Top(ops, 0).index].ty, 0, 0, i))
    case Move =>
      if |ops| < 2 then Err(StackUnderflow)
      else if !env.compatible(Top(ops, 1).ty, Top(ops, 0).ty) then Err(IncompatibleConversion)
      else if !Top(ops, 0).kind.LocalRef? || !Returnable(Top(ops, 1)) then Err(InvalidOperand)
      else Ok(Drop(ops, 2))
    case Pop =>
      if ops == [] then Err(StackUnderflow)
      else if Top(ops, 0).kind.Barrier? then Err(InvalidOperand)
      else Ok(Drop(ops, 1))
    case Constant(t, value) =>
      if !IsConstant(env, t, value) then Err(InvalidOperand) else PushOperand(env, base, ops, Fresh(Value, t, 0, 0, i))
    case PushEmpty(t) => PushOperand(env, base, ops, Fresh(Shell, t, 0, 0, i))
    case StartBarrier(n) =>
      if n < 1 then Err(InvalidOperand)
      else if n > |ops| then Err(StackUnderflow)
      else PushOperand(env, base, ops, Fresh(Barrier, 0, 0, n, i))
    case EndBarrier =>
      if ops == [] then Err(StackUnderflow)
      else if !Top(ops, 0).kind.Barrier? then Err(InvalidOperand)
      else if !afterReturn then Err(ForbiddenState)
      else if Top(ops, 0).count >= |ops| then Err(StackUnderflow)
      else Ok(Liven(Drop(ops, 1), Top(ops, 0).count))
    case Return(n) => if n == |ops| then ExecExit(env, n, ops) else ExecReturn(env, n, ops)
    case Jump(_) => if EmptyOrBarrier(ops) then Ok(ops) else Err(ForbiddenState)
    case JumpIfTrue(_) => ExecCondition(env, ops)
    case JumpIfFalse(_) => ExecCondition(env, ops)
  }

  predicate IsConstant(env: Env, ty: nat, value: int)
  {
    match env.constants(ty)
    case NoConstants => false
    case Integers(lo, hi) => lo <= value <= hi
    case Enumerants(lo, hi, isEnumerant) => lo <= value <= hi && isEnumerant(value)
  }

  function ExecCondition(env: Env, ops: seq<Operand>): (r: Result<seq<Operand>>)
  {
    if ops == [] then Err(StackUnderflow)
    else if !Top(ops, 0).kind.Value? then Err(InvalidOperand)
    else if !EmptyOrBarrier(Drop(ops, 1)) then Err(ForbiddenState)
    else if Top(ops, 0).ty != env.boolType then Err(InvalidOperand)
    else Ok(Drop(ops, 1))
  }

  /** The shells among the top `n` entries become values. */
  function Liven(ops: seq<Operand>, n: int): (r: seq<Operand>)
    ensures |r| == |ops|
    ensures forall j :: 0 <= j < |ops| ==> r[j] == if j >= |ops| - n && ops[j].kind.Shell? then ops[j].(kind := Value) else ops[j]
  {
    seq(|ops|, j requires 0 <= j < |ops| => if j >= |ops| - n && ops[j].kind.Shell? then ops[j].(kind := Value) else ops[j])
  }
}
