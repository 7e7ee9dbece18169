/** The rules of the instructions, one by one: when the compiler takes an instruction. */
module IlRules {
  import opened IlStacks

  function Last(ops: seq<Operand>): Operand
    requires ops != []
  {
    ops[|ops| - 1]
  }

  /** There is room for another operand. */
  predicate Room(env: Env, base: nat, ops: seq<Operand>, kind: Kind, ty: nat)
    requires Sane(env)
  {
    && OperandSize(env, kind, ty).Ok?
    && (if ops == [] then base else Last(ops).depth) + OperandSize(env, kind, ty).value <= 0x7FFF_FFFF_FFFF_FFFF
  }

  predicate RoomForLocal(env: Env, locals: seq<Local>, ty: nat)
  {
    && env.align(ty) <= 0x7FFF_FFFF_FFFF_FFFF
    && 2 * ((if locals == [] then 0 else locals[|locals| - 1].depth) + env.size(ty)) + env.align(ty) - 1 <= 0x7FFF_FFFF_FFFF_FFFF
  }

  /** No operands are left but what a barrier keeps. */
  predicate Bare(ops: seq<Operand>)
  {
    ops == [] || Last(ops).kind == Barrier
  }

  predicate IsBool(env: Env, ops: seq<Operand>)
  {
    ops != [] && Last(ops).kind == Value && Last(ops).ty == env.boolType && Bare(ops[..|ops| - 1])
  }

  /** A value, or what a reference refers to, may be returned as type `ty`. */
  predicate ReturnsAs(env: Env, v: Operand, ty: nat)
  {
    (v.kind == Value || v.kind == LocalRef) && env.compatible(v.ty, ty)
  }

  /** The rule of an instruction. */
  ghost predicate Rule(env: Env, base: nat, instr: Instr, afterReturn: bool, ops: seq<Operand>, locals: seq<Local>)
    requires Sane(env)
  {
    match instr
    case AllocLocal(ty) => ops == [] && RoomForLocal(env, locals, ty)
    case CreateLocal(ty) => |ops| == 1 && ops[0].kind == Value && ops[0].ty == ty && RoomForLocal(env, locals, ty)
    case RemoveLocal => ops == [] && |env.params| < |locals|
    case PushLocalRef(index) => 0 <= index < |locals| && Room(env, base, ops, LocalRef, locals[index].ty)
    case Load =>
      && ops != [] && Last(ops).kind == LocalRef && Last(ops).index < |locals|
      && Room(env, base, ops[..|ops| - 1], Value, locals[Last(ops).index].ty)
    case Move => |ops| >= 2 && Last(ops).kind == LocalRef && ReturnsAs(env, ops[|ops| - 2], Last(ops).ty)
    case Pop => ops != [] && Last(ops).kind != Barrier
    case Constant(ty, value) => IsConstant(env, ty, value) && Room(env, base, ops, Value, ty)
    case PushEmpty(ty) => Room(env, base, ops, Shell, ty)
    case StartBarrier(n) => 1 <= n <= |ops| && Room(env, base, ops, Barrier, 0)
    case EndBarrier => ops != [] && Last(ops).kind == Barrier && Last(ops).count < |ops| && afterReturn
    case Return(n) => if n == |ops| then ReturnsToCaller(env, ops) else ReturnsPastBarrier(env, n, ops)
    case Jump(_) => Bare(ops)
    case JumpIfTrue(_) => IsBool(env, ops)
    case JumpIfFalse(_) => IsBool(env, ops)
  }

  ghost predicate ReturnsToCaller(env: Env, ops: seq<Operand>)
    requires Sane(env)
  {
    |ops| == |env.results| && ResultSpace(env, 0).Ok? && forall j :: 0 <= j < |ops| ==> ReturnsAs(env, ops[j], env.results[j])
  }

  /** The last `n` operands fit the `n` shells below the barrier that stands below them. */
  ghost predicate ReturnsPastBarrier(env: Env, n: int, ops: seq<Operand>)
  {
    var barrier := |ops| - 1 - n;
    && 1 <= n <= barrier && ops[barrier].kind == Barrier && ops[barrier].count == n
    && forall k :: barrier - n <= k < barrier ==> ops[k].kind == Shell && ReturnsAs(env, ops[k + n + 1], ops[k].ty)
  }

  lemma PastBarrierIff(env: Env, n: int, ops: seq<Operand>)
    ensures ExecReturn(env, n, ops).Ok? <==> ReturnsPastBarrier(env, n, ops)
  {
    var barrier := |ops| - 1 - n;
    if ExecReturn(env, n, ops).Ok? {
      forall k | barrier - n <= k < barrier ensures ops[k].kind == Shell && ReturnsAs(env, ops[k + n + 1], ops[k].ty) {
        assert ReturnFits(env, ops, n, barrier - 1 - k);
      }
    }
    if ReturnsPastBarrier(env, n, ops) {
      forall j | 0 <= j < n ensures ReturnFits(env, ops, n, j) {
        assert ops[barrier - 1 - j].kind == Shell;
      }
    }
  }

  lemma ToCallerIff(env: Env, ops: seq<Operand>)
    requires Sane(env)
    ensures ExecExit(env, |ops|, ops).Ok? <==> ReturnsToCaller(env, ops)
  {
    hide ResultSpace;
  }

  lemma RoomIff(env: Env, base: nat, ops: seq<Operand>, v: Operand)
    requires Sane(env)
    ensures PushOperand(env, base, ops, v).Ok? <==> Room(env, base, ops, v.kind, v.ty)
  {
    hide OperandSize;
  }

  lemma LocalRoomIff(env: Env, locals: seq<Local>, ty: nat, born: nat)
    requires Sane(env)
    ensures PushLocal(env, locals, ty, born).Ok? <==> RoomForLocal(env, locals, ty)
  {
    hide PushLocal;
  }

  /** An instruction is taken if and only if its rule holds. */
  lemma {:induction false} TakenIff(env: Env, base: nat, instr: Instr, i: nat, afterReturn: bool, ops: seq<Operand>, locals: seq<Local>)
    requires Sane(env)
    ensures (ExecOps(env, base, instr, i, afterReturn, ops, locals).Ok? && ExecLocals(env, instr, i, ops, locals).Ok?) <==>
            Rule(env, base, instr, afterReturn, ops, locals)
  {
    hide PushOperand, PushLocal, ExecReturn, ExecExit, Room, RoomForLocal, ReturnsToCaller, ReturnsPastBarrier, Liven, IsConstant;
    match instr {
      case AllocLocal(ty) => LocalRoomIff(env, locals, ty, i);
      case CreateLocal(ty) => LocalRoomIff(env, locals, ty, i);
      case PushLocalRef(index) =>
        if 0 <= index < |locals| {
          RoomIff(env, base, ops, Fresh(LocalRef, locals[index].ty, index, 0, i));
        }
      case Load =>
        if ops != [] && Last(ops).index < |locals| {
          RoomIff(env, base, Drop(ops, 1), Fresh(Value, locals[Last(ops).index].ty, 0, 0, i));
        }
      case Constant(ty, _) => RoomIff(env, base, ops, Fresh(Value, ty, 0, 0, i));
      case PushEmpty(ty) => RoomIff(env, base, ops, Fresh(Shell, ty, 0, 0, i));
      case StartBarrier(n) => RoomIff(env, base, ops, Fresh(Barrier, 0, 0, n, i));
      case Return(n) =>
        PastBarrierIff(env, n, ops);
        ToCallerIff(env, ops);
      case _ =>
    }
  }
}
