/** The compiler itself: the object that walks over the instructions, changing its stacks,
    its offset maxima and the jump ranges, pass after pass. */
module IlCompiler {
  import opened Wrappers
  import opened IlStacks
  import opened IlLinear
  import opened IlJumps
  import opened IlRanges
  import opened IlFrame
  import opened IlPasses
  import opened IlMethod
  import opened IlCounting

  /** rdxCILPassCompiler. The lists behind its stacks are there only after the counting pass,
      and then have as many entries as the maxima say. */
  class PassCompiler {
    const env: Env
    const code: seq<Instr>
    const metalist: array<Meta>
    var opstack: seq<Operand>
    var localstack: seq<Local>
    var localOffsetMaximum: nat
    var opstackOffsetMaximum: nat
    var opstackCount: nat
    var localstackCount: nat
    var opstackMaximum: nat
    var localstackMaximum: nat
    var journalMaximum: nat
    var instrNum: nat
    var stitching: bool

    ghost predicate Valid()
      reads this
    {
      Sane(env) && metalist.Length == |code| && instrNum <= |code|
    }

    /** The pass as it stands. */
    ghost function Here(): PassState
      reads this
    {
      PassState(Stacks(opstack, localstack), localOffsetMaximum, opstackOffsetMaximum)
    }

    /** The counting pass as it stands. */
    ghost function Counted(): Counts
      reads this
    {
      Counts(opstackCount, localstackCount, opstackMaximum, localstackMaximum, journalMaximum, localOffsetMaximum)
    }

    /** The stacks have room for what the current instruction may push. */
    ghost predicate HasRoom()
      requires Valid() && instrNum < |code|
      reads this
    {
      Room(code[instrNum], |opstack|, |localstack|, opstackMaximum, localstackMaximum, journalMaximum)
    }

    /** The stacks are as large as the counting pass found necessary. */
    ghost predicate Sized()
      requires Valid()
      reads this
    {
      && CountAll(env, code).Ok?
      && var c := CountAll(env, code).value;
         opstackMaximum == c.opMax && localstackMaximum == c.localMax && journalMaximum == c.journalMax
    }

    /** The current instruction took the pass from `before` to `after`, or failed as it should. */
    ghost predicate Did(before: PassState, ok: bool, after: PassState)
      requires Valid() && instrNum < |code|
      reads this
    {
      var r := PassStep(env, code, instrNum, before);
      (ok <==> r.Ok?) && (ok ==> after == r.value)
    }

    /** As `Did`; while stitching, a jump must also have a target that admits it. */
    ghost predicate DidJump(before: PassState, ok: bool, after: PassState, metas: seq<Meta>)
      requires Valid() && instrNum < |code| && |metas| == |code|
      reads this
    {
      var r := PassStep(env, code, instrNum, before);
      (ok <==> r.Ok? && (stitching ==> Clear(env, code, instrNum, before.st.ops, metas))) && (ok ==> after == r.value)
    }

    constructor (env: Env, code: seq<Instr>)
      requires Sane(env)
      ensures Valid() && fresh(metalist) && this.env == env && this.code == code && !stitching
      ensures Here() == PassState(Stacks([], []), 0, 0) && Counted() == Counts(0, 0, 0, 0, 0, 0)
    {
      this.env, this.code := env, code;
      metalist := new Meta[|code|](_ => Meta(0, 0, false));
      opstack, localstack := [], [];
      localOffsetMaximum, opstackOffsetMaximum := 0, 0;
      opstackCount, localstackCount, opstackMaximum, localstackMaximum, journalMaximum := 0, 0, 0, 0, 0;
      instrNum, stitching := 0, false;
    }

    // -------------------------------------------------------------- the counting pass

    /** One entry more on the journal, which has one for each operand and local. */
    method CountEntry()
      modifies `journalMaximum
      ensures journalMaximum == Max(old(journalMaximum), opstackCount + localstackCount)
    {
      if opstackCount + localstackCount > journalMaximum {
        journalMaximum := opstackCount + localstackCount;
      }
    }

    method CountOperand()
      requires Below(Counted(), Counted())
      modifies `opstackCount, `opstackMaximum, `journalMaximum
      ensures Counted() == Reach(old(Counted()), old(opstackCount) + 1, localstackCount)
    {
      opstackCount := opstackCount + 1;
      if opstackCount > opstackMaximum {
        opstackMaximum := opstackCount;
      }
      CountEntry();
    }

    method UncountOperands(n: nat) returns (r: Result<()>)
      requires Below(Counted(), Counted())
      modifies `opstackCount
      ensures r.Ok? <==> n <= old(opstackCount)
      ensures r.Ok? ==> opstackCount == old(opstackCount) - n && Below(Counted(), Counted())
      ensures r.Ok? ==> Counted() == Reach(old(Counted()), opstackCount, localstackCount)
    {
      var i := 0;
      while i < n
        invariant i <= n && i <= old(opstackCount) && opstackCount == old(opstackCount) - i
        modifies `opstackCount
      {
        if opstackCount == 0 {
          return Err(StackUnderflow);
        }
        opstackCount := opstackCount - 1;
        i := i + 1;
      }
      return Ok(());
    }

    method CountLocal(ty: nat) returns (r: Result<()>)
      requires Valid() && Below(Counted(), Counted())
      modifies `localstackCount, `localstackMaximum, `journalMaximum, `localOffsetMaximum
      ensures var e := ReachLocal(env, ty, old(Counted()), opstackCount);
              (r.Ok? <==> e.Ok?) && (r.Ok? ==> Counted() == e.value)
    {
      hide PushLocal, RoundDown;
      OnlyLocal(env, ty);
      var size, align := env.size(ty), env.align(ty);
      if size > LARGEINT_MAX || align > LARGEINT_MAX || size + (align - 1) > LARGEINT_MAX || size + (size + (align - 1)) > LARGEINT_MAX {
        return Err(IntegerOverflow);
      }
      var offset := size + (align - 1);
      offset := RoundDown(offset, align);
      if offset > localOffsetMaximum {
        localOffsetMaximum := offset;
      }
      localstackCount := localstackCount + 1;
      if localstackCount > localstackMaximum {
        localstackMaximum := localstackCount;
      }
      CountEntry();
      return Ok(());
    }

    /** The current instruction took the counting pass from `before` to where it is, or failed as
        it should. */
    ghost predicate DidCount(before: Counts, ok: bool)
      requires Valid() && instrNum < |code|
      reads this
    {
      var e := CountStep(env, code[instrNum], before);
      (ok <==> e.Ok?) && (ok ==> Counted() == e.value)
    }

    method CountAllocLocal(ty: nat) returns (r: Result<()>)
      requires Valid() && instrNum < |code| && code[instrNum] == AllocLocal(ty) && Below(Counted(), Counted())
      modifies `localstackCount, `localstackMaximum, `journalMaximum, `localOffsetMaximum
      ensures DidCount(old(Counted()), r.Ok?)
    {
      hide ReachLocal;
      if opstackCount != 0 {
        return Err(ForbiddenState);
      }
      r := CountLocal(ty);
    }

    method CountCreateLocal(ty: nat) returns (r: Result<()>)
      requires Valid() && instrNum < |code| && code[instrNum] == CreateLocal(ty) && Below(Counted(), Counted())
      modifies `opstackCount, `localstackCount, `localstackMaximum, `journalMaximum, `localOffsetMaximum
      ensures DidCount(old(Counted()), r.Ok?)
    {
      hide PushLocal;
      var _ :- UncountOperands(1);
      var _ :- CountLocal(ty);
      if opstackCount != 0 {
        return Err(ForbiddenState);
      }
      return Ok(());
    }

    method CountRemoveLocal() returns (r: Result<()>)
      requires Valid() && instrNum < |code| && code[instrNum] == RemoveLocal && Below(Counted(), Counted())
      requires localstackCount >= |env.params|
      modifies `localstackCount
      ensures DidCount(old(Counted()), r.Ok?)
    {
      if opstackCount != 0 {
        return Err(ForbiddenState);
      }
      if localstackCount == |env.params| {
        return Err(StackUnderflow);
      }
      localstackCount := localstackCount - 1;
      return Ok(());
    }

    method CountLocalRef(index: int) returns (r: Result<()>)
      requires Valid() && instrNum < |code| && code[instrNum] == PushLocalRef(index) && Below(Counted(), Counted())
      modifies `opstackCount, `opstackMaximum, `journalMaximum
      ensures DidCount(old(Counted()), r.Ok?)
    {
      hide Reach;
      if index < 0 || index >= localstackCount {
        return Err(InvalidOperand);
      }
      CountOperand();
      return Ok(());
    }

    method CountReturn(count: int) returns (r: Result<()>)
      requires Valid() && instrNum < |code| && code[instrNum] == Return(count) && Below(Counted(), Counted())
      modifies `opstackCount
      ensures DidCount(old(Counted()), r.Ok?)
    {
      hide Reach;
      if count < 0 {
        return Err(InvalidOperand);
      }
      r := UncountOperands(count);
    }

    /** An instruction that pops so many operands and then may push one. */
    method CountPops(n: nat, push: bool) returns (r: Result<()>)
      requires Valid() && instrNum < |code| && Below(Counted(), Counted())
      requires OnlyPops(code[instrNum]) && n == Popped(code[instrNum]) && (push <==> Pushes(code[instrNum]))
      modifies `opstackCount, `opstackMaximum, `journalMaximum
      ensures DidCount(old(Counted()), r.Ok?)
    {
      hide Reach, Popped, Pushes;
      var _ :- UncountOperands(n);
      if push {
        ReachAgain(old(Counted()), opstackCount);
        CountOperand();
      }
      return Ok(());
    }

    /** The current instruction, in the counting pass. */
    method CountInstr() returns (r: Result<()>)
      requires Valid() && instrNum < |code| && localstackCount >= |env.params| && Below(Counted(), Counted())
      modifies `opstackCount, `localstackCount, `opstackMaximum, `localstackMaximum, `journalMaximum, `localOffsetMaximum
      ensures DidCount(old(Counted()), r.Ok?)
    {
      hide DidCount, Below;
      match code[instrNum] {
        case AllocLocal(ty) => r := CountAllocLocal(ty);
        case CreateLocal(ty) => r := CountCreateLocal(ty);
        case RemoveLocal => r := CountRemoveLocal();
        case PushLocalRef(index) => r := CountLocalRef(index);
        case Return(count) => r := CountReturn(count);
        case Load => r := CountPops(1, true);
        case Move => r := CountPops(2, false);
        case Pop => r := CountPops(1, false);
        case Constant(_, _) => r := CountPops(0, true);
        case PushEmpty(_) => r := CountPops(0, true);
        case StartBarrier(_) => r := CountPops(0, true);
        case EndBarrier => r := CountPops(1, false);
        case Jump(_) => r := CountPops(0, false);
        case JumpIfTrue(_) => r := CountPops(1, false);
        case JumpIfFalse(_) => r := CountPops(1, false);
      }
    }

    /** The counting pass. */
    method CreateStacks() returns (r: Result<()>)
      requires Valid() && Counted() == Counts(0, 0, 0, 0, 0, 0)
      modifies `opstackCount, `localstackCount, `opstackMaximum, `localstackMaximum, `journalMaximum, `localOffsetMaximum, `instrNum
      ensures Valid() && (r.Ok? <==> CountAll(env, code).Ok?)
      ensures r.Ok? ==> Sized() && localOffsetMaximum == LargestLocal(env, code)
    {
      hide CountStep, LargestLocal;
      localstackCount := |env.params|;
      localstackMaximum := localstackCount;
      CountEntry();
      instrNum := 0;
      while instrNum < |code|
        invariant instrNum <= |code| && CountAt(env, code, instrNum) == Ok(Counted()) && localstackCount >= |env.params|
      {
        CountsReach(env, code, instrNum, instrNum);
        CountsStop(env, code, instrNum);
        CountLocals(env, code[instrNum], Counted());
        var _ :- CountInstr();
        instrNum := instrNum + 1;
      }
      if opstackCount != 0 || localstackCount != |env.params| {
        return Err(StacksUnbalanced);
      }
      CountsOffset(env, code, |code|);
      assert code[..|code|] == code;
      return Ok(());
    }

    // -------------------------------------------------------------- stacks

    /** The new entry goes behind the others, in a list of `opstackMaximum` entries. */
    method AppendOpstack(v: Operand) returns (r: Result<()>)
      requires Valid() && |opstack| < opstackMaximum && |opstack| + |localstack| < journalMaximum
      modifies `opstack, `opstackOffsetMaximum
      ensures r.Ok? ==> PushOperand(env, localOffsetMaximum, old(opstack), v) == Ok(opstack)
      ensures r.Ok? ==> opstackOffsetMaximum == Max(old(opstackOffsetMaximum), OperandDepth(0, opstack))
      ensures r.Err? ==> PushOperand(env, localOffsetMaximum, old(opstack), v) == Err(r.error)
    {
      hide PadTo;
      var used :- OperandSize(env, v.kind, v.ty);
      var offset := localOffsetMaximum;
      if opstack != [] {
        offset := opstack[|opstack| - 1].depth;
      }
      if used > LARGEINT_MAX || used + offset > LARGEINT_MAX {
        return Err(IntegerOverflow);
      }
      offset := offset + used;
      if offset > opstackOffsetMaximum {
        opstackOffsetMaximum := offset;
      }
      opstack := opstack + [v.(size := used, depth := offset)];
      return Ok(());
    }

    /** Without an expected kind any operand will do. */
    method PopOpstack(expected: Option<Kind>) returns (r: Result<Operand>)
      modifies `opstack
      ensures old(opstack) == [] ==> r == Err(StackUnderflow)
      ensures old(opstack) != [] ==>
                && opstack == Drop(old(opstack), 1)
                && r == if expected.Some? && Top(old(opstack), 0).kind != expected.value then Err(InvalidOperand)
                        else Ok(Top(old(opstack), 0))
    {
      if opstack == [] {
        return Err(StackUnderflow);
      }
      var v := opstack[|opstack| - 1];
      opstack := opstack[..|opstack| - 1];
      if expected.Some? && v.kind != expected.value {
        return Err(InvalidOperand);
      }
      return Ok(v);
    }

    function RetrieveTop(offset: nat): (r: Result<Operand>)
      reads this
    {
      if |opstack| <= offset then Err(StackUnderflow) else Ok(opstack[|opstack| - 1 - offset])
    }

    method AppendLocal(ty: nat) returns (r: Result<()>)
      requires Valid() && |localstack| < localstackMaximum && |opstack| + |localstack| < journalMaximum
      modifies `localstack, `localOffsetMaximum
      ensures r.Ok? ==> PushLocal(env, old(localstack), ty, instrNum) == Ok(localstack)
      ensures r.Ok? ==> localOffsetMaximum == Max(old(localOffsetMaximum), LocalDepth(localstack))
      ensures r.Err? ==> PushLocal(env, old(localstack), ty, instrNum) == Err(r.error)
    {
      hide RoundDown;
      var size, align := env.size(ty), env.align(ty);
      var offset: nat := 0;
      if localstack != [] {
        offset := localstack[|localstack| - 1].depth;
      }
      if size > LARGEINT_MAX || offset + size > LARGEINT_MAX {
        return Err(IntegerOverflow);
      }
      offset := offset + size;
      if align > LARGEINT_MAX || offset + (align - 1) > LARGEINT_MAX || offset + (offset + (align - 1)) > LARGEINT_MAX {
        return Err(IntegerOverflow);
      }
      offset := offset + (align - 1);
      offset := RoundDown(offset, align);
      if offset > localOffsetMaximum {
        localOffsetMaximum := offset;
      }
      localstack := localstack + [Local(ty, false, instrNum, offset)];
      return Ok(());
    }

    method PopLocal() returns (r: Result<Local>)
      modifies `localstack
      ensures old(localstack) == [] ==> r == Err(StackUnderflow)
      ensures old(localstack) != [] ==>
                localstack == old(localstack[..|localstack| - 1]) && r == Ok(old(localstack[|localstack| - 1]))
    {
      if localstack == [] {
        return Err(StackUnderflow);
      }
      var v := localstack[|localstack| - 1];
      localstack := localstack[..|localstack| - 1];
      return Ok(v);
    }

    // -------------------------------------------------------------- jumps

    method NarrowJumpRanges(first: nat, lo: nat)
      requires Valid()
      modifies metalist
      ensures metalist[..] == NarrowFrom(old(metalist[..]), first, lo, instrNum)
    {
      ghost var metas := metalist[..];
      var i := first;
      while i < instrNum
        invariant first <= i && (i <= instrNum || i == first)
        invariant forall t :: 0 <= t < |code| ==> metalist[t] == if first <= t < i then Narrow(metas[t], lo, instrNum) else metas[t]
      {
        if metalist[i].minJumpRange < lo {
          metalist[i] := metalist[i].(minJumpRange := lo);
        }
        if metalist[i].maxJumpRange > instrNum {
          metalist[i] := metalist[i].(maxJumpRange := instrNum);
        }
        i := i + 1;
      }
      assert forall t :: 0 <= t < |code| ==> metalist[..][t] == NarrowFrom(metas, first, lo, instrNum)[t];
    }

    method StitchJump(dest: nat) returns (r: Result<()>)
      requires Valid()
      ensures r.Ok? <==> (stitching ==> dest < |code| && metalist[dest].Admits(instrNum))
    {
      if !stitching {
        return Ok(());
      }
      if dest >= metalist.Length {
        return Err(InvalidJumpTarget);
      }
      var meta := metalist[dest];
      if instrNum < meta.minJumpRange || instrNum > meta.maxJumpRange || !meta.validJumpTarget {
        return Err(InvalidJumpTarget);
      }
      return Ok(());
    }

    method DecodeLabel(delta: int) returns (r: Result<nat>)
      requires Valid()
      ensures var target := Label(Program(env, 0, code), instrNum, delta);
              r == if target.Some? then Ok(target.value) else Err(InvalidOperand)
    {
      var target := instrNum + delta;
      if target < 0 || target >= |code| {
        return Err(InvalidOperand);
      }
      return Ok(target);
    }

    /** The EndBarrier a return inside a barrier goes to. */
    method FindEndBarrier() returns (r: Result<nat>)
      requires Valid()
      ensures var end := MatchingEnd(code, instrNum, 1);
              r == if end.Some? then Ok(end.value) else Err(ForbiddenState)
    {
      var target, barrierCount := instrNum, 1;
      while target < |code|
        invariant instrNum <= target <= |code| && barrierCount >= 1
        invariant MatchingEnd(code, instrNum, 1) == MatchingEnd(code, target, barrierCount)
      {
        if code[target].EndBarrier? {
          barrierCount := barrierCount - 1;
        } else if code[target].StartBarrier? {
          barrierCount := barrierCount + 1;
        }
        if barrierCount == 0 {
          return Ok(target);
        }
        target := target + 1;
      }
      return Err(ForbiddenState);
    }

    // -------------------------------------------------------------- instructions

    method CompileAllocLocal(ty: nat) returns (r: Result<()>)
      requires Valid() && instrNum < |code| && code[instrNum] == AllocLocal(ty) && HasRoom()
      modifies `localstack, `localOffsetMaximum
      ensures Did(old(Here()), r.Ok?, Here())
    {
      hide PushLocal;
      if |opstack| != 0 {
        return Err(ForbiddenState);
      }
      r := AppendLocal(ty);
    }

    method CompileCreateLocal(ty: nat) returns (r: Result<()>)
      requires Valid() && instrNum < |code| && code[instrNum] == CreateLocal(ty) && HasRoom()
      modifies `opstack, `localstack, `localOffsetMaximum
      ensures Did(old(Here()), r.Ok?, Here())
    {
      hide PushLocal;
      var v :- PopOpstack(Some(Value));
      var _ :- AppendLocal(ty);
      if |opstack| != 0 {
        return Err(ForbiddenState);
      }
      if v.ty != ty {
        return Err(InvalidOperand);
      }
      return Ok(());
    }

    method CompileRemoveLocal() returns (r: Result<()>)
      requires Valid() && instrNum < |code| && code[instrNum] == RemoveLocal && |localstack| >= |env.params|
      modifies `localstack, metalist
      ensures Did(old(Here()), r.Ok?, Here())
      ensures r.Ok? ==> metalist[..] == Confine(code, instrNum, old(Here().st), old(metalist[..]))
    {
      if |opstack| != 0 {
        return Err(ForbiddenState);
      }
      if |localstack| == |env.params| {
        return Err(StackUnderflow);
      }
      var popped := PopLocal();
      NarrowJumpRanges(popped.value.born + 1, popped.value.born);
      return Ok(());
    }

    method CompileLocalRef(index: int) returns (r: Result<()>)
      requires Valid() && instrNum < |code| && code[instrNum] == PushLocalRef(index) && HasRoom()
      modifies `opstack, `opstackOffsetMaximum
      ensures Did(old(Here()), r.Ok?, Here())
    {
      hide PushOperand;
      if index < 0 || index >= |localstack| {
        return Err(InvalidOperand);
      }
      r := AppendOpstack(Fresh(LocalRef, localstack[index].ty, index, 0, instrNum));
    }

    method CompileLoad() returns (r: Result<()>)
      requires Valid() && instrNum < |code| && code[instrNum] == Load && HasRoom()
      modifies `opstack, `opstackOffsetMaximum
      ensures Did(old(Here()), r.Ok?, Here())
    {
      hide PushOperand;
      var v :- PopOpstack(None);
      if !v.kind.LocalRef? {
        return Err(InvalidOperand);
      }
      if v.index >= |localstack| {
        return Err(StackUnderflow);
      }
      r := AppendOpstack(Fresh(Value, localstack[v.index].ty, 0, 0, instrNum));
    }

    method CompileMove() returns (r: Result<()>)
      requires Valid() && instrNum < |code| && code[instrNum] == Move
      modifies `opstack
      ensures Did(old(Here()), r.Ok?, Here())
    {
      var dest :- PopOpstack(None);
      var source :- PopOpstack(None);
      if !env.compatible(source.ty, dest.ty) {
        return Err(IncompatibleConversion);
      }
      if !dest.kind.LocalRef? || !Returnable(source) {
        return Err(InvalidOperand);
      }
      return Ok(());
    }

    method CompilePop() returns (r: Result<()>)
      requires Valid() && instrNum < |code| && code[instrNum] == Pop
      modifies `opstack
      ensures Did(old(Here()), r.Ok?, Here())
    {
      var v :- PopOpstack(None);
      if v.kind.Barrier? {
        return Err(InvalidOperand);
      }
      return Ok(());
    }

    method CompileConstant(ty: nat, value: int) returns (r: Result<()>)
      requires Valid() && instrNum < |code| && code[instrNum] == Constant(ty, value) && HasRoom()
      modifies `opstack, `opstackOffsetMaximum
      ensures Did(old(Here()), r.Ok?, Here())
    {
      hide PushOperand;
      var _ :- AppendOpstack(Fresh(Value, ty, 0, 0, instrNum));
      match env.constants(ty) {
        case NoConstants =>
          return Err(InvalidOperand);
        case Integers(lo, hi) =>
          if value < lo || value > hi {
            return Err(InvalidOperand);
          }
        case Enumerants(lo, hi, isEnumerant) =>
          if value < lo || value > hi || !isEnumerant(value) {
            return Err(InvalidOperand);
          }
      }
      return Ok(());
    }

    method CompilePushEmpty(ty: nat) returns (r: Result<()>)
      requires Valid() && instrNum < |code| && code[instrNum] == PushEmpty(ty) && HasRoom()
      modifies `opstack, `opstackOffsetMaximum
      ensures Did(old(Here()), r.Ok?, Here())
    {
      hide PushOperand;
      r := AppendOpstack(Fresh(Shell, ty, 0, 0, instrNum));
    }

    /** The source also looks at the kinds of the guarded values, but its test never fails. */
    method CompileStartBarrier(count: int) returns (r: Result<()>)
      requires Valid() && instrNum < |code| && code[instrNum] == StartBarrier(count) && HasRoom()
      modifies `opstack, `opstackOffsetMaximum
      ensures Did(old(Here()), r.Ok?, Here())
    {
      hide PushOperand;
      if count < 1 {
        return Err(InvalidOperand);
      }
      var i := 0;
      while i < count
        invariant 0 <= i <= count && i <= |opstack|
      {
        var _ :- RetrieveTop(i);
        i := i + 1;
      }
      r := AppendOpstack(Fresh(Barrier, 0, 0, count, instrNum));
    }

    method CompileEndBarrier() returns (r: Result<()>)
      requires Valid() && instrNum < |code| && code[instrNum] == EndBarrier
      modifies `opstack, metalist
      ensures Did(old(Here()), r.Ok?, Here())
      ensures r.Ok? ==> metalist[..] == Confine(code, instrNum, old(Here().st), old(metalist[..]))
    {
      var barrier :- PopOpstack(Some(Barrier));
      if instrNum == 0 || !code[instrNum - 1].Return? {
        return Err(ForbiddenState);
      }
      NarrowJumpRanges(barrier.born, barrier.born);
      r := LivenShells(barrier.count);
    }

    /** The shells that a barrier guarded become values. */
    method LivenShells(n: int) returns (r: Result<()>)
      modifies `opstack
      ensures r.Ok? <==> n <= |old(opstack)|
      ensures r.Ok? ==> opstack == Liven(old(opstack), n)
    {
      ghost var rest := opstack;
      var i := 0;
      while i < n
        invariant 0 <= i && (i <= n || i == 0) && i <= |rest|
        invariant opstack == Liven(rest, i)
      {
        var v :- RetrieveTop(i);
        if v.kind.Shell? {
          opstack := opstack[|opstack| - 1 - i := v.(kind := Value)];
        }
        i := i + 1;
      }
      assert Liven(rest, i) == Liven(rest, n);
      return Ok(());
    }

    method CompileExit(n: nat) returns (r: Result<()>)
      requires n == |opstack| && env.stackAlign >= 1
      modifies `opstack
      ensures r.Ok? <==> ExecExit(env, n, old(opstack)).Ok?
      ensures r.Ok? ==> opstack == []
    {
      hide ResultSpace, ExecExit, OperandSize;
      if n != |env.results| {
        return Err(InvalidOperand);
      }
      ghost var ops := opstack;
      var destinationOffset, i := 0, 0;
      SpaceStarts(env);
      while i < n
        invariant 0 <= i <= n && opstack == ops[..n - i] && ResultSpace(env, n - i) == Ok(destinationOffset)
        invariant forall j :: n - i <= j < n ==> Returnable(ops[j]) && env.compatible(ops[j].ty, env.results[j])
      {
        var popped := PopOpstack(None);
        var v := popped.value;
        if !Returnable(v) {
          return Err(InvalidOperand);
        }
        if !env.compatible(v.ty, env.results[n - 1 - i]) {
          return Err(IncompatibleConversion);
        }
        SpaceBefore(env, n - 1 - i);
        var sizeUsed :- OperandSize(env, Value, env.results[n - 1 - i]);
        if sizeUsed > LARGEINT_MAX || destinationOffset + sizeUsed > LARGEINT_MAX {
          return Err(IntegerOverflow);
        }
        destinationOffset := destinationOffset + sizeUsed;
        i := i + 1;
      }
      return Ok(());
    }

    method CompileBarrierReturn(n: nat) returns (r: Result<()>)
      requires n != |opstack|
      modifies `opstack
      ensures r.Ok? <==> ExecReturn(env, n, old(opstack)).Ok?
      ensures r.Ok? ==> opstack == ExecReturn(env, n, old(opstack)).value
    {
      hide ExecReturn;
      if n < 1 || n > |opstack| {
        return Err(InvalidOperand);
      }
      var barrier := RetrieveTop(n).value;
      if !barrier.kind.Barrier? || barrier.count != n {
        return Err(InvalidOperand);
      }
      ghost var ops := opstack;
      var i := 0;
      while i < n
        invariant 0 <= i <= n && opstack == Drop(ops, i) && (i > 0 ==> n + i < |ops|)
        invariant forall j :: 0 <= j < i ==> n + 1 + j < |ops| && ReturnFits(env, ops, n, j)
      {
        var popped := PopOpstack(None);
        var v := popped.value;
        var dest :- RetrieveTop(n);
        assert v == Top(ops, i) && dest == Top(ops, n + 1 + i);
        assert ReturnFits(env, ops, n, i) <==> Returnable(v) && dest.kind.Shell? && env.compatible(v.ty, dest.ty);
        if !Returnable(v) {
          return Err(InvalidOperand);
        }
        if !dest.kind.Shell? || !env.compatible(v.ty, dest.ty) {
          return Err(IncompatibleConversion);
        }
        i := i + 1;
      }
      return Ok(());
    }

    method CompileReturn(count: int) returns (r: Result<()>)
      requires Valid() && instrNum < |code| && code[instrNum] == Return(count)
      modifies `opstack
      ensures DidJump(old(Here()), r.Ok?, Here(), metalist[..])
    {
      hide ExecExit, ExecReturn, MatchingEnd;
      if count < 0 {
        return Err(InvalidOperand);
      }
      if count == |opstack| {
        r := CompileExit(count);
      } else {
        var target :- FindEndBarrier();
        var _ :- CompileBarrierReturn(count);
        r := StitchJump(target);
      }
    }

    method CompileJump(delta: int) returns (r: Result<()>)
      requires Valid() && instrNum < |code| && code[instrNum] == Jump(delta)
      ensures DidJump(old(Here()), r.Ok?, Here(), metalist[..])
    {
      if |opstack| != 0 && !RetrieveTop(0).value.kind.Barrier? {
        return Err(ForbiddenState);
      }
      var target :- DecodeLabel(delta);
      r := StitchJump(target);
    }

    method CompileConditionalJump(delta: int) returns (r: Result<()>)
      requires Valid() && instrNum < |code| && (code[instrNum] == JumpIfTrue(delta) || code[instrNum] == JumpIfFalse(delta))
      modifies `opstack
      ensures DidJump(old(Here()), r.Ok?, Here(), metalist[..])
    {
      var v :- PopOpstack(Some(Value));
      if |opstack| != 0 && !RetrieveTop(0).value.kind.Barrier? {
        return Err(ForbiddenState);
      }
      if v.ty != env.boolType {
        return Err(InvalidOperand);
      }
      var target :- DecodeLabel(delta);
      r := StitchJump(target);
    }

    /** The current instruction. */
    method CompileInstr() returns (r: Result<()>)
      requires Valid() && instrNum < |code| && |localstack| >= |env.params| && HasRoom()
      modifies `opstack, `localstack, `localOffsetMaximum, `opstackOffsetMaximum, metalist
      ensures DidJump(old(Here()), r.Ok?, Here(), old(metalist[..]))
      ensures r.Ok? ==> metalist[..] == Confine(code, instrNum, old(Here().st), old(metalist[..]))
    {
      hide PassStep;
      match code[instrNum] {
        case AllocLocal(ty) => r := CompileAllocLocal(ty);
        case CreateLocal(ty) => r := CompileCreateLocal(ty);
        case RemoveLocal => r := CompileRemoveLocal();
        case PushLocalRef(index) => r := CompileLocalRef(index);
        case Load => r := CompileLoad();
        case Move => r := CompileMove();
        case Pop => r := CompilePop();
        case Constant(ty, value) => r := CompileConstant(ty, value);
        case PushEmpty(ty) => r := CompilePushEmpty(ty);
        case StartBarrier(count) => r := CompileStartBarrier(count);
        case EndBarrier => r := CompileEndBarrier();
        case Return(count) => r := CompileReturn(count);
        case Jump(delta) => r := CompileJump(delta);
        case JumpIfTrue(delta) => r := CompileConditionalJump(delta);
        case JumpIfFalse(delta) => r := CompileConditionalJump(delta);
      }
    }

    // -------------------------------------------------------------- passes

    /** Before the current instruction, the pass begun with maxima `m` and `o` is where it should be. */
    ghost predicate InPass(m: nat, o: nat)
      requires Valid()
      reads this, metalist
    {
      && PassAt(env, code, m, o, instrNum) == Ok(Here())
      && (if stitching then StitchedUpTo(env, code, m, instrNum, Here(), metalist[..])
          else NotedUpTo(env, code, m, instrNum, Here(), metalist[..]))
    }

    /** The pass cannot be completed. */
    ghost predicate Hopeless(m: nat, o: nat)
      requires Valid()
      reads this
    {
      PassAt(env, code, m, o, |code|).Err? || (stitching && !Accepted(Program(env, m, code)))
    }

    /** Notes whether the current instruction may be jumped to. */
    method MarkTarget()
      requires Valid() && instrNum < |code|
      modifies metalist
      ensures var p := Program(env, 0, code);
              metalist[..] == if stitching then Revalidated(old(metalist[..]), instrNum, opstack)
                              else old(metalist[..])[instrNum := Reset(p, instrNum, Here().st)]
    {
      if !stitching {
        metalist[instrNum] := metalist[instrNum].(minJumpRange := 0, maxJumpRange := |code| - 1);
      }
      metalist[instrNum] := metalist[instrNum].(validJumpTarget := false);
      if |opstack| == 0 || RetrieveTop(0).value.kind.Barrier? {
        metalist[instrNum] := metalist[instrNum].(validJumpTarget := true);
      }
    }

    /** One instruction of a pass. */
    method CompileNext(ghost m: nat, ghost o: nat) returns (r: Result<()>)
      requires Valid() && instrNum < |code| && InPass(m, o) && Sized()
      modifies `opstack, `localstack, `localOffsetMaximum, `opstackOffsetMaximum, `instrNum, metalist
      ensures Valid()
      ensures r.Ok? ==> instrNum == old(instrNum) + 1 && InPass(m, o)
      ensures r.Err? ==> Hopeless(m, o)
    {
      hide PassAt, PassStep, StitchedUpTo, NotedUpTo, Confine, Accepted, Clear, Revalidated;
      ghost var i, before, metas := instrNum, Here(), metalist[..];
      ghost var p := Program(env, m, code);
      PassNext(env, code, m, o, i);
      PushesFit(env, code, m, o, i);
      MarkTarget();
      if stitching {
        NothingNew(env, code, m, i, before, metas);
        ClearIff(env, code, m, i, before, metas);
        StitchedIsBalanced(env, code, m, i, before, metas);
        AcceptedUpToAll(p, i + 1);
      }
      r := CompileInstr();
      if r.Ok? {
        if stitching {
          StitchNext(env, code, m, i, before, metas);
        } else {
          NoteNext(env, code, m, i, before, metas);
        }
        instrNum := instrNum + 1;
      }
    }

    method CompilePass() returns (r: Result<()>)
      requires Valid() && opstack == [] && localstack == [] && Sized()
      requires stitching ==> Stitchable(env, code, localOffsetMaximum, metalist[..])
      modifies `opstack, `localstack, `localOffsetMaximum, `opstackOffsetMaximum, `instrNum, metalist
      ensures Valid()
      ensures var m, e := old(localOffsetMaximum), FullPass(env, code, old(localOffsetMaximum), old(opstackOffsetMaximum));
              && (r.Ok? <==> e.Ok? && (stitching ==> Accepted(Program(env, m, code))))
              && (r.Ok? ==>
                    && localOffsetMaximum == e.value.localMax && opstackOffsetMaximum == e.value.opMax
                    && opstack == [] && localstack == []
                    && (localOffsetMaximum == m ==>
                          Balanced(Program(env, m, code)) && metalist[..] == MetasAt(Program(env, m, code), |code|)))
    {
      hide PassAt, StitchedUpTo, NotedUpTo, MetasAt, Accepted;
      ghost var m, o := localOffsetMaximum, opstackOffsetMaximum;
      var j := 0;
      while j < |env.params|
        invariant j <= |env.params| && localstack == Start(env).locals[..j]
        modifies `localstack
      {
        localstack := localstack + [Local(env.params[j], true, 0, 0)];
        j := j + 1;
      }
      instrNum := 0;
      assert localstack == Start(env).locals;
      assert InPass(m, o) by {
        PassStarts(env, code, m, o, metalist[..]);
      }
      while instrNum < |code|
        invariant Valid() && InPass(m, o) && Sized()
      {
        var _ :- CompileNext(m, o);
      }
      if |opstack| != 0 || |localstack| != |env.params| {
        return Err(StacksUnbalanced);
      }
      PassEnds(env, code, m, metalist[..], Here(), stitching);
      localstack := [];
      return Ok(());
    }
  }

  /** The local area, rounded up to the operand boundary. */
  method RoundLocalArea(env: Env, localMax: nat) returns (r: Result<nat>)
    requires Sane(env)
    ensures r == LocalArea(env, localMax)
  {
    var lsSize := localMax;
    if lsSize + (env.stackAlign - 1) > LARGEINT_MAX {
      return Err(IntegerOverflow);
    }
    lsSize := lsSize + (env.stackAlign - 1);
    lsSize := RoundDown(lsSize, env.stackAlign);
    return Ok(lsSize);
  }

  method RoundFrame(opMax: nat) returns (r: Result<nat>)
    ensures r == FrameCapacity(opMax)
  {
    var extraPad := opMax % RDX_MAX_ALIGNMENT;
    if extraPad != 0 {
      extraPad := RDX_MAX_ALIGNMENT - extraPad;
    }
    ExtraPad(opMax);
    if opMax + extraPad > LARGEINT_MAX {
      return Err(IntegerOverflow);
    }
    return Ok(opMax + extraPad);
  }

  /** rdxCompileMethod, as far as the stacks and the frame are concerned. */
  method CompileMethod(env: Env, code: seq<Instr>) returns (r: Result<Compiled>)
    requires Sane(env)
    ensures r.Ok? <==> CompileResult(env, code).Ok?
    ensures r.Ok? ==> r == CompileResult(env, code)
  {
    hide FullPass, PadTo, Accepted, MetasAt, Balanced, Stitchable, LargestLocal;
    var ilp := new PassCompiler(env, code);
    if FullPass(env, code, LargestLocal(env, code), 0).Ok? {
      CountingLoses(env, code, LargestLocal(env, code), 0);
    }
    var _ :- ilp.CreateStacks();
    var _ :- ilp.CompilePass();
    ghost var first := ilp.opstackOffsetMaximum;
    var lsSize :- RoundLocalArea(env, ilp.localOffsetMaximum);
    ilp.localOffsetMaximum := lsSize;
    var _ :- ilp.CompilePass();
    BecomesStitchable(env, code, LargestLocal(env, code), lsSize, first, ilp.metalist[..]);
    ilp.stitching := true;
    var _ :- ilp.CompilePass();
    var frameCapacity :- RoundFrame(ilp.opstackOffsetMaximum);
    return Ok(Compiled(lsSize, frameCapacity));
  }

  lemma ExtraPad(n: nat)
    ensures PadTo(n, RDX_MAX_ALIGNMENT) == if n % RDX_MAX_ALIGNMENT == 0 then n else n + (RDX_MAX_ALIGNMENT - n % RDX_MAX_ALIGNMENT)
  {
  }

  lemma SpaceStarts(env: Env)
    requires env.stackAlign >= 1
    ensures ResultSpace(env, |env.results|) == Ok(0)
  {
  }

  /** The space from result `k` on, from that behind it; without it there is none for all. */
  lemma SpaceBefore(env: Env, k: nat)
    requires env.stackAlign >= 1 && k < |env.results| && ResultSpace(env, k + 1).Ok?
    ensures var before, used := ResultSpace(env, k + 1).value, OperandSize(env, Value, env.results[k]);
            if used.Err? || used.value > LARGEINT_MAX || before + used.value > LARGEINT_MAX then ResultSpace(env, 0).Err?
            else ResultSpace(env, k) == Ok(before + used.value)
  {
    hide OperandSize;
    if ResultSpace(env, k).Err? {
      SpaceLacks(env, k, 0);
    }
  }

  lemma {:induction false} SpaceLacks(env: Env, k: nat, j: nat)
    requires env.stackAlign >= 1 && j <= k <= |env.results| && ResultSpace(env, k).Err?
    ensures ResultSpace(env, j).Err?
    decreases k - j
  {
    hide OperandSize;
    if j < k {
      SpaceLacks(env, k, j + 1);
    }
  }
}
