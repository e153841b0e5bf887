/** The stack interpreter of lowered programs, with its runtime checks. */
module Evaluation {
  import opened Wrappers
  import opened Arithmetic
  import opened DialectTypes
  import opened Building
  import opened Lowering

  /** One operation on a stack: its last operands give way to the value they mean. */
  ghost function Apply(op: Op, stack: seq<Value>, env: Env): Option<seq<Value>> {
    var n := Arity(op);
    if n <= |stack| && Executable(op, stack[|stack| - n..], env) then
      Some(stack[..|stack| - n] + [Meaning(op, stack[|stack| - n..], env)])
    else None
  }

  /** The first fault of adding up, in operand order: a value that is no integer, or a running sum
      outside the 32-bit integers. */
  ghost function SumTrouble(args: seq<Value>): (r: Option<Reason>)
    ensures r.None? <==> AllIntegers(args) && PartialSumsFit(args)
  {
    if args == [] then None
    else
      var last := |args| - 1;
      assert forall k :: 0 <= k < last ==> args[..last][k] == args[k];
      var before := SumTrouble(args[..last]);
      if before.Some? then before
      else if !args[last].IntegerValue? then Some(WrongShape)
      else if !FitsI32(Total(args[..last]) + args[last].i) then Some(SumOverflow)
      else None
  }

  function CompareTrouble(left: Value, right: Value): Reason {
    if !Ordered(left) then WrongShape
    else if !FitsI32(Rank(left)) then OrdinalTooWide
    else if !Ordered(right) then WrongShape
    else OrdinalTooWide
  }

  /** Why an operation is refused on operands it cannot be executed on, in the order of its checks. */
  ghost function Refusal(op: Op, args: seq<Value>, env: Env): Reason
    requires |args| == Arity(op) && !Executable(op, args, env)
  {
    match op
    case LoadInput(_) => MissingInput
    case TakeOrdinal(count) =>
      if !args[0].EnumerationValue? then WrongShape else if args[0].ordinal >= count then OutOfBounds else OrdinalTooWide
    case TakeField(_) => if !args[0].RecordValue? then WrongShape else OutOfBounds
    case MakeArray(_, _) => IllTypedElement
    case TakeIndex =>
      if !args[1].IntegerValue? then WrongShape
      else if args[1].i < 0 then NegativeIndex
      else if !args[0].ArrayValue? then WrongShape
      else OutOfBounds
    case TestLess => CompareTrouble(args[0], args[1])
    case TestLessEqual => CompareTrouble(args[0], args[1])
    case AddUp(_, _) => if SumTrouble(args).Some? then SumTrouble(args).value else SumEscapes
    case _ => WrongShape
  }

  /** Why an operation is refused on a stack. */
  ghost function StackRefusal(op: Op, stack: seq<Value>, env: Env): Reason
    requires Apply(op, stack, env).None?
  {
    if |stack| < Arity(op) then StackUnderflow else Refusal(op, stack[|stack| - Arity(op)..], env)
  }

  /** Straight-line execution, in order, up to the first operation that is refused. */
  ghost function Execute(ops: seq<LocatedOp>, stack: seq<Value>, env: Env): Option<seq<Value>> {
    if ops == [] then Some(stack)
    else
      var before := Execute(ops[..|ops| - 1], stack, env);
      if before.None? then None else Apply(ops[|ops| - 1].op, before.value, env)
  }

  /** The diagnostic of the first refused operation: its reason, origin and position. */
  ghost function Trouble(ops: seq<LocatedOp>, stack: seq<Value>, env: Env): (d: Option<Diagnostic>)
    ensures d.None? <==> Execute(ops, stack, env).Some?
  {
    if ops == [] then None
    else
      var last := |ops| - 1;
      var before := Trouble(ops[..last], stack, env);
      if before.Some? then before
      else
        var reached := Execute(ops[..last], stack, env).value;
        if Apply(ops[last].op, reached, env).Some? then None
        else Some(Diagnostic(StackRefusal(ops[last].op, reached, env), ops[last].origin, Some(last)))
  }

  lemma ExecuteStep(ops: seq<LocatedOp>, stack: seq<Value>, env: Env, k: nat)
    requires k < |ops|
    ensures Execute(ops[..k + 1], stack, env) ==
      var before := Execute(ops[..k], stack, env);
      if before.None? then None else Apply(ops[k].op, before.value, env)
  {
    assert ops[..k + 1][..k] == ops[..k];
  }

  /** What goes wrong first stays what goes wrong, however the list continues. */
  lemma {:induction false} TroubleStays(ops: seq<LocatedOp>, stack: seq<Value>, env: Env, k: nat)
    requires k <= |ops| && Trouble(ops[..k], stack, env).Some?
    ensures Trouble(ops, stack, env) == Trouble(ops[..k], stack, env)
    decreases |ops|
  {
    if k < |ops| {
      assert ops[..|ops| - 1][..k] == ops[..k];
      TroubleStays(ops[..|ops| - 1], stack, env, k);
    } else {
      assert ops[..k] == ops;
    }
  }

  lemma TroubleHere(ops: seq<LocatedOp>, stack: seq<Value>, env: Env, k: nat)
    requires k < |ops| && Execute(ops[..k], stack, env).Some?
    requires Apply(ops[k].op, Execute(ops[..k], stack, env).value, env).None?
    ensures Trouble(ops, stack, env) ==
      Some(Diagnostic(StackRefusal(ops[k].op, Execute(ops[..k], stack, env).value, env), ops[k].origin, Some(k)))
  {
    hide Apply, StackRefusal;
    assert ops[..k + 1][..k] == ops[..k];
    TroubleStays(ops, stack, env, k + 1);
  }

  class Evaluator {
    const inputs: Env
    var stack: seq<Value>
    var instruction: nat

    constructor (inputs: Env)
      ensures this.inputs == inputs && stack == [] && instruction == 0
    {
      this.inputs := inputs;
      stack := [];
      instruction := 0;
    }

    function Fail(reason: Reason, origin: Origin): Diagnostic
      reads this
    {
      Diagnostic(reason, origin, Some(instruction))
    }

    method Pop(origin: Origin) returns (r: Result<Value, Diagnostic>)
      modifies this`stack
      ensures r.Success? <==> |old(stack)| > 0
      ensures r.Success? ==> r.value == old(stack)[|old(stack)| - 1] && stack == old(stack)[..|old(stack)| - 1]
      ensures r.Failure? ==> r.error == Fail(StackUnderflow, origin) && stack == old(stack)
    {
      if |stack| == 0 {
        return Failure(Fail(StackUnderflow, origin));
      }
      r := Success(stack[|stack| - 1]);
      stack := stack[..|stack| - 1];
    }

    method PopN(count: nat, origin: Origin) returns (r: Result<seq<Value>, Diagnostic>)
      modifies this`stack
      ensures r.Success? <==> count <= |old(stack)|
      ensures r.Success? ==> r.value == old(stack)[|old(stack)| - count..] && stack == old(stack)[..|old(stack)| - count]
      ensures r.Failure? ==> r.error == Fail(StackUnderflow, origin) && stack == old(stack)
    {
      if count > |stack| {
        return Failure(Fail(StackUnderflow, origin));
      }
      r := Success(stack[|stack| - count..]);
      stack := stack[..|stack| - count];
    }

    function Boolean(value: Value, origin: Origin): (r: Result<bool, Diagnostic>)
      reads this
      ensures r.Success? <==> value.BoolValue?
      ensures r.Failure? ==> r.error == Fail(WrongShape, origin)
    {
      if value.BoolValue? then Success(value.b) else Failure(Fail(WrongShape, origin))
    }

    function Ordinal(value: Value, origin: Origin): (r: Result<I32, Diagnostic>)
      reads this
      ensures r.Success? <==> Ordered(value) && FitsI32(Rank(value))
      ensures r.Success? ==> r.value == Rank(value)
      ensures r.Failure? ==> r.error == Fail(if Ordered(value) then OrdinalTooWide else WrongShape, origin)
    {
      match value
      case IntegerValue(i) => Success(i)
      case EnumerationValue(_, ordinal) =>
        if ordinal <= I32_MAX then Success(ordinal) else Failure(Fail(OrdinalTooWide, origin))
      case _ => Failure(Fail(WrongShape, origin))
    }

    method Booleans(values: seq<Value>, origin: Origin) returns (r: Result<seq<bool>, Diagnostic>)
      ensures r.Success? <==> AllBools(values)
      ensures r.Success? ==> |r.value| == |values| && forall k :: 0 <= k < |values| ==> r.value[k] == values[k].b
      ensures r.Failure? ==> r.error == Fail(WrongShape, origin)
    {
      var booleans: seq<bool> := [];
      for k := 0 to |values|
        invariant AllBools(values[..k]) && |booleans| == k
        invariant forall j :: 0 <= j < k ==> values[j].BoolValue? && booleans[j] == values[j].b
      {
        var b := Boolean(values[k], origin);
        if b.Failure? {
          return Failure(b.error);
        }
        booleans := booleans + [b.value];
      }
      r := Success(booleans);
    }

    /** Add up with a check at every step, then against the inferred range. */
    method CheckedSum(values: seq<Value>, range: IntRange, origin: Origin) returns (r: Result<I32, Diagnostic>)
      ensures r.Success? <==> AllIntegers(values) && PartialSumsFit(values) && Contains(range, Total(values))
      ensures r.Success? ==> r.value == Total(values)
      ensures r.Failure? ==>
        r.error == Fail(if SumTrouble(values).Some? then SumTrouble(values).value else SumEscapes, origin)
    {
      hide Total, PartialSumsFit, SumTrouble;
      var total: I32 := 0;
      SumStart();
      assert values[..0] == [];
      for k := 0 to |values|
        invariant AllIntegers(values[..k]) && PartialSumsFit(values[..k]) && total == Total(values[..k])
      {
        SumTroubleAt(values, k);
        if !values[k].IntegerValue? {
          return Failure(Fail(WrongShape, origin));
        }
        SumStep(values, k);
        if !FitsI32(total + values[k].i) {
          return Failure(Fail(SumOverflow, origin));
        }
        total := total + values[k].i;
      }
      assert values[..|values|] == values;
      if !Contains(range, total) {
        return Failure(Fail(SumEscapes, origin));
      }
      r := Success(total);
    }

    method PopTwo(origin: Origin) returns (r: Result<(Value, Value), Diagnostic>)
      modifies this`stack
      ensures r.Success? <==> |old(stack)| >= 2
      ensures r.Success? ==>
        && old(stack)[|old(stack)| - 2..] == [r.value.0, r.value.1]
        && stack == old(stack)[..|old(stack)| - 2]
      ensures r.Failure? ==> r.error == Fail(StackUnderflow, origin)
    {
      var right := Pop(origin);
      if right.Failure? {
        return Failure(right.error);
      }
      var left := Pop(origin);
      if left.Failure? {
        return Failure(left.error);
      }
      r := Success((left.value, right.value));
    }

    method InterpretIndex(origin: Origin) returns (r: Result<(), Diagnostic>)
      modifies this`stack
      ensures Obeyed(TakeIndex, old(stack), stack, inputs, r, origin, instruction)
    {
      var operands := PopTwo(origin);
      if operands.Failure? {
        return Failure(operands.error);
      }
      var (source, position) := operands.value;
      if !position.IntegerValue? {
        return Failure(Fail(WrongShape, origin));
      }
      if position.i < 0 {
        return Failure(Fail(NegativeIndex, origin));
      }
      if !source.ArrayValue? {
        return Failure(Fail(WrongShape, origin));
      }
      if position.i >= |source.values| {
        return Failure(Fail(OutOfBounds, origin));
      }
      stack := stack + [source.values[position.i]];
      r := Success(());
    }

    method InterpretCompare(op: Op, origin: Origin) returns (r: Result<(), Diagnostic>)
      requires op.TestLess? || op.TestLessEqual?
      modifies this`stack
      ensures Obeyed(op, old(stack), stack, inputs, r, origin, instruction)
    {
      var operands := PopTwo(origin);
      if operands.Failure? {
        return Failure(operands.error);
      }
      var left := Ordinal(operands.value.0, origin);
      if left.Failure? {
        return Failure(left.error);
      }
      var right := Ordinal(operands.value.1, origin);
      if right.Failure? {
        return Failure(right.error);
      }
      stack := stack + [BoolValue(if op.TestLess? then left.value < right.value else left.value <= right.value)];
      r := Success(());
    }

    method InterpretJunction(op: Op, count: nat, origin: Origin) returns (r: Result<(), Diagnostic>)
      requires op == AllOf(count) || op == AnyOf(count)
      modifies this`stack
      ensures Obeyed(op, old(stack), stack, inputs, r, origin, instruction)
    {
      var values := PopN(count, origin);
      if values.Failure? {
        return Failure(values.error);
      }
      var booleans := Booleans(values.value, origin);
      if booleans.Failure? {
        return Failure(booleans.error);
      }
      var result := if op.AllOf? then forall k :: 0 <= k < |booleans.value| ==> booleans.value[k]
                    else exists k :: 0 <= k < |booleans.value| && booleans.value[k];
      stack := stack + [BoolValue(result)];
      r := Success(());
    }

    method InterpretChoose(origin: Origin) returns (r: Result<(), Diagnostic>)
      modifies this`stack
      ensures Obeyed(Choose, old(stack), stack, inputs, r, origin, instruction)
    {
      var branches := PopTwo(origin);
      if branches.Failure? {
        return Failure(branches.error);
      }
      var condition := Pop(origin);
      if condition.Failure? {
        return Failure(condition.error);
      }
      assert old(stack)[|old(stack)| - 3..] == [condition.value, branches.value.0, branches.value.1];
      assert old(stack)[..|old(stack)| - 2][..|old(stack)| - 3] == old(stack)[..|old(stack)| - 3];
      var b := Boolean(condition.value, origin);
      if b.Failure? {
        return Failure(b.error);
      }
      stack := stack + [if b.value then branches.value.0 else branches.value.1];
      r := Success(());
    }

    method InterpretSum(len: nat, range: IntRange, origin: Origin) returns (r: Result<(), Diagnostic>)
      modifies this`stack
      ensures Obeyed(AddUp(len, range), old(stack), stack, inputs, r, origin, instruction)
    {
      var values := PopN(len, origin);
      if values.Failure? {
        return Failure(values.error);
      }
      var total := CheckedSum(values.value, range, origin);
      if total.Failure? {
        return Failure(total.error);
      }
      stack := stack + [IntegerValue(total.value)];
      r := Success(());
    }

    method InterpretLeaf(op: Op, origin: Origin) returns (r: Result<(), Diagnostic>)
      requires op.Push? || op.LoadInput? || op.MakeEnumeration?
      modifies this`stack
      ensures Obeyed(op, old(stack), stack, inputs, r, origin, instruction)
    {
      assert stack[..|stack|] == stack;
      match op {
      case Push(value) =>
        stack := stack + [value];
      case LoadInput(name) =>
        if name !in inputs {
          return Failure(Fail(MissingInput, origin));
        }
        stack := stack + [inputs[name]];
      case MakeEnumeration(typeName, ordinal) =>
        stack := stack + [EnumerationValue(typeName, ordinal)];
      }
      return Success(());
    }

    method InterpretUnary(op: Op, origin: Origin) returns (r: Result<(), Diagnostic>)
      requires op.TakeOrdinal? || op.TakeField? || op.Negate?
      modifies this`stack
      ensures Obeyed(op, old(stack), stack, inputs, r, origin, instruction)
    {
      var operand := Pop(origin);
      if operand.Failure? {
        return Failure(operand.error);
      }
      var value := operand.value;
      assert old(stack)[|old(stack)| - 1..] == [value];
      match op {
      case TakeOrdinal(variantCount) =>
        if !value.EnumerationValue? {
          return Failure(Fail(WrongShape, origin));
        }
        if value.ordinal >= variantCount {
          return Failure(Fail(OutOfBounds, origin));
        }
        if value.ordinal > I32_MAX {
          return Failure(Fail(OrdinalTooWide, origin));
        }
        stack := stack + [IntegerValue(value.ordinal)];
      case TakeField(index) =>
        if !value.RecordValue? {
          return Failure(Fail(WrongShape, origin));
        }
        if index >= |value.fields| {
          return Failure(Fail(OutOfBounds, origin));
        }
        stack := stack + [value.fields[index]];
      case Negate =>
        var b := Boolean(value, origin);
        if b.Failure? {
          return Failure(b.error);
        }
        stack := stack + [BoolValue(!b.value)];
      }
      return Success(());
    }

    method InterpretRecord(recordName: string, fieldCount: nat, origin: Origin) returns (r: Result<(), Diagnostic>)
      modifies this`stack
      ensures Obeyed(MakeRecord(recordName, fieldCount), old(stack), stack, inputs, r, origin, instruction)
    {
      var fields := PopN(fieldCount, origin);
      if fields.Failure? {
        return Failure(fields.error);
      }
      stack := stack + [RecordValue(recordName, fields.value)];
      r := Success(());
    }

    method InterpretArray(elementType: Type, len: nat, origin: Origin) returns (r: Result<(), Diagnostic>)
      modifies this`stack
      ensures Obeyed(MakeArray(elementType, len), old(stack), stack, inputs, r, origin, instruction)
    {
      var values := PopN(len, origin);
      if values.Failure? {
        return Failure(values.error);
      }
      if exists k :: 0 <= k < |values.value| && !Accepts(elementType, values.value[k]) {
        return Failure(Fail(IllTypedElement, origin));
      }
      stack := stack + [ArrayValue(values.value)];
      r := Success(());
    }

    method InterpretEqual(origin: Origin) returns (r: Result<(), Diagnostic>)
      modifies this`stack
      ensures Obeyed(TestEqual, old(stack), stack, inputs, r, origin, instruction)
    {
      var operands := PopTwo(origin);
      if operands.Failure? {
        return Failure(operands.error);
      }
      stack := stack + [BoolValue(operands.value.0 == operands.value.1)];
      r := Success(());
    }

    /** Interpret one operation: it succeeds exactly when it is executable on the top of the stack,
        and every failure names its first violated check and the operation's origin and position. */
    method Interpret(located: LocatedOp) returns (r: Result<(), Diagnostic>)
      modifies this`stack
      ensures Obeyed(located.op, old(stack), stack, inputs, r, located.origin, instruction)
    {
      hide Obeyed;
      var origin := located.origin;
      match located.op
      case MakeRecord(recordName, fieldCount) => r := InterpretRecord(recordName, fieldCount, origin);
      case MakeArray(elementType, len) => r := InterpretArray(elementType, len, origin);
      case TestEqual => r := InterpretEqual(origin);
      case TakeIndex => r := InterpretIndex(origin);
      case TestLess => r := InterpretCompare(TestLess, origin);
      case TestLessEqual => r := InterpretCompare(TestLessEqual, origin);
      case AllOf(count) => r := InterpretJunction(AllOf(count), count, origin);
      case AnyOf(count) => r := InterpretJunction(AnyOf(count), count, origin);
      case Choose => r := InterpretChoose(origin);
      case AddUp(len, range) => r := InterpretSum(len, range, origin);
      case Push(_) => r := InterpretLeaf(located.op, origin);
      case LoadInput(_) => r := InterpretLeaf(located.op, origin);
      case MakeEnumeration(_, _) => r := InterpretLeaf(located.op, origin);
      case _ => r := InterpretUnary(located.op, origin);
    }
  }

  /** The interpreter did to the stack what the operation says, or refused exactly when it must. */
  ghost predicate Obeyed(op: Op, before: seq<Value>, after: seq<Value>, env: Env,
                         r: Result<(), Diagnostic>, origin: Origin, instruction: nat)
  {
    && (r.Success? <==> Apply(op, before, env).Some?)
    && (r.Success? ==> Some(after) == Apply(op, before, env))
    && (r.Failure? ==> r.error == Diagnostic(StackRefusal(op, before, env), origin, Some(instruction)))
  }

  /** Whatever program and stack, what the interpreter lets through keeps the static bounds written in the
      operation: sums and ordinals in range, arrays of accepted elements, projections inside. */
  lemma ExecutedWithin(op: Op, stack: seq<Value>, env: Env)
    requires Apply(op, stack, env).Some?
    ensures var after := Apply(op, stack, env).value;
      && |stack| >= Arity(op) && |after| == |stack| - Arity(op) + 1 && after[..|after| - 1] == stack[..|stack| - Arity(op)]
      && var v := after[|after| - 1];
         match op
         case TakeOrdinal(count) => v.IntegerValue? && 0 <= v.i < count
         case AddUp(_, range) => v.IntegerValue? && range.min <= v.i <= range.max
         case MakeArray(elementType, len) => Accepts(ArrayOf(elementType, len), v)
         case TakeIndex =>
           && stack[|stack| - 2].ArrayValue? && stack[|stack| - 1].IntegerValue?
           && 0 <= stack[|stack| - 1].i < |stack[|stack| - 2].values| && v == stack[|stack| - 2].values[stack[|stack| - 1].i]
         case TakeField(index) => stack[|stack| - 1].RecordValue? && index < |stack[|stack| - 1].fields| && v == stack[|stack| - 1].fields[index]
         case LoadInput(name) => name in env && v == env[name]
         case _ => true
  {
  }

  lemma SumStart()
    ensures AllIntegers([]) && PartialSumsFit([]) && Total([]) == 0
  {
  }

  /** One more integer extends the running sum. */
  lemma SumStep(values: seq<Value>, k: nat)
    requires k < |values| && AllIntegers(values[..k]) && PartialSumsFit(values[..k]) && values[k].IntegerValue?
    ensures AllIntegers(values[..k + 1])
    ensures Total(values[..k + 1]) == Total(values[..k]) + values[k].i
    ensures PartialSumsFit(values[..k + 1]) <==> FitsI32(Total(values[..k + 1]))
  {
    var longer := values[..k + 1];
    assert longer[..|longer| - 1] == values[..k];
    assert AllIntegers(longer);
  }

  /** The first operand that goes wrong decides the fault. */
  lemma SumTroubleAt(values: seq<Value>, k: nat)
    requires k < |values| && AllIntegers(values[..k]) && PartialSumsFit(values[..k])
    ensures !values[k].IntegerValue? ==> SumTrouble(values) == Some(WrongShape)
    ensures values[k].IntegerValue? && !FitsI32(Total(values[..k]) + values[k].i) ==> SumTrouble(values) == Some(SumOverflow)
  {
    var longer := values[..k + 1];
    assert longer[..|longer| - 1] == values[..k];
    if SumTrouble(longer).Some? {
      SumTroubleStays(values, k + 1);
    }
  }

  lemma {:induction false} SumTroubleStays(values: seq<Value>, k: nat)
    requires k <= |values| && SumTrouble(values[..k]).Some?
    ensures SumTrouble(values) == SumTrouble(values[..k])
    decreases |values|
  {
    if k < |values| {
      assert values[..|values| - 1][..k] == values[..k];
      SumTroubleStays(values[..|values| - 1], k);
    } else {
      assert values[..k] == values;
    }
  }

  // ----- Running a program -----

  /** The supplied inputs are exactly the required ones, each of its declared type. */
  ghost predicate InputsExact(required: map<string, Type>, inputs: Env) {
    required.Keys == inputs.Keys && forall name :: name in required ==> Accepts(required[name], inputs[name])
  }

  /** Runs the list in order; the outcome is the final stack or the first refused operation's diagnostic. */
  method Run(ops: seq<LocatedOp>, evaluator: Evaluator) returns (r: Result<(), Diagnostic>)
    modifies evaluator
    requires evaluator.instruction == 0
    ensures r.Success? ==> Some(evaluator.stack) == Execute(ops, old(evaluator.stack), evaluator.inputs)
    ensures r.Failure? ==> Trouble(ops, old(evaluator.stack), evaluator.inputs) == Some(r.error)
  {
    hide Apply, Trouble, StackRefusal;
    for k := 0 to |ops|
      invariant evaluator.instruction == k
      invariant Some(evaluator.stack) == Execute(ops[..k], old(evaluator.stack), evaluator.inputs)
    {
      ExecuteStep(ops, old(evaluator.stack), evaluator.inputs, k);
      var step := evaluator.Interpret(ops[k]);
      if step.Failure? {
        TroubleHere(ops, old(evaluator.stack), evaluator.inputs, k);
        return Failure(step.error);
      }
      evaluator.instruction := evaluator.instruction + 1;
    }
    assert ops[..|ops|] == ops;
    r := Success(());
  }

  // ----- Checking the inputs -----

  /** Lexicographic order of names, the order of the declared inputs. */
  predicate Precedes(a: string, b: string) {
    b != [] && (a == [] || a[0] < b[0] || (a[0] == b[0] && Precedes(a[1..], b[1..])))
  }

  lemma {:induction false} PrecedesTotal(a: string, b: string)
    ensures a == b || Precedes(a, b) || Precedes(b, a)
    ensures !(Precedes(a, b) && (a == b || Precedes(b, a)))
  {
    if a != [] && b != [] && a[0] == b[0] {
      PrecedesTotal(a[1..], b[1..]);
      assert a == [a[0]] + a[1..] && b == [b[0]] + b[1..];
    }
  }

  lemma {:induction false} PrecedesTransitive(a: string, b: string, c: string)
    requires Precedes(a, b) && Precedes(b, c)
    ensures Precedes(a, c)
  {
    if a != [] && a[0] == b[0] == c[0] {
      PrecedesTransitive(a[1..], b[1..], c[1..]);
    }
  }

  /** Lexicographic: at the first difference the smaller character precedes, or the shorter name ends. */
  lemma {:induction false} PrecedesMeans(a: string, b: string)
    ensures Precedes(a, b) <==> exists k :: 0 <= k <= |a| && k < |b| && a[..k] == b[..k] && (k == |a| || a[k] < b[k])
  {
    if a != [] && b != [] && a[0] == b[0] {
      var s, t := a[1..], b[1..];
      PrecedesMeans(s, t);
      if Precedes(s, t) {
        var k :| 0 <= k <= |s| && k < |t| && s[..k] == t[..k] && (k == |s| || s[k] < t[k]);
        assert a[..k + 1] == [a[0]] + s[..k] == b[..k + 1];
      }
      if k :| 0 <= k <= |a| && k < |b| && a[..k] == b[..k] && (k == |a| || a[k] < b[k]) {
        assert s[..k - 1] == a[..k][1..] == b[..k][1..] == t[..k - 1];
      }
    } else if b != [] {
      assert a[..0] == b[..0];
      forall k | 0 < k <= |a| && k < |b|
        ensures a[..k] != b[..k]
      {
        assert a[..k][0] == a[0] && b[..k][0] == b[0];
      }
    }
  }

  predicate FirstOf(name: string, names: set<string>) {
    name in names && forall other :: other in names && other != name ==> Precedes(name, other)
  }

  lemma {:induction false} FirstExists(names: set<string>) returns (name: string)
    requires names != {}
    ensures FirstOf(name, names)
    decreases |names|
  {
    name :| name in names;
    var others := names - {name};
    if others != {} {
      var least := FirstExists(others);
      PrecedesTotal(name, least);
      if Precedes(least, name) {
        name := least;
      } else {
        forall other | other in names && other != name
          ensures Precedes(name, other)
        {
          if other != least {
            PrecedesTransitive(name, least, other);
          }
        }
      }
    }
  }

  function InputOrigin(program: FormalProgram, name: string, fallback: Origin): Origin {
    if name in program.inputOrigins then program.inputOrigins[name] else fallback
  }

  /** What is wrong with one declared input, if anything, at the place that first reads it. */
  function InputFault(program: FormalProgram, inputs: Env, name: string, fallback: Origin): Option<Diagnostic>
    requires name in program.inputs
  {
    if name !in inputs then Some(AtOrigin(MissingInput, InputOrigin(program, name, fallback)))
    else if !Accepts(program.inputs[name], inputs[name]) then Some(AtOrigin(IllTypedInput, InputOrigin(program, name, fallback)))
    else None
  }

  /** The fault reported: that of the first faulty declared input in name order, or, when there is none,
      an undeclared input. */
  ghost predicate FirstInputFault(program: FormalProgram, inputs: Env, fallback: Origin, fault: Diagnostic) {
    || (exists name :: FaultyFirst(program, inputs, fallback, name) && InputFault(program, inputs, name, fallback) == Some(fault))
    || (&& (forall name :: name in program.inputs ==> InputFault(program, inputs, name, fallback).None?)
        && inputs.Keys - program.inputs.Keys != {} && fault == AtOrigin(ExtraInput, fallback))
  }

  ghost predicate FaultyFirst(program: FormalProgram, inputs: Env, fallback: Origin, name: string) {
    && name in program.inputs && InputFault(program, inputs, name, fallback).Some?
    && forall other :: other in program.inputs && Precedes(other, name) ==> InputFault(program, inputs, other, fallback).None?
  }

  method CheckInputs(program: FormalProgram, inputs: Env, fallback: Origin) returns (fault: Option<Diagnostic>)
    ensures fault.None? <==>
      && (forall name :: name in program.inputs ==> name in inputs && Accepts(program.inputs[name], inputs[name]))
      && (forall name :: name in inputs ==> name in program.inputs)
    ensures fault.Some? ==> FirstInputFault(program, inputs, fallback, fault.value)
  {
    hide Accepts, Precedes;
    var names := program.inputs.Keys;
    while names != {}
      invariant names <= program.inputs.Keys
      invariant forall name :: name in program.inputs && name !in names ==> InputFault(program, inputs, name, fallback).None?
      decreases names
    {
      ghost var least := FirstExists(names);
      var name :| name in names && FirstOf(name, names);
      FirstSettles(program, inputs, fallback, name, names);
      var origin := if name in program.inputOrigins then program.inputOrigins[name] else fallback;
      if name !in inputs {
        return Some(AtOrigin(MissingInput, origin));
      }
      if !Accepts(program.inputs[name], inputs[name]) {
        return Some(AtOrigin(IllTypedInput, origin));
      }
      names := names - {name};
    }
    if inputs.Keys - program.inputs.Keys != {} {
      return Some(AtOrigin(ExtraInput, fallback));
    }
    fault := None;
  }

  /** When everything outside `names` is in order, a fault of the first of them is the first fault. */
  lemma FirstSettles(program: FormalProgram, inputs: Env, fallback: Origin, name: string, names: set<string>)
    requires FirstOf(name, names) && names <= program.inputs.Keys
    requires forall other :: other in program.inputs && other !in names ==> InputFault(program, inputs, other, fallback).None?
    ensures InputFault(program, inputs, name, fallback).Some? ==> FaultyFirst(program, inputs, fallback, name)
  {
    forall other | other in program.inputs && Precedes(other, name)
      ensures InputFault(program, inputs, other, fallback).None?
    {
      PrecedesTotal(name, other);
    }
  }

  // ----- Evaluation -----

  ghost function Fallback(program: FormalProgram): Origin {
    if program.ops == [] then UnknownOrigin() else program.ops[|program.ops| - 1].origin
  }

  /** Evaluation succeeds exactly when the inputs are exact, the code runs through from the empty
      stack, and it leaves one value of the output type; otherwise the diagnostic is that of the first of
      these to be violated. */
  method Evaluate(program: FormalProgram, inputs: Env) returns (r: Result<Value, Diagnostic>)
    ensures r.Success? <==>
      && InputsExact(program.inputs, inputs)
      && var final := Execute(program.ops, [], inputs);
         final.Some? && |final.value| == 1 && Accepts(program.outputType, final.value[0])
    ensures r.Success? ==> Execute(program.ops, [], inputs) == Some([r.value])
    ensures r.Failure? ==>
      if !InputsExact(program.inputs, inputs) then FirstInputFault(program, inputs, Fallback(program), r.error)
      else if Trouble(program.ops, [], inputs).Some? then r.error == Trouble(program.ops, [], inputs).value
      else r.error == AtOrigin(if |Execute(program.ops, [], inputs).value| != 1 then NotOneValue else OutputType, Fallback(program))
  {
    hide Execute, Trouble, FirstInputFault;
    var fallback := if program.ops == [] then UnknownOrigin() else program.ops[|program.ops| - 1].origin;
    var fault := CheckInputs(program, inputs, fallback);
    if fault.Some? {
      return Failure(fault.value);
    }
    var evaluator := new Evaluator(inputs);
    var ran := Run(program.ops, evaluator);
    if ran.Failure? {
      return Failure(ran.error);
    }
    if |evaluator.stack| != 1 {
      return Failure(AtOrigin(NotOneValue, fallback));
    }
    var value := evaluator.stack[0];
    assert evaluator.stack == [value];
    if !Accepts(program.outputType, value) {
      return Failure(AtOrigin(OutputType, fallback));
    }
    r := Success(value);
  }
}
