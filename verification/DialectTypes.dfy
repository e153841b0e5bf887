/** Types, values, expression nodes and stack operations of the finite formal dialect. */
module DialectTypes {
  import opened Arithmetic

  const I32_MIN := -0x8000_0000

  predicate FitsI32(x: int) { I32_MIN <= x <= I32_MAX }

  type I32 = x: int | FitsI32(x)

  datatype Range = Range(min: I32, max: I32)

  /** Ranges are only built through constructors that refuse an empty interval. */
  type IntRange = r: Range | r.min <= r.max witness Range(0, 0)

  /** Unicode White_Space, which trimming a name removes. */
  predicate IsSpace(c: char) {
    var u := c as int;
    || 0x09 <= u <= 0x0D || u == 0x20 || u == 0x85 || u == 0xA0 || u == 0x1680
    || 0x2000 <= u <= 0x200A || u == 0x2028 || u == 0x2029 || u == 0x202F || u == 0x205F || u == 0x3000
  }

  /** Trimming leaves nothing. */
  predicate Blank(name: string) { name == "" || (IsSpace(name[0]) && Blank(name[1..])) }

  datatype EnumSchema = EnumSchema(name: string, variants: seq<string>)

  predicate ValidEnum(e: EnumSchema) {
    && !Blank(e.name) && |e.variants| > 0
    && (forall i :: 0 <= i < |e.variants| ==> !Blank(e.variants[i]))
    && (forall i, j :: 0 <= i < j < |e.variants| ==> e.variants[i] != e.variants[j])
  }

  /** Enumerations are only built with at least one, uniquely named variant. */
  type EnumType = e: EnumSchema | ValidEnum(e) witness EnumSchema("e", ["v"])

  datatype FieldType = FieldType(name: string, ty: Type)

  datatype RecordType = RecordType(name: string, fields: seq<FieldType>)

  datatype Type =
    | BoolType
    | IntegerType(range: IntRange)
    | EnumerationType(schema: EnumType)
    | RecordOf(record: RecordType)
    | ArrayOf(element: Type, len: nat)

  datatype Value =
    | BoolValue(b: bool)
    | IntegerValue(i: I32)
    | EnumerationValue(typeName: string, ordinal: nat)
    | RecordValue(recordName: string, fields: seq<Value>)
    | ArrayValue(values: seq<Value>)

  predicate Contains(range: Range, x: int) { range.min <= x <= range.max }

  /** Membership of a runtime value in a finite type. */
  predicate Accepts(ty: Type, v: Value)
    decreases ty
  {
    match (ty, v)
    case (BoolType, BoolValue(_)) => true
    case (IntegerType(range), IntegerValue(i)) => Contains(range, i)
    case (EnumerationType(schema), EnumerationValue(name, ordinal)) =>
      name == schema.name && ordinal < |schema.variants|
    case (RecordOf(record), RecordValue(name, fields)) =>
      && name == record.name && |fields| == |record.fields|
      && forall k :: 0 <= k < |fields| ==> Accepts(record.fields[k].ty, fields[k])
    case (ArrayOf(element, len), ArrayValue(values)) =>
      |values| == len && forall k :: 0 <= k < |values| ==> Accepts(element, values[k])
    case _ => false
  }

  /** The values of a type, listed: every type is finite. */
  ghost function ValuesOf(ty: Type): set<Value>
    decreases ty
  {
    match ty
    case BoolType => {BoolValue(true), BoolValue(false)}
    case IntegerType(range) => set i: I32 | range.min <= i <= range.max :: IntegerValue(i)
    case EnumerationType(schema) => set k: nat | k < |schema.variants| :: EnumerationValue(schema.name, k)
    case RecordOf(record) =>
      set fields | fields in Choices(seq(|record.fields|, k requires 0 <= k < |record.fields| => ValuesOf(record.fields[k].ty)))
        :: RecordValue(record.name, fields)
    case ArrayOf(element, len) =>
      set values | values in Choices(seq(len, _ => ValuesOf(element))) :: ArrayValue(values)
  }

  /** One member of each set, in every way. */
  ghost function Choices(sets: seq<set<Value>>): set<seq<Value>> {
    if sets == [] then {[]}
    else set front, v | front in Choices(sets[..|sets| - 1]) && v in sets[|sets| - 1] :: front + [v]
  }

  lemma {:induction false} ChoicesExact(sets: seq<set<Value>>, values: seq<Value>)
    ensures values in Choices(sets) <==> |values| == |sets| && forall k :: 0 <= k < |sets| ==> values[k] in sets[k]
  {
    if sets != [] {
      var last := |sets| - 1;
      if |values| == |sets| {
        ChoicesExact(sets[..last], values[..last]);
        assert values == values[..last] + [values[last]];
      }
      if values in Choices(sets) {
        var front, v :| front in Choices(sets[..last]) && v in sets[last] && values == front + [v];
        ChoicesExact(sets[..last], front);
        assert values[..last] == front;
      }
    }
  }

  /** A type accepts exactly its finitely many values. */
  lemma {:induction false} AcceptsExactly(ty: Type, v: Value)
    ensures Accepts(ty, v) <==> v in ValuesOf(ty)
    decreases ty
  {
    match ty
    case BoolType =>
    case IntegerType(range) =>
    case EnumerationType(schema) =>
    case RecordOf(record) =>
      if v.RecordValue? {
        var sets := seq(|record.fields|, k requires 0 <= k < |record.fields| => ValuesOf(record.fields[k].ty));
        ChoicesExact(sets, v.fields);
        forall k | 0 <= k < |record.fields| && |v.fields| == |record.fields|
          ensures Accepts(record.fields[k].ty, v.fields[k]) <==> v.fields[k] in sets[k]
        {
          AcceptsExactly(record.fields[k].ty, v.fields[k]);
        }
      }
    case ArrayOf(element, len) =>
      if v.ArrayValue? {
        var sets := seq(len, _ => ValuesOf(element));
        ChoicesExact(sets, v.values);
        forall k | 0 <= k < |v.values|
          ensures Accepts(element, v.values[k]) <==> v.values[k] in ValuesOf(element)
        {
          AcceptsExactly(element, v.values[k]);
        }
      }
  }

  /** Blank names are those of white space alone. */
  lemma {:induction false} BlankIsAllSpace(name: string)
    ensures Blank(name) <==> forall k :: 0 <= k < |name| ==> IsSpace(name[k])
  {
    if name != "" {
      BlankIsAllSpace(name[1..]);
      assert name == [name[0]] + name[1..];
    }
  }

  datatype ComputationKind = StateRole | Observation | LegalAction | Transition | Scoring | Property

  datatype Origin = Origin(ruleId: string, document: string, line: nat, clause: string, computation: ComputationKind)

  datatype NodeKind =
    | Constant(value: Value)
    | Input(name: string)
    | Enumeration(schema: EnumType, ordinal: nat)
    | EnumerationOrdinal(operand: nat, variantCount: nat)
    | Record(recordType: RecordType, fields: seq<nat>)
    | Field(record: nat, index: nat)
    | Array(elementType: Type, elements: seq<nat>)
    | Index(source: nat, position: nat)
    | Equal(left: nat, right: nat)
    | Less(left: nat, right: nat)
    | LessEqual(left: nat, right: nat)
    | Not(operand: nat)
    | All(operands: seq<nat>)
    | Any(operands: seq<nat>)
    | Select(condition: nat, whenTrue: nat, whenFalse: nat)
    | Sum(operands: seq<nat>, range: IntRange)

  datatype Node = Node(kind: NodeKind, ty: Type, origin: Origin)

  function Children(kind: NodeKind): seq<nat> {
    match kind
    case Constant(_) => []
    case Input(_) => []
    case Enumeration(_, _) => []
    case EnumerationOrdinal(operand, _) => [operand]
    case Record(_, fields) => fields
    case Field(record, _) => [record]
    case Array(_, elements) => elements
    case Index(source, position) => [source, position]
    case Equal(left, right) => [left, right]
    case Less(left, right) => [left, right]
    case LessEqual(left, right) => [left, right]
    case Not(operand) => [operand]
    case All(operands) => operands
    case Any(operands) => operands
    case Select(condition, whenTrue, whenFalse) => [condition, whenTrue, whenFalse]
    case Sum(operands, _) => operands
  }

  datatype Op =
    | Push(value: Value)
    | LoadInput(name: string)
    | MakeEnumeration(typeName: string, ordinal: nat)
    | TakeOrdinal(variantCount: nat)
    | MakeRecord(recordName: string, fieldCount: nat)
    | TakeField(index: nat)
    | MakeArray(elementType: Type, len: nat)
    | TakeIndex
    | TestEqual
    | TestLess
    | TestLessEqual
    | Negate
    | AllOf(count: nat)
    | AnyOf(count: nat)
    | Choose
    | AddUp(len: nat, range: IntRange)

  datatype LocatedOp = LocatedOp(op: Op, origin: Origin)

  function FromNode(kind: NodeKind): Op {
    match kind
    case Constant(value) => Push(value)
    case Input(name) => LoadInput(name)
    case Enumeration(schema, ordinal) => MakeEnumeration(schema.name, ordinal)
    case EnumerationOrdinal(_, count) => TakeOrdinal(count)
    case Record(recordType, fields) => MakeRecord(recordType.name, |fields|)
    case Field(_, index) => TakeField(index)
    case Array(elementType, elements) => MakeArray(elementType, |elements|)
    case Index(_, _) => TakeIndex
    case Equal(_, _) => TestEqual
    case Less(_, _) => TestLess
    case LessEqual(_, _) => TestLessEqual
    case Not(_) => Negate
    case All(operands) => AllOf(|operands|)
    case Any(operands) => AnyOf(|operands|)
    case Select(_, _, _) => Choose
    case Sum(operands, range) => AddUp(|operands|, range)
  }

  /** How many operands an operation takes from the stack. */
  function Arity(op: Op): nat {
    match op
    case Push(_) => 0
    case LoadInput(_) => 0
    case MakeEnumeration(_, _) => 0
    case TakeOrdinal(_) => 1
    case MakeRecord(_, count) => count
    case TakeField(_) => 1
    case MakeArray(_, len) => len
    case TakeIndex => 2
    case TestEqual => 2
    case TestLess => 2
    case TestLessEqual => 2
    case Negate => 1
    case AllOf(count) => count
    case AnyOf(count) => count
    case Choose => 3
    case AddUp(len, _) => len
  }

  // ----- Meaning of one operation on its operand values -----

  type Env = map<string, Value>

  predicate Ordered(v: Value) { v.IntegerValue? || v.EnumerationValue? }

  function Rank(v: Value): int
    requires Ordered(v)
  {
    if v.IntegerValue? then v.i else v.ordinal
  }

  predicate AllBools(args: seq<Value>) { forall k :: 0 <= k < |args| ==> args[k].BoolValue? }

  predicate AllIntegers(args: seq<Value>) { forall k :: 0 <= k < |args| ==> args[k].IntegerValue? }

  function Total(args: seq<Value>): int
    requires AllIntegers(args)
  {
    if args == [] then 0 else Total(args[..|args| - 1]) + args[|args| - 1].i
  }

  /** Totals are sums: of nothing zero, of one integer itself, of two lists together their totals added. */
  lemma {:induction false} TotalLaws(x: I32, a: seq<Value>, b: seq<Value>)
    requires AllIntegers(a) && AllIntegers(b)
    ensures AllIntegers(a + b) && AllIntegers([]) && AllIntegers([IntegerValue(x)])
    ensures Total([]) == 0 && Total([IntegerValue(x)]) == x
    ensures Total(a + b) == Total(a) + Total(b)
    decreases |b|
  {
    assert [IntegerValue(x)][..0] == [];
    if b == [] {
      assert a + b == a;
    } else {
      TotalLaws(x, a, b[..|b| - 1]);
      assert (a + b)[..|a + b| - 1] == a + b[..|b| - 1];
    }
  }

  /** The operands have the shapes the operation computes with. */
  predicate Shaped(op: Op, args: seq<Value>, env: Env)
    requires |args| == Arity(op)
  {
    match op
    case LoadInput(name) => name in env
    case TakeOrdinal(_) => args[0].EnumerationValue? && args[0].ordinal <= I32_MAX
    case TakeField(index) => args[0].RecordValue? && index < |args[0].fields|
    case TakeIndex => args[0].ArrayValue? && args[1].IntegerValue? && 0 <= args[1].i < |args[0].values|
    case TestLess => Ordered(args[0]) && Ordered(args[1])
    case TestLessEqual => Ordered(args[0]) && Ordered(args[1])
    case Negate => args[0].BoolValue?
    case AllOf(_) => AllBools(args)
    case AnyOf(_) => AllBools(args)
    case Choose => args[0].BoolValue?
    case AddUp(_, _) => AllIntegers(args) && FitsI32(Total(args))
    case _ => true
  }

  /** The value the operation denotes, with comparison on unbounded ordinals and exact sums. */
  function Meaning(op: Op, args: seq<Value>, env: Env): Value
    requires |args| == Arity(op) && Shaped(op, args, env)
  {
    match op
    case Push(value) => value
    case LoadInput(name) => env[name]
    case MakeEnumeration(typeName, ordinal) => EnumerationValue(typeName, ordinal)
    case TakeOrdinal(_) => IntegerValue(args[0].ordinal)
    case MakeRecord(recordName, _) => RecordValue(recordName, args)
    case TakeField(index) => args[0].fields[index]
    case MakeArray(_, _) => ArrayValue(args)
    case TakeIndex => args[0].values[args[1].i]
    case TestEqual => BoolValue(args[0] == args[1])
    case TestLess => BoolValue(Rank(args[0]) < Rank(args[1]))
    case TestLessEqual => BoolValue(Rank(args[0]) <= Rank(args[1]))
    case Negate => BoolValue(!args[0].b)
    case AllOf(_) => BoolValue(forall k :: 0 <= k < |args| ==> args[k].b)
    case AnyOf(_) => BoolValue(exists k :: 0 <= k < |args| && args[k].b)
    case Choose => if args[0].b then args[1] else args[2]
    case AddUp(_, _) => IntegerValue(Total(args))
  }

  /** The ordinals a comparison looks at fit the 32-bit integers it compares. */
  predicate RanksFit(op: Op, args: seq<Value>)
    requires |args| == Arity(op)
  {
    if (op.TestLess? || op.TestLessEqual?) && Ordered(args[0]) && Ordered(args[1]) then
      FitsI32(Rank(args[0])) && FitsI32(Rank(args[1]))
    else true
  }

  /** The running sum never leaves the 32-bit integers. */
  predicate PartialSumsFit(args: seq<Value>)
    requires AllIntegers(args)
  {
    args == [] || (PartialSumsFit(args[..|args| - 1]) && FitsI32(Total(args)))
  }

  /** The remaining runtime checks of the interpreter. */
  predicate Checked(op: Op, args: seq<Value>)
    requires |args| == Arity(op)
  {
    match op
    case TakeOrdinal(count) => args[0].EnumerationValue? ==> args[0].ordinal < count
    case MakeArray(elementType, _) => forall k :: 0 <= k < |args| ==> Accepts(elementType, args[k])
    case AddUp(_, range) => AllIntegers(args) ==> PartialSumsFit(args) && Contains(range, Total(args))
    case _ => true
  }

  /** The interpreter completes the operation on these operands. */
  predicate Executable(op: Op, args: seq<Value>, env: Env)
    requires |args| == Arity(op)
  {
    Shaped(op, args, env) && RanksFit(op, args) && Checked(op, args)
  }
}
