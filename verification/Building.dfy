/** The builder of formal expression graphs. Every node it accepts obeys the typing rules
    below, each node referring only to earlier ones. */
module Building {
  import opened Wrappers
  import opened Arithmetic
  import opened DialectTypes

  datatype Reason =
    | ConstantOutsideType | InputNameEmpty | InputConflict | UnknownVariant | NotEnumeration | NotRecord | UnknownField
    | FieldCount | FieldMismatch | ElementMismatch | NotArray | NotInteger | BoundTooWide | IndexRange
    | AbsentNode | TypesDiffer | NotOrdered | WrongType | LowerBoundOverflow | UpperBoundOverflow | AbsentRoot
    | MissingInput | IllTypedInput | ExtraInput | StackUnderflow | WrongShape | NegativeIndex | OutOfBounds | OrdinalTooWide
    | IllTypedElement | SumOverflow | SumEscapes | NotOneValue | OutputType

  datatype Diagnostic = Diagnostic(reason: Reason, origin: Origin, instruction: Option<nat>)

  function AtOrigin(reason: Reason, origin: Origin): Diagnostic { Diagnostic(reason, origin, None) }

  // ----- Typing rules -----

  predicate AllBelow(ids: seq<nat>, n: nat) { forall k :: 0 <= k < |ids| ==> ids[k] < n }

  predicate AllOfType(nodes: seq<Node>, ids: seq<nat>, ty: Type)
    requires AllBelow(ids, |nodes|)
  {
    forall k :: 0 <= k < |ids| ==> nodes[ids[k]].ty == ty
  }

  predicate AllIntegerTyped(nodes: seq<Node>, ids: seq<nat>)
    requires AllBelow(ids, |nodes|)
  {
    forall k :: 0 <= k < |ids| ==> nodes[ids[k]].ty.IntegerType?
  }

  /** Sums of the lower (upper) bounds of integer-typed nodes. */
  function LowSum(nodes: seq<Node>, ids: seq<nat>): int
    requires AllBelow(ids, |nodes|) && AllIntegerTyped(nodes, ids)
  {
    if ids == [] then 0 else LowSum(nodes, ids[..|ids| - 1]) + nodes[ids[|ids| - 1]].ty.range.min
  }

  function HighSum(nodes: seq<Node>, ids: seq<nat>): int
    requires AllBelow(ids, |nodes|) && AllIntegerTyped(nodes, ids)
  {
    if ids == [] then 0 else HighSum(nodes, ids[..|ids| - 1]) + nodes[ids[|ids| - 1]].ty.range.max
  }

  /** The running bounds never leave the 32-bit integers. */
  predicate BoundsFit(nodes: seq<Node>, ids: seq<nat>)
    requires AllBelow(ids, |nodes|) && AllIntegerTyped(nodes, ids)
  {
    ids == [] ||
    (BoundsFit(nodes, ids[..|ids| - 1]) && FitsI32(LowSum(nodes, ids)) && FitsI32(HighSum(nodes, ids)))
  }

  /** Whether a node of this kind and type may be added behind the given nodes. */
  predicate Admissible(nodes: seq<Node>, inputs: map<string, Type>, kind: NodeKind, ty: Type) {
    && AllBelow(Children(kind), |nodes|)
    && match kind
       case Constant(value) => Accepts(ty, value)
       case Input(name) => !Blank(name) && name in inputs && inputs[name] == ty
       case Enumeration(schema, ordinal) => ordinal < |schema.variants| && ty == EnumerationType(schema)
       case EnumerationOrdinal(operand, count) =>
         && operand < |nodes| && nodes[operand].ty.EnumerationType?
         && count == |nodes[operand].ty.schema.variants| && count - 1 <= I32_MAX
         && ty == IntegerType(Range(0, count - 1))
       case Record(recordType, fields) =>
         && |fields| == |recordType.fields|
         && (forall k :: 0 <= k < |fields| ==> nodes[fields[k]].ty == recordType.fields[k].ty)
         && ty == RecordOf(recordType)
       case Field(record, index) =>
         && record < |nodes| && nodes[record].ty.RecordOf? && index < |nodes[record].ty.record.fields|
         && ty == nodes[record].ty.record.fields[index].ty
       case Array(elementType, elements) =>
         AllOfType(nodes, elements, elementType) && ty == ArrayOf(elementType, |elements|)
       case Index(source, position) =>
         && source < |nodes| && position < |nodes|
         && nodes[source].ty.ArrayOf? && nodes[position].ty.IntegerType?
         && nodes[source].ty.len <= I32_MAX
         && 0 <= nodes[position].ty.range.min && nodes[position].ty.range.max < nodes[source].ty.len
         && ty == nodes[source].ty.element
       case Equal(left, right) => SameType(nodes, left, right) && ty == BoolType
       case Less(left, right) =>
         SameType(nodes, left, right) && OrderedType(nodes[left].ty) && ty == BoolType
       case LessEqual(left, right) =>
         SameType(nodes, left, right) && OrderedType(nodes[left].ty) && ty == BoolType
       case Not(operand) => operand < |nodes| && nodes[operand].ty == BoolType && ty == BoolType
       case All(operands) => AllOfType(nodes, operands, BoolType) && ty == BoolType
       case Any(operands) => AllOfType(nodes, operands, BoolType) && ty == BoolType
       case Select(condition, whenTrue, whenFalse) =>
         && condition < |nodes| && nodes[condition].ty == BoolType
         && SameType(nodes, whenTrue, whenFalse) && ty == nodes[whenTrue].ty
       case Sum(operands, range) =>
         && AllIntegerTyped(nodes, operands) && BoundsFit(nodes, operands)
         && range.min == LowSum(nodes, operands) && range.max == HighSum(nodes, operands)
         && ty == IntegerType(range)
  }

  predicate SameType(nodes: seq<Node>, left: nat, right: nat) {
    left < |nodes| && right < |nodes| && nodes[left].ty == nodes[right].ty
  }

  predicate OrderedType(ty: Type) { ty.IntegerType? || ty.EnumerationType? }

  /** Every node is admissible behind the nodes before it. */
  ghost predicate WellTyped(nodes: seq<Node>, inputs: map<string, Type>) {
    forall i :: 0 <= i < |nodes| ==> Admissible(nodes[..i], inputs, nodes[i].kind, nodes[i].ty)
  }

  lemma PushKeepsTyped(nodes: seq<Node>, inputs: map<string, Type>, node: Node)
    requires WellTyped(nodes, inputs) && Admissible(nodes, inputs, node.kind, node.ty)
    ensures WellTyped(nodes + [node], inputs)
  {
    forall i | 0 <= i < |nodes| + 1
      ensures Admissible((nodes + [node])[..i], inputs, (nodes + [node])[i].kind, (nodes + [node])[i].ty)
    {
      assert (nodes + [node])[..i] == nodes[..i];
      assert nodes[..|nodes|] == nodes;
    }
  }

  lemma DeclareKeepsTyped(nodes: seq<Node>, inputs: map<string, Type>, name: string, ty: Type)
    requires WellTyped(nodes, inputs) && name !in inputs
    ensures WellTyped(nodes, inputs[name := ty])
  {
    forall i | 0 <= i < |nodes|
      ensures Admissible(nodes[..i], inputs[name := ty], nodes[i].kind, nodes[i].ty)
    {
      assert Admissible(nodes[..i], inputs, nodes[i].kind, nodes[i].ty);
    }
  }

  lemma {:induction false} SumOrder(nodes: seq<Node>, ids: seq<nat>)
    requires AllBelow(ids, |nodes|) && AllIntegerTyped(nodes, ids)
    ensures LowSum(nodes, ids) <= HighSum(nodes, ids)
  {
    if ids != [] {
      SumOrder(nodes, ids[..|ids| - 1]);
    }
  }

  // ----- Why a node is refused -----

  /** The first operand, in order, that is absent or not of the type it must have. */
  function ListFault(nodes: seq<Node>, ids: seq<nat>, types: seq<Type>, mismatch: Reason): (fault: Option<Reason>)
    requires |ids| == |types|
    ensures fault.None? <==> forall k :: 0 <= k < |ids| ==> ids[k] < |nodes| && nodes[ids[k]].ty == types[k]
  {
    if ids == [] then None
    else
      var last := |ids| - 1;
      assert forall k :: 0 <= k < last ==> ids[..last][k] == ids[k] && types[..last][k] == types[k];
      var before := ListFault(nodes, ids[..last], types[..last], mismatch);
      if before.Some? then before
      else if ids[last] >= |nodes| then Some(AbsentNode)
      else if nodes[ids[last]].ty != types[last] then Some(mismatch)
      else None
  }

  /** The same when every operand must have one type. */
  function UniformFault(nodes: seq<Node>, ids: seq<nat>, ty: Type, mismatch: Reason): (fault: Option<Reason>)
    ensures fault.None? <==> AllBelow(ids, |nodes|) && AllOfType(nodes, ids, ty)
  {
    ListFault(nodes, ids, seq(|ids|, _ => ty), mismatch)
  }

  function InputFault(inputs: map<string, Type>, name: string, ty: Type): Option<Reason> {
    if Blank(name) then Some(InputNameEmpty)
    else if name in inputs && inputs[name] != ty then Some(InputConflict)
    else None
  }

  function TypeFault(nodes: seq<Node>, id: nat, ty: Type): (fault: Option<Reason>)
    ensures fault.None? <==> id < |nodes| && nodes[id].ty == ty
  {
    if id >= |nodes| then Some(AbsentNode) else if nodes[id].ty != ty then Some(WrongType) else None
  }

  function SameTypeFault(nodes: seq<Node>, left: nat, right: nat): (fault: Option<Reason>)
    ensures fault.None? <==> SameType(nodes, left, right)
  {
    if left >= |nodes| || right >= |nodes| then Some(AbsentNode)
    else if nodes[left].ty != nodes[right].ty then Some(TypesDiffer)
    else None
  }

  function OrderedFault(nodes: seq<Node>, left: nat, right: nat): (fault: Option<Reason>)
    ensures fault.None? <==> SameType(nodes, left, right) && OrderedType(nodes[left].ty)
  {
    var fault := SameTypeFault(nodes, left, right);
    if fault.Some? then fault
    else if !OrderedType(nodes[left].ty) then Some(NotOrdered)
    else None
  }

  function SelectFault(nodes: seq<Node>, condition: nat, whenTrue: nat, whenFalse: nat): (fault: Option<Reason>)
    ensures fault.None? <==> condition < |nodes| && nodes[condition].ty == BoolType && SameType(nodes, whenTrue, whenFalse)
  {
    var fault := TypeFault(nodes, condition, BoolType);
    if fault.Some? then fault else SameTypeFault(nodes, whenTrue, whenFalse)
  }

  function OrdinalFault(nodes: seq<Node>, operand: nat): Option<Reason> {
    if operand >= |nodes| then Some(AbsentNode)
    else if !nodes[operand].ty.EnumerationType? then Some(NotEnumeration)
    else if |nodes[operand].ty.schema.variants| - 1 > I32_MAX then Some(BoundTooWide)
    else None
  }

  function RecordFault(nodes: seq<Node>, schema: RecordType, fields: seq<nat>): Option<Reason> {
    if |fields| != |schema.fields| then Some(FieldCount)
    else ListFault(nodes, fields, seq(|fields|, k requires 0 <= k < |fields| => schema.fields[k].ty), FieldMismatch)
  }

  function FieldFault(nodes: seq<Node>, record: nat, field: string): Option<Reason> {
    if record >= |nodes| then Some(AbsentNode)
    else if !nodes[record].ty.RecordOf? then Some(NotRecord)
    else if forall k :: 0 <= k < |nodes[record].ty.record.fields| ==> nodes[record].ty.record.fields[k].name != field then Some(UnknownField)
    else None
  }

  /** The array is looked at first, then the index, then whether the length can bound it. */
  function IndexFault(nodes: seq<Node>, source: nat, position: nat): Option<Reason> {
    if source >= |nodes| then Some(AbsentNode)
    else if !nodes[source].ty.ArrayOf? then Some(NotArray)
    else if position >= |nodes| then Some(AbsentNode)
    else if !nodes[position].ty.IntegerType? then Some(NotInteger)
    else if nodes[source].ty.len > I32_MAX then Some(BoundTooWide)
    else if nodes[position].ty.range.min < 0 || nodes[position].ty.range.max >= nodes[source].ty.len then Some(IndexRange)
    else None
  }

  /** The first operand, in order, that is no integer or takes a running bound out of the 32-bit integers,
      the lower bound first. */
  function SumFault(nodes: seq<Node>, ids: seq<nat>): (fault: Option<Reason>)
    ensures fault.None? <==> AllBelow(ids, |nodes|) && AllIntegerTyped(nodes, ids) && BoundsFit(nodes, ids)
  {
    if ids == [] then None
    else
      var last := |ids| - 1;
      assert forall k :: 0 <= k < last ==> ids[..last][k] == ids[k];
      var before := SumFault(nodes, ids[..last]);
      if before.Some? then before
      else if ids[last] >= |nodes| then Some(AbsentNode)
      else if !nodes[ids[last]].ty.IntegerType? then Some(NotInteger)
      else if !FitsI32(LowSum(nodes, ids)) then Some(LowerBoundOverflow)
      else if !FitsI32(HighSum(nodes, ids)) then Some(UpperBoundOverflow)
      else None
  }

  lemma {:induction false} ListFaultStays(nodes: seq<Node>, ids: seq<nat>, types: seq<Type>, mismatch: Reason, k: nat)
    requires |ids| == |types| && k <= |ids| && ListFault(nodes, ids[..k], types[..k], mismatch).Some?
    ensures ListFault(nodes, ids, types, mismatch) == ListFault(nodes, ids[..k], types[..k], mismatch)
    decreases |ids|
  {
    if k < |ids| {
      var last := |ids| - 1;
      assert ids[..last][..k] == ids[..k] && types[..last][..k] == types[..k];
      ListFaultStays(nodes, ids[..last], types[..last], mismatch, k);
    } else {
      assert ids[..k] == ids && types[..k] == types;
    }
  }

  /** The first operand at fault decides the reason. */
  lemma ListFaultAt(nodes: seq<Node>, ids: seq<nat>, types: seq<Type>, mismatch: Reason, k: nat)
    requires |ids| == |types| && k < |ids|
    requires forall j :: 0 <= j < k ==> ids[j] < |nodes| && nodes[ids[j]].ty == types[j]
    ensures ids[k] >= |nodes| ==> ListFault(nodes, ids, types, mismatch) == Some(AbsentNode)
    ensures ids[k] < |nodes| && nodes[ids[k]].ty != types[k] ==> ListFault(nodes, ids, types, mismatch) == Some(mismatch)
  {
    assert ids[..k + 1][..k] == ids[..k] && types[..k + 1][..k] == types[..k];
    if ListFault(nodes, ids[..k + 1], types[..k + 1], mismatch).Some? {
      ListFaultStays(nodes, ids, types, mismatch, k + 1);
    }
  }

  lemma {:induction false} SumFaultStays(nodes: seq<Node>, ids: seq<nat>, k: nat)
    requires k <= |ids| && SumFault(nodes, ids[..k]).Some?
    ensures SumFault(nodes, ids) == SumFault(nodes, ids[..k])
    decreases |ids|
  {
    if k < |ids| {
      assert ids[..|ids| - 1][..k] == ids[..k];
      SumFaultStays(nodes, ids[..|ids| - 1], k);
    } else {
      assert ids[..k] == ids;
    }
  }

  lemma SumFaultAt(nodes: seq<Node>, ids: seq<nat>, k: nat)
    requires k < |ids| && SumFault(nodes, ids[..k]).None?
    ensures SumFault(nodes, ids[..k + 1]).Some? ==> SumFault(nodes, ids) == SumFault(nodes, ids[..k + 1])
    ensures ids[k] >= |nodes| ==> SumFault(nodes, ids) == Some(AbsentNode)
    ensures ids[k] < |nodes| && !nodes[ids[k]].ty.IntegerType? ==> SumFault(nodes, ids) == Some(NotInteger)
  {
    assert ids[..k + 1][..k] == ids[..k];
    if SumFault(nodes, ids[..k + 1]).Some? {
      SumFaultStays(nodes, ids, k + 1);
    }
  }

  lemma SumFaultBounds(nodes: seq<Node>, ids: seq<nat>, k: nat)
    requires k < |ids| && SumFault(nodes, ids[..k]).None?
    requires AllBelow(ids[..k + 1], |nodes|) && AllIntegerTyped(nodes, ids[..k + 1])
    ensures !FitsI32(LowSum(nodes, ids[..k + 1])) ==> SumFault(nodes, ids) == Some(LowerBoundOverflow)
    ensures FitsI32(LowSum(nodes, ids[..k + 1])) && !FitsI32(HighSum(nodes, ids[..k + 1])) ==>
      SumFault(nodes, ids) == Some(UpperBoundOverflow)
  {
    assert ids[..k + 1][..k] == ids[..k];
    SumFaultAt(nodes, ids, k);
  }

  // ----- The builder -----

  /** What every constructor method promises: an admissible node is appended under the
      returned number, or a refusal with the reason and at the given origin leaves the nodes alone. */
  ghost predicate Appended(before: seq<Node>, after: seq<Node>, r: Result<nat, Diagnostic>,
                           kind: NodeKind, ty: Type, reason: Option<Reason>, origin: Origin)
  {
    match r
    case Success(id) => reason == None && id == |before| && after == before + [Node(kind, ty, origin)]
    case Failure(d) => Refused(before, after, r, reason, origin)
  }

  ghost predicate Refused(before: seq<Node>, after: seq<Node>, r: Result<nat, Diagnostic>, reason: Option<Reason>, origin: Origin) {
    r.Failure? && reason.Some? && after == before && r.error == AtOrigin(reason.value, origin)
  }

  class GraphBuilder {
    var nodes: seq<Node>
    var inputs: map<string, Type>

    ghost predicate Valid()
      reads this
    {
      WellTyped(nodes, inputs)
    }

    constructor ()
      ensures Valid() && nodes == [] && inputs == map[]
    {
      nodes := [];
      inputs := map[];
    }

    method PushNode(kind: NodeKind, ty: Type, origin: Origin) returns (id: nat)
      requires Valid() && Admissible(nodes, inputs, kind, ty)
      modifies this`nodes
      ensures Valid() && id == |old(nodes)| && nodes == old(nodes) + [Node(kind, ty, origin)]
    {
      PushKeepsTyped(nodes, inputs, Node(kind, ty, origin));
      id := |nodes|;
      nodes := nodes + [Node(kind, ty, origin)];
    }

    method AddConstant(ty: Type, value: Value, origin: Origin) returns (r: Result<nat, Diagnostic>)
      requires Valid()
      modifies this`nodes
      ensures Valid() && Appended(old(nodes), nodes, r, Constant(value), ty,
                                  if Accepts(ty, value) then None else Some(ConstantOutsideType), origin)
      ensures r.Success? <==> Accepts(ty, value)
    {
      if !Accepts(ty, value) {
        return Failure(AtOrigin(ConstantOutsideType, origin));
      }
      var id := PushNode(Constant(value), ty, origin);
      r := Success(id);
    }

    /** Repeating a name with the same type names the same input; with another type it is refused. */
    method AddInput(name: string, ty: Type, origin: Origin) returns (r: Result<nat, Diagnostic>)
      requires Valid()
      modifies this
      ensures Valid() && Appended(old(nodes), nodes, r, Input(name), ty, InputFault(old(inputs), name, ty), origin)
      ensures r.Success? <==> !Blank(name) && (name in old(inputs) ==> old(inputs)[name] == ty)
      ensures inputs == if r.Success? then old(inputs)[name := ty] else old(inputs)
    {
      if Blank(name) {
        return Failure(AtOrigin(InputNameEmpty, origin));
      }
      if name in inputs {
        if inputs[name] != ty {
          return Failure(AtOrigin(InputConflict, origin));
        }
      } else {
        DeclareKeepsTyped(nodes, inputs, name, ty);
        inputs := inputs[name := ty];
      }
      var id := PushNode(Input(name), ty, origin);
      r := Success(id);
    }

    method AddEnumeration(schema: EnumType, variant: string, origin: Origin)
      returns (r: Result<nat, Diagnostic>, ghost ordinal: nat)
      requires Valid()
      modifies this`nodes
      ensures Valid() && Appended(old(nodes), nodes, r, Enumeration(schema, ordinal), EnumerationType(schema),
                                  if variant in schema.variants then None else Some(UnknownVariant), origin)
      ensures r.Success? <==> variant in schema.variants
      ensures r.Success? ==> ordinal < |schema.variants| && schema.variants[ordinal] == variant
    {
      ordinal := 0;
      for i := 0 to |schema.variants|
        invariant variant !in schema.variants[..i]
      {
        if schema.variants[i] == variant {
          var id := PushNode(Enumeration(schema, i), EnumerationType(schema), origin);
          return Success(id), i;
        }
      }
      r := Failure(AtOrigin(UnknownVariant, origin));
    }

    method AddEnumerationOrdinal(operand: nat, origin: Origin) returns (r: Result<nat, Diagnostic>, ghost count: nat)
      requires Valid()
      modifies this`nodes
      ensures Valid()
      ensures r.Success? <==>
        && operand < |old(nodes)| && old(nodes)[operand].ty.EnumerationType?
        && |old(nodes)[operand].ty.schema.variants| - 1 <= I32_MAX
      ensures r.Success? ==> count == |old(nodes)[operand].ty.schema.variants|
      ensures r.Success? ==>
        Appended(old(nodes), nodes, r, EnumerationOrdinal(operand, count), IntegerType(Range(0, count - 1)), None, origin)
      ensures r.Failure? ==> Refused(old(nodes), nodes, r, OrdinalFault(old(nodes), operand), origin)
    {
      count := 0;
      if operand >= |nodes| {
        return Failure(AtOrigin(AbsentNode, origin)), count;
      }
      if !nodes[operand].ty.EnumerationType? {
        return Failure(AtOrigin(NotEnumeration, origin)), count;
      }
      var variantCount := |nodes[operand].ty.schema.variants|;
      if variantCount - 1 > I32_MAX {
        return Failure(AtOrigin(BoundTooWide, origin)), count;
      }
      var id := PushNode(EnumerationOrdinal(operand, variantCount), IntegerType(Range(0, variantCount - 1)), origin);
      return Success(id), variantCount;
    }

    method AddRecord(schema: RecordType, fields: seq<nat>, origin: Origin) returns (r: Result<nat, Diagnostic>)
      requires Valid()
      modifies this`nodes
      ensures Valid() && Appended(old(nodes), nodes, r, Record(schema, fields), RecordOf(schema), RecordFault(old(nodes), schema, fields), origin)
      ensures r.Success? <==>
        && |fields| == |schema.fields|
        && forall k :: 0 <= k < |fields| ==> fields[k] < |old(nodes)| && old(nodes)[fields[k]].ty == schema.fields[k].ty
    {
      if |fields| != |schema.fields| {
        return Failure(AtOrigin(FieldCount, origin));
      }
      hide Admissible, WellTyped, ListFault;
      ghost var types := seq(|fields|, k requires 0 <= k < |fields| => schema.fields[k].ty);
      for k := 0 to |fields|
        invariant nodes == old(nodes)
        invariant forall j :: 0 <= j < k ==> fields[j] < |nodes| && nodes[fields[j]].ty == types[j]
      {
        ListFaultAt(nodes, fields, types, FieldMismatch, k);
        if fields[k] >= |nodes| {
          return Failure(AtOrigin(AbsentNode, origin));
        }
        if nodes[fields[k]].ty != schema.fields[k].ty {
          return Failure(AtOrigin(FieldMismatch, origin));
        }
      }
      RecordAdmissible(nodes, inputs, schema, fields);
      var id := PushNode(Record(schema, fields), RecordOf(schema), origin);
      r := Success(id);
    }

    /** Projects the first field of that name. */
    method AddField(record: nat, field: string, origin: Origin)
      returns (r: Result<nat, Diagnostic>, ghost index: nat)
      requires Valid()
      modifies this`nodes
      ensures Valid()
      ensures r.Success? <==>
        && record < |old(nodes)| && old(nodes)[record].ty.RecordOf?
        && exists k :: 0 <= k < |old(nodes)[record].ty.record.fields| && old(nodes)[record].ty.record.fields[k].name == field
      ensures r.Success? ==>
        && index < |old(nodes)[record].ty.record.fields|
        && old(nodes)[record].ty.record.fields[index].name == field
        && (forall k :: 0 <= k < index ==> old(nodes)[record].ty.record.fields[k].name != field)
        && Appended(old(nodes), nodes, r, Field(record, index), old(nodes)[record].ty.record.fields[index].ty, None, origin)
      ensures r.Failure? ==> Refused(old(nodes), nodes, r, FieldFault(old(nodes), record, field), origin)
    {
      index := 0;
      if record >= |nodes| {
        return Failure(AtOrigin(AbsentNode, origin)), index;
      }
      if !nodes[record].ty.RecordOf? {
        return Failure(AtOrigin(NotRecord, origin)), index;
      }
      var schema := nodes[record].ty.record;
      for k := 0 to |schema.fields|
        invariant nodes == old(nodes)
        invariant forall j :: 0 <= j < k ==> schema.fields[j].name != field
      {
        if schema.fields[k].name == field {
          var id := PushNode(Field(record, k), schema.fields[k].ty, origin);
          return Success(id), k;
        }
      }
      r := Failure(AtOrigin(UnknownField, origin));
    }

    method AddArray(elementType: Type, elements: seq<nat>, origin: Origin) returns (r: Result<nat, Diagnostic>)
      requires Valid()
      modifies this`nodes
      ensures Valid() && Appended(old(nodes), nodes, r, Array(elementType, elements), ArrayOf(elementType, |elements|),
                                  UniformFault(old(nodes), elements, elementType, ElementMismatch), origin)
      ensures r.Success? <==> AllBelow(elements, |old(nodes)|) && AllOfType(old(nodes), elements, elementType)
    {
      var fault := RequireAll(elements, elementType, ElementMismatch);
      if fault.Some? {
        return Failure(AtOrigin(fault.value, origin));
      }
      var id := PushNode(Array(elementType, elements), ArrayOf(elementType, |elements|), origin);
      r := Success(id);
    }

    /** Only an index type lying wholly inside the array is accepted. */
    method AddIndex(source: nat, position: nat, origin: Origin) returns (r: Result<nat, Diagnostic>)
      requires Valid()
      modifies this`nodes
      ensures Valid()
      ensures r.Success? <==>
        && source < |old(nodes)| && old(nodes)[source].ty.ArrayOf?
        && position < |old(nodes)| && old(nodes)[position].ty.IntegerType?
        && old(nodes)[source].ty.len <= I32_MAX
        && forall x :: Contains(old(nodes)[position].ty.range, x) ==> 0 <= x < old(nodes)[source].ty.len
      ensures r.Success? ==> Appended(old(nodes), nodes, r, Index(source, position), old(nodes)[source].ty.element, None, origin)
      ensures r.Failure? ==> Refused(old(nodes), nodes, r, IndexFault(old(nodes), source, position), origin)
    {
      if source >= |nodes| {
        return Failure(AtOrigin(AbsentNode, origin));
      }
      if !nodes[source].ty.ArrayOf? {
        return Failure(AtOrigin(NotArray, origin));
      }
      var len := nodes[source].ty.len;
      if position >= |nodes| {
        return Failure(AtOrigin(AbsentNode, origin));
      }
      if !nodes[position].ty.IntegerType? {
        return Failure(AtOrigin(NotInteger, origin));
      }
      var range := nodes[position].ty.range;
      if len > I32_MAX {
        return Failure(AtOrigin(BoundTooWide, origin));
      }
      assert Contains(range, range.min) && Contains(range, range.max);
      if range.min < 0 || range.max >= len {
        return Failure(AtOrigin(IndexRange, origin));
      }
      var id := PushNode(Index(source, position), nodes[source].ty.element, origin);
      r := Success(id);
    }

    method AddEqual(left: nat, right: nat, origin: Origin) returns (r: Result<nat, Diagnostic>)
      requires Valid()
      modifies this`nodes
      ensures Valid() && Appended(old(nodes), nodes, r, Equal(left, right), BoolType, SameTypeFault(old(nodes), left, right), origin)
      ensures r.Success? <==> left < |old(nodes)| && right < |old(nodes)| && old(nodes)[left].ty == old(nodes)[right].ty
    {
      var fault := SameTypeFault(nodes, left, right);
      if fault.Some? {
        return Failure(AtOrigin(fault.value, origin));
      }
      var id := PushNode(Equal(left, right), BoolType, origin);
      r := Success(id);
    }

    method AddLess(left: nat, right: nat, origin: Origin) returns (r: Result<nat, Diagnostic>)
      requires Valid()
      modifies this`nodes
      ensures Valid() && Appended(old(nodes), nodes, r, Less(left, right), BoolType, OrderedFault(old(nodes), left, right), origin)
      ensures r.Success? <==>
        && left < |old(nodes)| && right < |old(nodes)|
        && old(nodes)[left].ty == old(nodes)[right].ty && OrderedType(old(nodes)[left].ty)
    {
      var fault := OrderedFault(nodes, left, right);
      if fault.Some? {
        return Failure(AtOrigin(fault.value, origin));
      }
      var id := PushNode(Less(left, right), BoolType, origin);
      r := Success(id);
    }

    method AddLessEqual(left: nat, right: nat, origin: Origin) returns (r: Result<nat, Diagnostic>)
      requires Valid()
      modifies this`nodes
      ensures Valid() && Appended(old(nodes), nodes, r, LessEqual(left, right), BoolType, OrderedFault(old(nodes), left, right), origin)
      ensures r.Success? <==>
        && left < |old(nodes)| && right < |old(nodes)|
        && old(nodes)[left].ty == old(nodes)[right].ty && OrderedType(old(nodes)[left].ty)
    {
      var fault := OrderedFault(nodes, left, right);
      if fault.Some? {
        return Failure(AtOrigin(fault.value, origin));
      }
      var id := PushNode(LessEqual(left, right), BoolType, origin);
      r := Success(id);
    }

    method AddNot(operand: nat, origin: Origin) returns (r: Result<nat, Diagnostic>)
      requires Valid()
      modifies this`nodes
      ensures Valid() && Appended(old(nodes), nodes, r, Not(operand), BoolType, TypeFault(old(nodes), operand, BoolType), origin)
      ensures r.Success? <==> operand < |old(nodes)| && old(nodes)[operand].ty == BoolType
    {
      if operand >= |nodes| {
        return Failure(AtOrigin(AbsentNode, origin));
      }
      if nodes[operand].ty != BoolType {
        return Failure(AtOrigin(WrongType, origin));
      }
      var id := PushNode(Not(operand), BoolType, origin);
      r := Success(id);
    }

    method RequireAll(operands: seq<nat>, expected: Type, mismatch: Reason) returns (fault: Option<Reason>)
      ensures fault == UniformFault(nodes, operands, expected, mismatch)
    {
      ghost var types := seq(|operands|, _ => expected);
      for k := 0 to |operands|
        invariant forall j :: 0 <= j < k ==> operands[j] < |nodes| && nodes[operands[j]].ty == types[j]
      {
        ListFaultAt(nodes, operands, types, mismatch, k);
        if operands[k] >= |nodes| {
          return Some(AbsentNode);
        }
        if nodes[operands[k]].ty != expected {
          return Some(mismatch);
        }
      }
      fault := None;
    }

    method AddAll(operands: seq<nat>, origin: Origin) returns (r: Result<nat, Diagnostic>)
      requires Valid()
      modifies this`nodes
      ensures Valid() && Appended(old(nodes), nodes, r, All(operands), BoolType, UniformFault(old(nodes), operands, BoolType, WrongType), origin)
      ensures r.Success? <==> AllBelow(operands, |old(nodes)|) && AllOfType(old(nodes), operands, BoolType)
    {
      var fault := RequireAll(operands, BoolType, WrongType);
      if fault.Some? {
        return Failure(AtOrigin(fault.value, origin));
      }
      var id := PushNode(All(operands), BoolType, origin);
      r := Success(id);
    }

    method AddAny(operands: seq<nat>, origin: Origin) returns (r: Result<nat, Diagnostic>)
      requires Valid()
      modifies this`nodes
      ensures Valid() && Appended(old(nodes), nodes, r, Any(operands), BoolType, UniformFault(old(nodes), operands, BoolType, WrongType), origin)
      ensures r.Success? <==> AllBelow(operands, |old(nodes)|) && AllOfType(old(nodes), operands, BoolType)
    {
      var fault := RequireAll(operands, BoolType, WrongType);
      if fault.Some? {
        return Failure(AtOrigin(fault.value, origin));
      }
      var id := PushNode(Any(operands), BoolType, origin);
      r := Success(id);
    }

    method AddSelect(condition: nat, whenTrue: nat, whenFalse: nat, origin: Origin) returns (r: Result<nat, Diagnostic>)
      requires Valid()
      modifies this`nodes
      ensures Valid()
      ensures r.Success? <==>
        && condition < |old(nodes)| && old(nodes)[condition].ty == BoolType
        && whenTrue < |old(nodes)| && whenFalse < |old(nodes)|
        && old(nodes)[whenTrue].ty == old(nodes)[whenFalse].ty
      ensures r.Success? ==>
        Appended(old(nodes), nodes, r, Select(condition, whenTrue, whenFalse), old(nodes)[whenTrue].ty, None, origin)
      ensures r.Failure? ==> Refused(old(nodes), nodes, r, SelectFault(old(nodes), condition, whenTrue, whenFalse), origin)
    {
      if condition >= |nodes| {
        return Failure(AtOrigin(AbsentNode, origin));
      }
      if nodes[condition].ty != BoolType {
        return Failure(AtOrigin(WrongType, origin));
      }
      var fault := SameTypeFault(nodes, whenTrue, whenFalse);
      if fault.Some? {
        return Failure(AtOrigin(fault.value, origin));
      }
      var id := PushNode(Select(condition, whenTrue, whenFalse), nodes[whenTrue].ty, origin);
      r := Success(id);
    }

    /** The inferred range is the sum of the operand ranges; it is refused as soon as a running
        bound leaves the 32-bit integers. */
    method AddSum(operands: seq<nat>, origin: Origin) returns (r: Result<nat, Diagnostic>, ghost range: IntRange)
      requires Valid()
      modifies this`nodes
      ensures Valid()
      ensures r.Success? <==>
        && AllBelow(operands, |old(nodes)|) && AllIntegerTyped(old(nodes), operands) && BoundsFit(old(nodes), operands)
      ensures r.Success? ==>
        && range.min == LowSum(old(nodes), operands) && range.max == HighSum(old(nodes), operands)
        && Appended(old(nodes), nodes, r, Sum(operands, range), IntegerType(range), None, origin)
      ensures r.Failure? ==> Refused(old(nodes), nodes, r, SumFault(old(nodes), operands), origin)
    {
      hide LowSum, HighSum, BoundsFit, WellTyped, Admissible, SumFault;
      range := Range(0, 0);
      var min: I32, max: I32 := 0, 0;
      EmptyBounds(nodes);
      assert operands[..0] == [];
      for k := 0 to |operands|
        invariant nodes == old(nodes)
        invariant AllBelow(operands[..k], |nodes|) && AllIntegerTyped(nodes, operands[..k]) && BoundsFit(nodes, operands[..k])
        invariant min == LowSum(nodes, operands[..k]) && max == HighSum(nodes, operands[..k])
      {
        SumFaultAt(nodes, operands, k);
        if operands[k] >= |nodes| {
          return Failure(AtOrigin(AbsentNode, origin)), range;
        }
        if !nodes[operands[k]].ty.IntegerType? {
          return Failure(AtOrigin(NotInteger, origin)), range;
        }
        ExtendBounds(nodes, operands, k);
        SumFaultBounds(nodes, operands, k);
        var operandRange := nodes[operands[k]].ty.range;
        if !FitsI32(min + operandRange.min) {
          return Failure(AtOrigin(LowerBoundOverflow, origin)), range;
        }
        min := min + operandRange.min;
        if !FitsI32(max + operandRange.max) {
          return Failure(AtOrigin(UpperBoundOverflow, origin)), range;
        }
        max := max + operandRange.max;
      }
      assert operands[..|operands|] == operands;
      SumOrder(nodes, operands);
      range := Range(min, max);
      SumAdmissible(nodes, inputs, operands, range);
      var id := PushNode(Sum(operands, Range(min, max)), IntegerType(Range(min, max)), origin);
      r := Success(id);
    }
  }

  lemma RecordAdmissible(nodes: seq<Node>, inputs: map<string, Type>, schema: RecordType, fields: seq<nat>)
    requires |fields| == |schema.fields|
    requires forall k :: 0 <= k < |fields| ==> fields[k] < |nodes| && nodes[fields[k]].ty == schema.fields[k].ty
    ensures Admissible(nodes, inputs, Record(schema, fields), RecordOf(schema))
  {
  }

  /** One more operand extends the running bounds by its own; a bound that does not fit
      refutes the fit of the whole list. */
  lemma ExtendBounds(nodes: seq<Node>, ids: seq<nat>, k: nat)
    requires k < |ids| && AllBelow(ids[..k + 1], |nodes|) && AllIntegerTyped(nodes, ids[..k + 1])
    requires AllBelow(ids[..k], |nodes|) && AllIntegerTyped(nodes, ids[..k]) && BoundsFit(nodes, ids[..k])
    ensures LowSum(nodes, ids[..k + 1]) == LowSum(nodes, ids[..k]) + nodes[ids[k]].ty.range.min
    ensures HighSum(nodes, ids[..k + 1]) == HighSum(nodes, ids[..k]) + nodes[ids[k]].ty.range.max
    ensures BoundsFit(nodes, ids[..k + 1]) <==>
      FitsI32(LowSum(nodes, ids[..k + 1])) && FitsI32(HighSum(nodes, ids[..k + 1]))
    ensures AllBelow(ids, |nodes|) && AllIntegerTyped(nodes, ids) && BoundsFit(nodes, ids) ==> BoundsFit(nodes, ids[..k + 1])
  {
    assert ids[..k + 1][..k] == ids[..k];
    if AllBelow(ids, |nodes|) && AllIntegerTyped(nodes, ids) && BoundsFit(nodes, ids) {
      BoundsFitPrefix(nodes, ids, k + 1);
    }
  }

  lemma EmptyBounds(nodes: seq<Node>)
    ensures LowSum(nodes, []) == HighSum(nodes, []) == 0 && BoundsFit(nodes, [])
  {
  }

  lemma SumAdmissible(nodes: seq<Node>, inputs: map<string, Type>, operands: seq<nat>, range: IntRange)
    requires AllBelow(operands, |nodes|) && AllIntegerTyped(nodes, operands) && BoundsFit(nodes, operands)
    requires range.min == LowSum(nodes, operands) && range.max == HighSum(nodes, operands)
    ensures Admissible(nodes, inputs, Sum(operands, range), IntegerType(range))
  {
  }

  lemma {:induction false} BoundsFitPrefix(nodes: seq<Node>, ids: seq<nat>, k: nat)
    requires k <= |ids| && AllBelow(ids, |nodes|) && AllIntegerTyped(nodes, ids) && BoundsFit(nodes, ids)
    ensures BoundsFit(nodes, ids[..k])
    decreases |ids|
  {
    if k < |ids| {
      BoundsFitPrefix(nodes, ids[..|ids| - 1], k);
      assert ids[..|ids| - 1][..k] == ids[..k];
    } else {
      assert ids[..k] == ids;
    }
  }
}
