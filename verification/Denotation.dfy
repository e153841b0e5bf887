/** What an expression graph means, read off its nodes and their named operands. Nothing here mentions
    stack operations: it is what lowering and interpretation are measured against. */
module Denotation {
  import opened Wrappers
  import opened Arithmetic
  import opened DialectTypes
  import opened Lowering

  /** The value of node `i`: nothing when an input is missing or an operator is not defined on its operands. */
  ghost function Denote(nodes: seq<Node>, env: Env, i: nat): Option<Value>
    requires i < |nodes|
    decreases i, 2
  {
    match nodes[i].kind
    case Constant(value) => Some(value)
    case Input(name) => if name in env then Some(env[name]) else None
    case Enumeration(schema, ordinal) => Some(EnumerationValue(schema.name, ordinal))
    case EnumerationOrdinal(operand, _) => OrdinalOf(Operand(nodes, env, i, operand))
    case Record(recordType, fields) =>
      (match OperandValues(nodes, env, i, fields) case Some(values) => Some(RecordValue(recordType.name, values)) case None => None)
    case Field(record, index) => FieldOf(Operand(nodes, env, i, record), index)
    case Array(_, elements) =>
      (match OperandValues(nodes, env, i, elements) case Some(values) => Some(ArrayValue(values)) case None => None)
    case Index(source, position) => ElementOf(Operand(nodes, env, i, source), Operand(nodes, env, i, position))
    case Equal(left, right) =>
      (match (Operand(nodes, env, i, left), Operand(nodes, env, i, right))
       case (Some(a), Some(b)) => Some(BoolValue(a == b))
       case _ => None)
    case Less(left, right) => Compared(Operand(nodes, env, i, left), Operand(nodes, env, i, right), (a, b) => a < b)
    case LessEqual(left, right) => Compared(Operand(nodes, env, i, left), Operand(nodes, env, i, right), (a, b) => a <= b)
    case Not(operand) =>
      (match Operand(nodes, env, i, operand) case Some(BoolValue(b)) => Some(BoolValue(!b)) case _ => None)
    case All(operands) =>
      (match OperandValues(nodes, env, i, operands)
       case Some(values) => if AllBools(values) then Some(BoolValue(BoolValue(false) !in values)) else None
       case None => None)
    case Any(operands) =>
      (match OperandValues(nodes, env, i, operands)
       case Some(values) => if AllBools(values) then Some(BoolValue(BoolValue(true) in values)) else None
       case None => None)
    case Select(condition, whenTrue, whenFalse) =>
      (match Operand(nodes, env, i, condition)
       case Some(BoolValue(b)) => if b then Operand(nodes, env, i, whenTrue) else Operand(nodes, env, i, whenFalse)
       case _ => None)
    case Sum(operands, _) =>
      (match OperandValues(nodes, env, i, operands)
       case Some(values) => if AllIntegers(values) && FitsI32(Total(values)) then Some(IntegerValue(Total(values))) else None
       case None => None)
  }

  /** The value of operand `j` of node `i`; operands come before the nodes that use them. */
  ghost function Operand(nodes: seq<Node>, env: Env, i: nat, j: nat): Option<Value>
    requires i < |nodes|
    decreases i, 0
  {
    if j < i then Denote(nodes, env, j) else None
  }

  /** The values of a list of operands of node `i`, in order. */
  ghost function OperandValues(nodes: seq<Node>, env: Env, i: nat, ids: seq<nat>): (r: Option<seq<Value>>)
    requires i < |nodes|
    ensures r.Some? <==> forall k :: 0 <= k < |ids| ==> Operand(nodes, env, i, ids[k]).Some?
    ensures r.Some? ==> |r.value| == |ids| && forall k :: 0 <= k < |ids| ==> Operand(nodes, env, i, ids[k]) == Some(r.value[k])
    decreases i, 1, |ids|
  {
    if ids == [] then Some([])
    else
      assert forall k :: 0 <= k < |ids| - 1 ==> ids[1..][k] == ids[k + 1];
      match (Operand(nodes, env, i, ids[0]), OperandValues(nodes, env, i, ids[1..]))
      case (Some(first), Some(rest)) => Some([first] + rest)
      case _ => None
  }

  function OrdinalOf(v: Option<Value>): Option<Value> {
    match v
    case Some(EnumerationValue(_, ordinal)) => if ordinal <= I32_MAX then Some(IntegerValue(ordinal)) else None
    case _ => None
  }

  function FieldOf(v: Option<Value>, index: nat): Option<Value> {
    match v
    case Some(RecordValue(_, fields)) => if index < |fields| then Some(fields[index]) else None
    case _ => None
  }

  function ElementOf(source: Option<Value>, position: Option<Value>): Option<Value> {
    match (source, position)
    case (Some(ArrayValue(values)), Some(IntegerValue(at))) => if 0 <= at < |values| then Some(values[at]) else None
    case _ => None
  }

  /** Integers by their value, enumeration variants by their number. */
  function Compared(left: Option<Value>, right: Option<Value>, holds: (int, int) -> bool): Option<Value> {
    match (left, right)
    case (Some(IntegerValue(x)), Some(IntegerValue(y))) => Some(BoolValue(holds(x, y)))
    case (Some(EnumerationValue(_, m)), Some(EnumerationValue(_, n))) => Some(BoolValue(holds(m, n)))
    case (Some(IntegerValue(x)), Some(EnumerationValue(_, n))) => Some(BoolValue(holds(x, n)))
    case (Some(EnumerationValue(_, m)), Some(IntegerValue(y))) => Some(BoolValue(holds(m, y)))
    case _ => None
  }

  // ----- Comparisons within 32 bits -----

  /** Integers are 32-bit already; the number of a variant may not be. */
  predicate OrdinalFits(v: Option<Value>) {
    match v
    case Some(EnumerationValue(_, n)) => n <= I32_MAX
    case _ => true
  }

  /** Both sides of a comparison fit the 32-bit integers. */
  ghost predicate ComparisonFits(nodes: seq<Node>, env: Env, j: nat)
    requires j < |nodes|
  {
    match nodes[j].kind
    case Less(left, right) => OrdinalFits(Operand(nodes, env, j, left)) && OrdinalFits(Operand(nodes, env, j, right))
    case LessEqual(left, right) => OrdinalFits(Operand(nodes, env, j, left)) && OrdinalFits(Operand(nodes, env, j, right))
    case _ => true
  }

  /** So do those of every comparison node `i` leads to, unselected branches included. */
  ghost predicate ComparisonsFit(nodes: seq<Node>, env: Env, i: nat) {
    forall path: seq<nat>, j: nat :: LeadsTo(nodes, path, i, j) && j < |nodes| ==> ComparisonFits(nodes, env, j)
  }
}
