/** Compilation preserves meaning, and the builder's static checks leave the interpreter one
    reachable failure: comparing an enumeration ordinal beyond the 32-bit integers. */
module DialectSoundness {
  import opened Wrappers
  import opened Arithmetic
  import opened DialectTypes
  import opened Building
  import opened Lowering
  import opened Evaluation
  import opened Denotation

  // ----- Typed operands give well-shaped, in-range operations -----

  ghost predicate Operands(nodes: seq<Node>, kind: NodeKind, args: seq<Value>) {
    && |args| == |Children(kind)|
    && forall k :: 0 <= k < |args| ==> Children(kind)[k] < |nodes| && Accepts(nodes[Children(kind)[k]].ty, args[k])
  }

  ghost predicate InputPresent(kind: NodeKind, ty: Type, env: Env) {
    kind.Input? ==> kind.name in env && Accepts(ty, env[kind.name])
  }

  /** Typed integer operands: every running sum lies between the running bounds. */
  lemma {:induction false} SumWithin(nodes: seq<Node>, ids: seq<nat>, args: seq<Value>)
    requires AllBelow(ids, |nodes|) && AllIntegerTyped(nodes, ids) && |args| == |ids|
    requires forall k :: 0 <= k < |ids| ==> Accepts(nodes[ids[k]].ty, args[k])
    ensures AllIntegers(args)
    ensures LowSum(nodes, ids) <= Total(args) <= HighSum(nodes, ids)
    ensures BoundsFit(nodes, ids) ==> PartialSumsFit(args) && FitsI32(Total(args))
  {
    if ids != [] {
      SumWithin(nodes, ids[..|ids| - 1], args[..|args| - 1]);
      assert Accepts(nodes[ids[|ids| - 1]].ty, args[|args| - 1]);
    }
  }

  /** The inferred range of a sum is tight: operands at their lower bounds add up to its lower end, operands
      at their upper bounds to its upper end. */
  lemma {:induction false} SumRangeTight(nodes: seq<Node>, ids: seq<nat>, low: seq<Value>, high: seq<Value>)
    requires AllBelow(ids, |nodes|) && AllIntegerTyped(nodes, ids) && |low| == |high| == |ids|
    requires forall k :: 0 <= k < |ids| ==>
      low[k] == IntegerValue(nodes[ids[k]].ty.range.min) && high[k] == IntegerValue(nodes[ids[k]].ty.range.max)
    ensures AllIntegers(low) && AllIntegers(high)
    ensures Total(low) == LowSum(nodes, ids) && Total(high) == HighSum(nodes, ids)
  {
    if ids != [] {
      var last := |ids| - 1;
      SumRangeTight(nodes, ids[..last], low[..last], high[..last]);
    }
  }

  /** What the interpreter needs of an operation, comparisons of ordinals apart, and what it gives back. */
  ghost predicate Fine(op: Op, args: seq<Value>, env: Env, ty: Type) {
    && |args| == Arity(op)
    && Shaped(op, args, env) && Checked(op, args)
    && Accepts(ty, Meaning(op, args, env))
  }

  lemma SumFine(nodes: seq<Node>, inputs: map<string, Type>, kind: NodeKind, ty: Type, args: seq<Value>, env: Env)
    requires kind.Sum? && Admissible(nodes, inputs, kind, ty) && Operands(nodes, kind, args)
    ensures Fine(FromNode(kind), args, env, ty)
  {
    SumWithin(nodes, kind.operands, args);
  }

  lemma CollectionFine(nodes: seq<Node>, inputs: map<string, Type>, kind: NodeKind, ty: Type, args: seq<Value>, env: Env)
    requires kind.Record? || kind.Array? || kind.All? || kind.Any?
    requires Admissible(nodes, inputs, kind, ty) && Operands(nodes, kind, args)
    ensures Fine(FromNode(kind), args, env, ty)
  {
  }

  lemma ProjectionFine(nodes: seq<Node>, inputs: map<string, Type>, kind: NodeKind, ty: Type, args: seq<Value>, env: Env)
    requires kind.EnumerationOrdinal? || kind.Field? || kind.Index? || kind.Not?
    requires Admissible(nodes, inputs, kind, ty) && Operands(nodes, kind, args)
    ensures Fine(FromNode(kind), args, env, ty)
  {
    assert Accepts(nodes[Children(kind)[0]].ty, args[0]);
    if kind.Index? {
      assert Accepts(nodes[kind.position].ty, args[1]);
    }
  }

  lemma CompareFine(nodes: seq<Node>, inputs: map<string, Type>, kind: NodeKind, ty: Type, args: seq<Value>, env: Env)
    requires kind.Equal? || kind.Less? || kind.LessEqual? || kind.Select?
    requires Admissible(nodes, inputs, kind, ty) && Operands(nodes, kind, args)
    ensures Fine(FromNode(kind), args, env, ty)
  {
    assert Accepts(nodes[Children(kind)[0]].ty, args[0]);
    assert Accepts(nodes[Children(kind)[1]].ty, args[1]);
    if kind.Select? {
      assert Accepts(nodes[kind.whenFalse].ty, args[2]);
    }
  }

  /** Operands of an admissible node leave no runtime check to fail, ordinal width apart. */
  lemma AdmissibleFine(nodes: seq<Node>, inputs: map<string, Type>, kind: NodeKind, ty: Type, args: seq<Value>, env: Env)
    requires Admissible(nodes, inputs, kind, ty) && Operands(nodes, kind, args) && InputPresent(kind, ty, env)
    ensures Fine(FromNode(kind), args, env, ty)
  {
    match kind {
      case Constant(_) =>
      case Input(_) =>
      case Enumeration(_, _) =>
      case Sum(_, _) => SumFine(nodes, inputs, kind, ty, args, env);
      case Record(_, _) => CollectionFine(nodes, inputs, kind, ty, args, env);
      case Array(_, _) => CollectionFine(nodes, inputs, kind, ty, args, env);
      case All(_) => CollectionFine(nodes, inputs, kind, ty, args, env);
      case Any(_) => CollectionFine(nodes, inputs, kind, ty, args, env);
      case EnumerationOrdinal(_, _) => ProjectionFine(nodes, inputs, kind, ty, args, env);
      case Field(_, _) => ProjectionFine(nodes, inputs, kind, ty, args, env);
      case Index(_, _) => ProjectionFine(nodes, inputs, kind, ty, args, env);
      case Not(_) => ProjectionFine(nodes, inputs, kind, ty, args, env);
      case Equal(_, _) => CompareFine(nodes, inputs, kind, ty, args, env);
      case Less(_, _) => CompareFine(nodes, inputs, kind, ty, args, env);
      case LessEqual(_, _) => CompareFine(nodes, inputs, kind, ty, args, env);
      case Select(_, _, _) => CompareFine(nodes, inputs, kind, ty, args, env);
    }
  }

  // ----- Denotation -----

  /** A typed graph together with inputs of the declared types for everything node `i` reads. */
  ghost predicate Supplied(nodes: seq<Node>, inputs: map<string, Type>, env: Env, i: nat) {
    && WellTyped(nodes, inputs) && Earlier(nodes) && i < |nodes|
    && forall name :: Reads(nodes, i, name) ==> name in inputs && name in env && Accepts(inputs[name], env[name])
  }

  lemma ChildSupplied(nodes: seq<Node>, inputs: map<string, Type>, env: Env, i: nat, k: nat)
    requires Supplied(nodes, inputs, env, i) && k < |Children(nodes[i].kind)|
    ensures Children(nodes[i].kind)[k] < i && Supplied(nodes, inputs, env, Children(nodes[i].kind)[k])
  {
    hide Reads, WellTyped;
    forall name | Reads(nodes, Children(nodes[i].kind)[k], name)
      ensures Reads(nodes, i, name)
    {
      ReadsStep(nodes, i, k, name);
    }
  }

  /** The value the lowered operators compute for a node from the values of its operands.
      Its type accepts it. */
  ghost function Computed(nodes: seq<Node>, inputs: map<string, Type>, env: Env, i: nat): (v: Value)
    requires Supplied(nodes, inputs, env, i)
    ensures Accepts(nodes[i].ty, v)
    decreases i, 1
  {
    var args := Args(nodes, inputs, env, i);
    NodeFine(nodes, inputs, env, i, args);
    Meaning(FromNode(nodes[i].kind), args, env)
  }

  ghost function Args(nodes: seq<Node>, inputs: map<string, Type>, env: Env, i: nat): (args: seq<Value>)
    requires Supplied(nodes, inputs, env, i)
    ensures |args| == |Children(nodes[i].kind)|
    ensures forall k :: 0 <= k < |args| ==>
      Children(nodes[i].kind)[k] < |nodes| && Accepts(nodes[Children(nodes[i].kind)[k]].ty, args[k])
    decreases i, 0
  {
    var ch := Children(nodes[i].kind);
    assert forall k :: 0 <= k < |ch| ==> ch[k] < i && Supplied(nodes, inputs, env, ch[k]) by {
      forall k | 0 <= k < |ch|
        ensures ch[k] < i && Supplied(nodes, inputs, env, ch[k])
      {
        ChildSupplied(nodes, inputs, env, i, k);
      }
    }
    seq(|ch|, k requires 0 <= k < |ch| => Computed(nodes, inputs, env, ch[k]))
  }

  lemma NodeFine(nodes: seq<Node>, inputs: map<string, Type>, env: Env, i: nat, args: seq<Value>)
    requires Supplied(nodes, inputs, env, i) && |args| == |Children(nodes[i].kind)|
    requires forall k :: 0 <= k < |args| ==>
      Children(nodes[i].kind)[k] < |nodes| && Accepts(nodes[Children(nodes[i].kind)[k]].ty, args[k])
    ensures Fine(FromNode(nodes[i].kind), args, env, nodes[i].ty)
  {
    hide Accepts, Reads, Fine;
    assert Admissible(nodes[..i], inputs, nodes[i].kind, nodes[i].ty);
    if nodes[i].kind.Input? {
      ReadsHere(nodes, i, nodes[i].kind.name);
    }
    AdmissibleFine(nodes[..i], inputs, nodes[i].kind, nodes[i].ty, args, env);
  }

  /** Every ordinal compared while evaluating node `i` fits the 32-bit integers. */
  ghost predicate RanksOk(nodes: seq<Node>, inputs: map<string, Type>, env: Env, i: nat)
    requires Supplied(nodes, inputs, env, i)
    decreases i
  {
    && (forall k :: 0 <= k < |Children(nodes[i].kind)| ==>
          && (ChildSupplied(nodes, inputs, env, i, k); Children(nodes[i].kind)[k] < i)
          && RanksOk(nodes, inputs, env, Children(nodes[i].kind)[k]))
    && var args := Args(nodes, inputs, env, i);
       NodeFine(nodes, inputs, env, i, args);
       RanksFit(FromNode(nodes[i].kind), args)
  }

  // ----- The lowered operators compute what the graph means -----

  /** Operators chosen and operands ordered by the lowering give each node the value the graph reads. */
  lemma {:induction false} ComputedIsDenoted(nodes: seq<Node>, inputs: map<string, Type>, env: Env, i: nat)
    requires Supplied(nodes, inputs, env, i)
    ensures Denote(nodes, env, i) == Some(Computed(nodes, inputs, env, i))
    decreases i
  {
    hide WellTyped, Reads, Accepts;
    var ch := Children(nodes[i].kind);
    var args := Args(nodes, inputs, env, i);
    forall k | 0 <= k < |ch|
      ensures Operand(nodes, env, i, ch[k]) == Some(args[k])
    {
      ChildSupplied(nodes, inputs, env, i, k);
      ComputedIsDenoted(nodes, inputs, env, ch[k]);
    }
    NodeFine(nodes, inputs, env, i, args);
    OperatorDenotes(nodes, env, i, args);
  }

  /** One node: from the values of its operands, the meaning of its operation is what the graph reads. */
  lemma OperatorDenotes(nodes: seq<Node>, env: Env, i: nat, args: seq<Value>)
    requires i < |nodes| && |args| == |Children(nodes[i].kind)| == Arity(FromNode(nodes[i].kind))
    requires forall k :: 0 <= k < |args| ==> Operand(nodes, env, i, Children(nodes[i].kind)[k]) == Some(args[k])
    requires Shaped(FromNode(nodes[i].kind), args, env)
    ensures Denote(nodes, env, i) == Some(Meaning(FromNode(nodes[i].kind), args, env))
  {
    hide Operand, OperandValues;
    var kind := nodes[i].kind;
    match kind {
      case Record(_, fields) => ListDenotes(nodes, env, i, fields, args);
      case Array(_, elements) => ListDenotes(nodes, env, i, elements, args);
      case All(operands) => ListDenotes(nodes, env, i, operands, args);
      case Any(operands) => ListDenotes(nodes, env, i, operands, args);
      case Sum(operands, _) => ListDenotes(nodes, env, i, operands, args);
      case EnumerationOrdinal(operand, _) => assert Children(kind)[0] == operand;
      case Field(record, _) => assert Children(kind)[0] == record;
      case Not(operand) => assert Children(kind)[0] == operand;
      case Index(source, position) => assert Children(kind)[0] == source && Children(kind)[1] == position;
      case Equal(left, right) => assert Children(kind)[0] == left && Children(kind)[1] == right;
      case Less(left, right) => assert Children(kind)[0] == left && Children(kind)[1] == right;
      case LessEqual(left, right) => assert Children(kind)[0] == left && Children(kind)[1] == right;
      case Select(condition, whenTrue, whenFalse) =>
        assert Children(kind)[0] == condition && Children(kind)[1] == whenTrue && Children(kind)[2] == whenFalse;
      case _ =>
    }
  }

  lemma ListDenotes(nodes: seq<Node>, env: Env, i: nat, ids: seq<nat>, args: seq<Value>)
    requires i < |nodes| && |args| == |ids|
    requires forall k :: 0 <= k < |args| ==> Operand(nodes, env, i, ids[k]) == Some(args[k])
    ensures OperandValues(nodes, env, i, ids) == Some(args)
  {
    hide Operand;
    var values := OperandValues(nodes, env, i, ids).value;
    forall k | 0 <= k < |ids|
      ensures values[k] == args[k]
    {
      assert Operand(nodes, env, i, ids[k]) == Some(values[k]);
    }
    assert values == args;
  }

  /** What the interpreter needs of the compared ordinals is what the graph's comparisons need. */
  lemma {:induction false} RanksOkIffFit(nodes: seq<Node>, inputs: map<string, Type>, env: Env, i: nat)
    requires Supplied(nodes, inputs, env, i)
    ensures RanksOk(nodes, inputs, env, i) <==> ComparisonsFit(nodes, env, i)
    decreases i
  {
    hide WellTyped, Reads, Accepts, ComparisonFits, RanksFit, Computed, Args;
    var ch := Children(nodes[i].kind);
    RanksHere(nodes, inputs, env, i);
    forall k | 0 <= k < |ch|
      ensures ch[k] < i && Supplied(nodes, inputs, env, ch[k])
      ensures RanksOk(nodes, inputs, env, ch[k]) <==> ComparisonsFit(nodes, env, ch[k])
    {
      ChildSupplied(nodes, inputs, env, i, k);
      RanksOkIffFit(nodes, inputs, env, ch[k]);
    }
    FitSplit(nodes, env, i);
  }

  /** The comparisons a node leads to are its own and those its operands lead to. */
  lemma FitSplit(nodes: seq<Node>, env: Env, i: nat)
    requires Earlier(nodes) && i < |nodes|
    ensures ComparisonsFit(nodes, env, i) <==>
      ComparisonFits(nodes, env, i) && forall k :: 0 <= k < |Children(nodes[i].kind)| ==> ComparisonsFit(nodes, env, Children(nodes[i].kind)[k])
  {
    hide ComparisonFits;
    var ch := Children(nodes[i].kind);
    if ComparisonsFit(nodes, env, i) {
      assert LeadsTo(nodes, [i], i, i);
      forall k, path: seq<nat>, j: nat | 0 <= k < |ch| && LeadsTo(nodes, path, ch[k], j) && j < |nodes|
        ensures ComparisonFits(nodes, env, j)
      {
        assert LeadsTo(nodes, [i] + path, i, j);
      }
    }
    if ComparisonFits(nodes, env, i) && forall k :: 0 <= k < |ch| ==> ComparisonsFit(nodes, env, ch[k]) {
      forall path: seq<nat>, j: nat | LeadsTo(nodes, path, i, j) && j < |nodes|
        ensures ComparisonFits(nodes, env, j)
      {
        if |path| > 1 {
          assert path[0 + 1] in ch;
          var k :| 0 <= k < |ch| && ch[k] == path[1];
          assert LeadsTo(nodes, path[1..], ch[k], j);
        }
      }
    }
  }

  lemma RanksHere(nodes: seq<Node>, inputs: map<string, Type>, env: Env, i: nat)
    requires Supplied(nodes, inputs, env, i)
    ensures |Args(nodes, inputs, env, i)| == Arity(FromNode(nodes[i].kind))
    ensures RanksFit(FromNode(nodes[i].kind), Args(nodes, inputs, env, i)) <==> ComparisonFits(nodes, env, i)
  {
    hide WellTyped, Reads, Accepts, Denote;
    var ch := Children(nodes[i].kind);
    var args := Args(nodes, inputs, env, i);
    NodeFine(nodes, inputs, env, i, args);
    forall k | 0 <= k < |ch|
      ensures Operand(nodes, env, i, ch[k]) == Some(args[k])
    {
      ChildSupplied(nodes, inputs, env, i, k);
      ComputedIsDenoted(nodes, inputs, env, ch[k]);
    }
    if nodes[i].kind.Less? || nodes[i].kind.LessEqual? {
      assert ch[0] == nodes[i].kind.left && ch[1] == nodes[i].kind.right;
    }
  }

  // ----- Compiled code computes the denotation -----

  lemma {:induction false} ExecuteJoin(a: seq<LocatedOp>, b: seq<LocatedOp>, stack: seq<Value>, env: Env)
    ensures Execute(a + b, stack, env) ==
      if Execute(a, stack, env).None? then None else Execute(b, Execute(a, stack, env).value, env)
  {
    hide Apply;
    if b == [] {
      assert a + b == a;
    } else {
      var shorter := b[..|b| - 1];
      ExecuteJoin(a, shorter, stack, env);
      assert (a + b)[..|a + b| - 1] == a + shorter;
    }
  }

  lemma ExecuteOne(op: LocatedOp, stack: seq<Value>, env: Env)
    ensures Execute([op], stack, env) == Apply(op.op, stack, env)
  {
    assert [op][..0] == [];
  }

  /** An operation on its operands, pushed above any stack. */
  lemma ApplyOn(op: Op, stack: seq<Value>, args: seq<Value>, env: Env)
    requires |args| == Arity(op)
    ensures Apply(op, stack + args, env) == if Executable(op, args, env) then Some(stack + [Meaning(op, args, env)]) else None
  {
    hide Executable, Meaning;
    assert (stack + args)[|stack + args| - Arity(op)..] == args;
    assert (stack + args)[..|stack + args| - Arity(op)] == stack;
  }

  /** Running a node's code pushes exactly what its operators compute, whatever the stack below,
      unless some compared ordinal is too wide: then it is refused. */
  lemma {:induction false} CompileComputes(nodes: seq<Node>, inputs: map<string, Type>, env: Env, i: nat, stack: seq<Value>)
    requires Supplied(nodes, inputs, env, i)
    ensures Execute(Compile(nodes, i), stack, env) ==
      if RanksOk(nodes, inputs, env, i) then Some(stack + [Computed(nodes, inputs, env, i)]) else None
    decreases i, 2
  {
    hide WellTyped, Reads, Execute, Apply, Executable, Meaning, Shaped, Checked, RanksFit, FromNode, Accepts, Children;
    var kind := nodes[i].kind;
    var args := Args(nodes, inputs, env, i);
    OperandsCompute(nodes, inputs, env, i, 0, stack);
    ExecuteJoin(CompileFrom(nodes, i, 0), [OpAt(nodes, i)], stack, env);
    ExecuteOne(OpAt(nodes, i), stack + args, env);
    NodeExecutes(nodes, inputs, env, i);
    ApplyOn(FromNode(kind), stack, args, env);
    RanksSplit(nodes, inputs, env, i);
  }

  /** The interpreter completes a node on its computed operands exactly when compared ordinals fit. */
  lemma NodeExecutes(nodes: seq<Node>, inputs: map<string, Type>, env: Env, i: nat)
    requires Supplied(nodes, inputs, env, i)
    ensures i < |nodes| && Earlier(nodes)
    ensures var args := Args(nodes, inputs, env, i); var op := FromNode(nodes[i].kind);
      && |args| == Arity(op) && Shaped(op, args, env)
      && (Executable(op, args, env) <==> RanksFit(op, args))
      && Computed(nodes, inputs, env, i) == Meaning(op, args, env)
  {
    hide Shaped, Checked, RanksFit, FromNode, Accepts, Children, Earlier, WellTyped, Reads, Meaning;
    NodeFine(nodes, inputs, env, i, Args(nodes, inputs, env, i));
  }

  ghost predicate OperandRanksOk(nodes: seq<Node>, inputs: map<string, Type>, env: Env, i: nat, from: nat)
    requires Supplied(nodes, inputs, env, i) && from <= |Children(nodes[i].kind)|
    decreases |Children(nodes[i].kind)| - from
  {
    from < |Children(nodes[i].kind)| ==>
      && (ChildSupplied(nodes, inputs, env, i, from); RanksOk(nodes, inputs, env, Children(nodes[i].kind)[from]))
      && OperandRanksOk(nodes, inputs, env, i, from + 1)
  }

  lemma {:induction false} OperandRanksAll(nodes: seq<Node>, inputs: map<string, Type>, env: Env, i: nat, from: nat)
    requires Supplied(nodes, inputs, env, i) && from <= |Children(nodes[i].kind)|
    ensures OperandRanksOk(nodes, inputs, env, i, from) <==>
      forall k :: from <= k < |Children(nodes[i].kind)| ==>
        && (ChildSupplied(nodes, inputs, env, i, k); Children(nodes[i].kind)[k] < i)
        && RanksOk(nodes, inputs, env, Children(nodes[i].kind)[k])
    decreases |Children(nodes[i].kind)| - from
  {
    hide WellTyped, Reads, RanksOk;
    if from < |Children(nodes[i].kind)| {
      ChildSupplied(nodes, inputs, env, i, from);
      OperandRanksAll(nodes, inputs, env, i, from + 1);
    }
  }

  lemma RanksSplit(nodes: seq<Node>, inputs: map<string, Type>, env: Env, i: nat)
    requires Supplied(nodes, inputs, env, i)
    ensures |Args(nodes, inputs, env, i)| == Arity(FromNode(nodes[i].kind))
    ensures RanksOk(nodes, inputs, env, i) <==>
      OperandRanksOk(nodes, inputs, env, i, 0) && RanksFit(FromNode(nodes[i].kind), Args(nodes, inputs, env, i))
  {
    hide RanksFit, Shaped, Checked, Accepts;
    NodeFine(nodes, inputs, env, i, Args(nodes, inputs, env, i));
    OperandRanksAll(nodes, inputs, env, i, 0);
  }

  lemma {:induction false} OperandsCompute(nodes: seq<Node>, inputs: map<string, Type>, env: Env, i: nat, from: nat, stack: seq<Value>)
    requires Supplied(nodes, inputs, env, i) && from <= |Children(nodes[i].kind)|
    ensures Execute(CompileFrom(nodes, i, from), stack, env) ==
      if OperandRanksOk(nodes, inputs, env, i, from) then Some(stack + Args(nodes, inputs, env, i)[from..]) else None
    decreases i, 1, |Children(nodes[i].kind)| - from
  {
    hide RanksOk, Apply, Accepts;
    var ch := Children(nodes[i].kind);
    var args := Args(nodes, inputs, env, i);
    if from == |ch| {
      assert args[from..] == [] && stack + [] == stack;
    } else {
      ChildSupplied(nodes, inputs, env, i, from);
      ExecuteJoin(Compile(nodes, ch[from]), CompileFrom(nodes, i, from + 1), stack, env);
      CompileComputes(nodes, inputs, env, ch[from], stack);
      OperandsCompute(nodes, inputs, env, i, from + 1, stack + [args[from]]);
      assert stack + args[from..] == (stack + [args[from]]) + args[from + 1..];
    }
  }

  // ----- Main results about lowered programs -----

  /** Exact inputs supply everything the root reads. */
  lemma ExactSupplies(nodes: seq<Node>, inputs: map<string, Type>, root: nat, p: FormalProgram, env: Env)
    requires WellTyped(nodes, inputs) && LoweredFrom(nodes, inputs, root, p) && InputsExact(p.inputs, env)
    ensures Supplied(nodes, inputs, env, root)
  {
    hide Reads, WellTyped;
    forall name | Reads(nodes, root, name)
      ensures name in inputs && name in env && Accepts(inputs[name], env[name])
    {
      LoweredShape(nodes, inputs, root, p, name);
    }
  }

  /** From any stack, the code of a node pushes exactly what the graph means there, and is refused exactly
      when some comparison it leads to does not fit 32 bits. */
  lemma CompileMeans(nodes: seq<Node>, inputs: map<string, Type>, env: Env, i: nat, stack: seq<Value>)
    requires Supplied(nodes, inputs, env, i)
    ensures i < |nodes| && Earlier(nodes)
    ensures Denote(nodes, env, i).Some? && Accepts(nodes[i].ty, Denote(nodes, env, i).value)
    ensures Execute(Compile(nodes, i), stack, env) ==
      if ComparisonsFit(nodes, env, i) then Some(stack + [Denote(nodes, env, i).value]) else None
  {
    hide Execute, Accepts, RanksOk, ComparisonsFit, Denote, WellTyped, Reads;
    CompileComputes(nodes, inputs, env, i, stack);
    ComputedIsDenoted(nodes, inputs, env, i);
    RanksOkIffFit(nodes, inputs, env, i);
  }

  /** For every typed graph, root and exact input map, the lowered code run from the empty stack
      leaves exactly one value, what the graph means at the root, which the output type accepts;
      the only way it can be refused is a compared ordinal that does not fit. */
  lemma LoweringPreservesMeaning(nodes: seq<Node>, inputs: map<string, Type>, root: nat, p: FormalProgram, env: Env)
    requires WellTyped(nodes, inputs) && LoweredFrom(nodes, inputs, root, p) && InputsExact(p.inputs, env)
    ensures root < |nodes| && Supplied(nodes, inputs, env, root)
    ensures Denote(nodes, env, root).Some? && Accepts(p.outputType, Denote(nodes, env, root).value)
    ensures Execute(p.ops, [], env) ==
      if ComparisonsFit(nodes, env, root) then Some([Denote(nodes, env, root).value]) else None
  {
    hide Execute, Accepts, ComparisonsFit, Denote;
    ExactSupplies(nodes, inputs, root, p, env);
    CompileMeans(nodes, inputs, env, root, []);
    assert [] + [Denote(nodes, env, root).value] == [Denote(nodes, env, root).value];
  }

  /** Two integers, or the numbers of two variants, that the sides of a comparison denote. */
  ghost predicate SidesDenote(nodes: seq<Node>, env: Env, i: nat, left: nat, right: nat, x: int, y: int) {
    && left < i < |nodes| && right < i
    && match (Denote(nodes, env, left), Denote(nodes, env, right))
       case (Some(IntegerValue(a)), Some(IntegerValue(b))) => a == x && b == y
       case (Some(EnumerationValue(_, a)), Some(EnumerationValue(_, b))) => a == x && b == y
       case _ => false
  }

  /** A comparison of typed operands always has two integers or two variant numbers on its sides, and the
      graph answers as they compare. */
  lemma ComparisonMeans(nodes: seq<Node>, inputs: map<string, Type>, env: Env, i: nat) returns (x: int, y: int)
    requires Supplied(nodes, inputs, env, i) && (nodes[i].kind.Less? || nodes[i].kind.LessEqual?)
    ensures SidesDenote(nodes, env, i, nodes[i].kind.left, nodes[i].kind.right, x, y)
    ensures Denote(nodes, env, i) == Some(BoolValue(if nodes[i].kind.Less? then x < y else x <= y))
  {
    hide WellTyped, Reads, Accepts, Denote;
    ComparedTypes(nodes, inputs, i);
    var left, right := nodes[i].kind.left, nodes[i].kind.right;
    assert Children(nodes[i].kind)[0] == left && Children(nodes[i].kind)[1] == right;
    ChildSupplied(nodes, inputs, env, i, 0);
    ChildSupplied(nodes, inputs, env, i, 1);
    CompileMeans(nodes, inputs, env, left, []);
    CompileMeans(nodes, inputs, env, right, []);
    x, y := OrderedPair(nodes[left].ty, Denote(nodes, env, left).value, Denote(nodes, env, right).value);
    ComparedValue(nodes, env, i, x, y);
  }

  lemma OrderedPair(ty: Type, v: Value, w: Value) returns (x: int, y: int)
    requires OrderedType(ty) && Accepts(ty, v) && Accepts(ty, w)
    ensures match (v, w)
      case (IntegerValue(a), IntegerValue(b)) => a == x && b == y
      case (EnumerationValue(_, a), EnumerationValue(_, b)) => a == x && b == y
      case _ => false
  {
    match (v, w)
    case (IntegerValue(a), IntegerValue(b)) => x, y := a, b;
    case (EnumerationValue(_, a), EnumerationValue(_, b)) => x, y := a, b;
  }

  lemma ComparedValue(nodes: seq<Node>, env: Env, i: nat, x: int, y: int)
    requires i < |nodes| && (nodes[i].kind.Less? || nodes[i].kind.LessEqual?)
    requires SidesDenote(nodes, env, i, nodes[i].kind.left, nodes[i].kind.right, x, y)
    ensures Denote(nodes, env, i) == Some(BoolValue(if nodes[i].kind.Less? then x < y else x <= y))
  {
  }

  /** The interpreter's answer to a lowered comparison is how the two numbers compare. */
  lemma LoweredComparison(nodes: seq<Node>, inputs: map<string, Type>, root: nat, p: FormalProgram, env: Env) returns (x: int, y: int)
    requires WellTyped(nodes, inputs) && LoweredFrom(nodes, inputs, root, p) && InputsExact(p.inputs, env)
    requires nodes[root].kind.Less? || nodes[root].kind.LessEqual?
    ensures SidesDenote(nodes, env, root, nodes[root].kind.left, nodes[root].kind.right, x, y)
    ensures ComparisonsFit(nodes, env, root) ==>
      Execute(p.ops, [], env) == Some([BoolValue(if nodes[root].kind.Less? then x < y else x <= y)])
  {
    hide Execute, ComparisonsFit, Denote, WellTyped, Reads, Accepts;
    LoweringPreservesMeaning(nodes, inputs, root, p, env);
    x, y := ComparisonMeans(nodes, inputs, env, root);
  }

  /** A diagnostic of a list of operations, if any, is that of a comparison whose ordinal is too wide. */
  ghost predicate OnlyTooWide(ops: seq<LocatedOp>, d: Option<Diagnostic>) {
    d.Some? ==>
      && d.value.reason == OrdinalTooWide && d.value.instruction.Some? && d.value.instruction.value < |ops|
      && var located := ops[d.value.instruction.value];
         d.value.origin == located.origin && (located.op.TestLess? || located.op.TestLessEqual?)
  }

  lemma {:induction false} TooWideJoin(a: seq<LocatedOp>, b: seq<LocatedOp>, stack: seq<Value>, env: Env)
    requires OnlyTooWide(a, Trouble(a, stack, env))
    requires Execute(a, stack, env).Some? ==> OnlyTooWide(b, Trouble(b, Execute(a, stack, env).value, env))
    ensures OnlyTooWide(a + b, Trouble(a + b, stack, env))
  {
    hide Apply, Execute, StackRefusal;
    if Trouble(a, stack, env).Some? {
      assert (a + b)[..|a|] == a;
      TroubleStays(a + b, stack, env, |a|);
    } else {
      TroubleShift(a, b, stack, env);
    }
  }

  /** After a list that runs through, the trouble of the rest is found at a later position. */
  lemma {:induction false} TroubleShift(a: seq<LocatedOp>, b: seq<LocatedOp>, stack: seq<Value>, env: Env)
    requires Execute(a, stack, env).Some?
    ensures var d := Trouble(b, Execute(a, stack, env).value, env);
      Trouble(a + b, stack, env) ==
        if d.None? || d.value.instruction.None? then None
        else Some(d.value.(instruction := Some(|a| + d.value.instruction.value)))
    ensures var d := Trouble(b, Execute(a, stack, env).value, env);
      d.Some? ==> d.value.instruction.Some? && d.value.instruction.value < |b|
  {
    hide Apply, StackRefusal;
    if b == [] {
      assert a + b == a;
    } else {
      var shorter := b[..|b| - 1];
      TroubleShift(a, shorter, stack, env);
      ExecuteJoin(a, shorter, stack, env);
      assert (a + b)[..|a + b| - 1] == a + shorter;
    }
  }

  /** Whatever goes wrong while running a node's code on supplied inputs is an ordinal too wide to compare. */
  lemma {:induction false} NodeTrouble(nodes: seq<Node>, inputs: map<string, Type>, env: Env, i: nat, stack: seq<Value>)
    requires Supplied(nodes, inputs, env, i)
    ensures OnlyTooWide(Compile(nodes, i), Trouble(Compile(nodes, i), stack, env))
    decreases i, 2
  {
    hide WellTyped, Reads, Execute, Accepts, Children, OnlyTooWide, RanksOk, Trouble;
    OperandTrouble(nodes, inputs, env, i, 0, stack);
    OperandsCompute(nodes, inputs, env, i, 0, stack);
    OpTrouble(nodes, inputs, env, i, stack);
    TooWideJoin(CompileFrom(nodes, i, 0), [OpAt(nodes, i)], stack, env);
  }

  lemma OpTrouble(nodes: seq<Node>, inputs: map<string, Type>, env: Env, i: nat, stack: seq<Value>)
    requires Supplied(nodes, inputs, env, i)
    ensures i < |nodes|
    ensures OnlyTooWide([OpAt(nodes, i)], Trouble([OpAt(nodes, i)], stack + Args(nodes, inputs, env, i), env))
  {
    hide WellTyped, Reads, Accepts, Args, FromNode, Meaning, Children, Earlier;
    var args := Args(nodes, inputs, env, i);
    var op := FromNode(nodes[i].kind);
    NodeFine(nodes, inputs, env, i, args);
    assert [OpAt(nodes, i)][..0] == [];
    assert (stack + args)[|stack + args| - Arity(op)..] == args;
  }

  lemma {:induction false} OperandTrouble(nodes: seq<Node>, inputs: map<string, Type>, env: Env, i: nat, from: nat, stack: seq<Value>)
    requires Supplied(nodes, inputs, env, i) && from <= |Children(nodes[i].kind)|
    ensures OnlyTooWide(CompileFrom(nodes, i, from), Trouble(CompileFrom(nodes, i, from), stack, env))
    decreases i, 1, |Children(nodes[i].kind)| - from
  {
    hide RanksOk, Apply, Accepts, OnlyTooWide, Execute, Trouble, WellTyped, Reads, Earlier, Meaning, FromNode, Args;
    var ch := Children(nodes[i].kind);
    if from == |ch| {
      NoTrouble(stack, env);
    } else {
      ChildSupplied(nodes, inputs, env, i, from);
      NodeTrouble(nodes, inputs, env, ch[from], stack);
      CompileComputes(nodes, inputs, env, ch[from], stack);
      OperandTrouble(nodes, inputs, env, i, from + 1, stack + [Computed(nodes, inputs, env, ch[from])]);
      TooWideJoin(Compile(nodes, ch[from]), CompileFrom(nodes, i, from + 1), stack, env);
    }
  }

  lemma NoTrouble(stack: seq<Value>, env: Env)
    ensures Trouble([], stack, env) == None && OnlyTooWide([], None)
  {
  }

  /** What the evaluator tests for success, on a lowered program and exact inputs, is met exactly when
      every compared ordinal fits; the diagnostic of a failure says so, at a comparison of the program. */
  lemma OnlyOrdinalsCanFail(nodes: seq<Node>, inputs: map<string, Type>, root: nat, p: FormalProgram, env: Env)
    requires WellTyped(nodes, inputs) && LoweredFrom(nodes, inputs, root, p) && InputsExact(p.inputs, env)
    ensures root < |nodes|
    ensures var final := Execute(p.ops, [], env);
      (final.Some? && |final.value| == 1 && Accepts(p.outputType, final.value[0])) <==> ComparisonsFit(nodes, env, root)
    ensures Trouble(p.ops, [], env).Some? <==> !ComparisonsFit(nodes, env, root)
    ensures OnlyTooWide(p.ops, Trouble(p.ops, [], env))
    ensures NarrowComparisons(nodes, root) ==>
      Denote(nodes, env, root).Some? && Execute(p.ops, [], env) == Some([Denote(nodes, env, root).value])
  {
    LoweringPreservesMeaning(nodes, inputs, root, p, env);
    hide Execute, Accepts, ComparisonsFit, Denote, WellTyped, NarrowComparisons, Reads, Trouble, OnlyTooWide;
    NodeTrouble(nodes, inputs, env, root, []);
    if NarrowComparisons(nodes, root) {
      NarrowNeverFails(nodes, inputs, env, root);
    }
  }

  /** Every comparison below node `i` is between integers or between enumerations of at most 2^31 variants. */
  ghost predicate NarrowComparisons(nodes: seq<Node>, i: nat)
    requires Earlier(nodes) && i < |nodes|
    decreases i
  {
    && (forall k :: 0 <= k < |Children(nodes[i].kind)| ==> NarrowComparisons(nodes, Children(nodes[i].kind)[k]))
    && match nodes[i].kind
       case Less(left, _) => left < |nodes| && Narrow(nodes[left].ty)
       case LessEqual(left, _) => left < |nodes| && Narrow(nodes[left].ty)
       case _ => true
  }

  predicate Narrow(ty: Type) { ty.EnumerationType? ==> |ty.schema.variants| - 1 <= I32_MAX }

  /** Narrow comparisons fit on all inputs: then evaluation never fails. */
  lemma NarrowNeverFails(nodes: seq<Node>, inputs: map<string, Type>, env: Env, i: nat)
    requires Supplied(nodes, inputs, env, i) && NarrowComparisons(nodes, i)
    ensures ComparisonsFit(nodes, env, i)
  {
    NarrowRanksOk(nodes, inputs, env, i);
    RanksOkIffFit(nodes, inputs, env, i);
  }

  lemma {:induction false} NarrowRanksOk(nodes: seq<Node>, inputs: map<string, Type>, env: Env, i: nat)
    requires Supplied(nodes, inputs, env, i) && NarrowComparisons(nodes, i)
    ensures RanksOk(nodes, inputs, env, i)
    decreases i
  {
    hide WellTyped, Reads, RanksFit, Accepts, Narrow;
    var kind := nodes[i].kind;
    forall k | 0 <= k < |Children(kind)|
      ensures Children(kind)[k] < i && Supplied(nodes, inputs, env, Children(kind)[k])
      ensures RanksOk(nodes, inputs, env, Children(kind)[k])
    {
      ChildSupplied(nodes, inputs, env, i, k);
      NarrowRanksOk(nodes, inputs, env, Children(kind)[k]);
    }
    OperandRanksAll(nodes, inputs, env, i, 0);
    RanksSplit(nodes, inputs, env, i);
    NarrowRanks(nodes, inputs, env, i);
  }

  lemma NarrowRanks(nodes: seq<Node>, inputs: map<string, Type>, env: Env, i: nat)
    requires Supplied(nodes, inputs, env, i) && NarrowComparisons(nodes, i)
    ensures |Args(nodes, inputs, env, i)| == Arity(FromNode(nodes[i].kind))
    ensures RanksFit(FromNode(nodes[i].kind), Args(nodes, inputs, env, i))
  {
    hide Reads, Accepts, Narrow, WellTyped, Args;
    var kind := nodes[i].kind;
    var args := Args(nodes, inputs, env, i);
    if kind.Less? || kind.LessEqual? {
      ComparedTypes(nodes, inputs, i);
      RankWithin(nodes[Children(kind)[0]].ty, args[0]);
      RankWithin(nodes[Children(kind)[1]].ty, args[1]);
    }
  }

  lemma ComparedTypes(nodes: seq<Node>, inputs: map<string, Type>, i: nat)
    requires WellTyped(nodes, inputs) && i < |nodes| && (nodes[i].kind.Less? || nodes[i].kind.LessEqual?)
    ensures var kind := nodes[i].kind;
      && Children(kind) == [kind.left, kind.right] && kind.left < i && kind.right < i
      && nodes[kind.left].ty == nodes[kind.right].ty && OrderedType(nodes[kind.left].ty)
  {
    assert Admissible(nodes[..i], inputs, nodes[i].kind, nodes[i].ty);
  }

  lemma RankWithin(ty: Type, v: Value)
    requires Accepts(ty, v) && OrderedType(ty) && Narrow(ty)
    ensures Ordered(v) && FitsI32(Rank(v))
  {
  }

  // ----- The comparison that does fail -----

  /** Whatever enumeration has more variants than 32-bit ordinals can number: the builder accepts comparing
      an input of it with itself, yet with the last variant as input the interpreter refuses. The static
      checks miss exactly this case. */
  lemma WideComparisonFails(schema: EnumType, origin: Origin) returns (nodes: seq<Node>, inputs: map<string, Type>, env: Env)
    requires |schema.variants| - 1 > I32_MAX
    ensures WellTyped(nodes, inputs) && |nodes| == 2 && nodes[1].kind == Less(0, 0)
    ensures Earlier(nodes) && Supplied(nodes, inputs, env, 1)
    ensures Execute(Compile(nodes, 1), [], env).None?
    ensures !NarrowComparisons(nodes, 1)
  {
    hide Supplied, WellTyped, Reads, Compile, Execute;
    var ty := EnumerationType(schema);
    nodes := SelfComparison(ty, origin);
    inputs := map["x" := ty];
    env := map["x" := EnumerationValue(schema.name, |schema.variants| - 1)];
    SelfComparisonSupplied(ty, origin, env["x"]);
    CompileComputes(nodes, inputs, env, 1, []);
    ChildSupplied(nodes, inputs, env, 1, 0);
    assert Computed(nodes, inputs, env, 0) == env["x"];
    assert Args(nodes, inputs, env, 1)[0] == env["x"];
  }

  /** Every type is inhabited. */
  ghost function Inhabitant(ty: Type): (v: Value)
    ensures Accepts(ty, v)
    decreases ty
  {
    match ty
    case BoolType => BoolValue(true)
    case IntegerType(range) => IntegerValue(range.min)
    case EnumerationType(schema) => EnumerationValue(schema.name, 0)
    case RecordOf(record) =>
      RecordValue(record.name, seq(|record.fields|, k requires 0 <= k < |record.fields| => Inhabitant(record.fields[k].ty)))
    case ArrayOf(element, len) => ArrayValue(seq(len, _ => Inhabitant(element)))
  }

  /** Node `j` compares, as operand `k`, an input of an enumeration with more variants than 32-bit ordinals. */
  ghost predicate ComparesWideInput(nodes: seq<Node>, j: nat, k: nat) {
    && j < |nodes| && (nodes[j].kind.Less? || nodes[j].kind.LessEqual?) && k < |Children(nodes[j].kind)|
    && var c := Children(nodes[j].kind)[k];
       c < |nodes| && nodes[c].kind.Input? && !Narrow(nodes[c].ty)
  }

  /** Conversely to narrow comparisons: a program that compares an input of a wider enumeration anywhere
      fails on some exact inputs, with the diagnostic of an ordinal that is too wide. */
  lemma WideInputFails(nodes: seq<Node>, inputs: map<string, Type>, root: nat, p: FormalProgram,
                       path: seq<nat>, j: nat, k: nat) returns (env: Env)
    requires WellTyped(nodes, inputs) && LoweredFrom(nodes, inputs, root, p)
    requires LeadsTo(nodes, path, root, j) && ComparesWideInput(nodes, j, k)
    ensures InputsExact(p.inputs, env)
    ensures Execute(p.ops, [], env).None?
    ensures var d := Trouble(p.ops, [], env); d.Some? && d.value.reason == OrdinalTooWide
  {
    env := WideInputs(nodes, inputs, root, p, path, j, k);
    hide Execute, Trouble, Accepts, RanksOk, WellTyped, Reads, LoweredFrom, ComparesWideInput, ComparisonsFit, Denote;
    ExactSupplies(nodes, inputs, root, p, env);
    OnlyOrdinalsCanFail(nodes, inputs, root, p, env);
    WideRefused(nodes, inputs, env, path, j, k);
    RanksOkIffFit(nodes, inputs, env, root);
  }

  /** Exact inputs that give the compared input its last variant. */
  lemma WideInputs(nodes: seq<Node>, inputs: map<string, Type>, root: nat, p: FormalProgram,
                   path: seq<nat>, j: nat, k: nat) returns (env: Env)
    requires WellTyped(nodes, inputs) && LoweredFrom(nodes, inputs, root, p)
    requires LeadsTo(nodes, path, root, j) && ComparesWideInput(nodes, j, k)
    ensures InputsExact(p.inputs, env)
    ensures var c := Children(nodes[j].kind)[k];
      nodes[c].kind.name in env && env[nodes[c].kind.name].EnumerationValue? && env[nodes[c].kind.name].ordinal > I32_MAX
  {
    var c := Children(nodes[j].kind)[k];
    var name := nodes[c].kind.name;
    assert LeadsTo(nodes, path + [c], root, c);
    LoweredShape(nodes, inputs, root, p, name);
    assert Admissible(nodes[..c], inputs, nodes[c].kind, nodes[c].ty);
    hide Accepts, WellTyped, Reads, Admissible, Inhabitant, Compile, FirstOrigins;
    var schema := nodes[c].ty.schema;
    env := map n | n in p.inputs :: if n == name then EnumerationValue(schema.name, |schema.variants| - 1) else Inhabitant(p.inputs[n]);
    LastVariant(schema);
  }

  lemma LastVariant(schema: EnumType)
    ensures Accepts(EnumerationType(schema), EnumerationValue(schema.name, |schema.variants| - 1))
  {
  }

  /** An ordinal too wide for one comparison refuses everything that uses the comparison. */
  lemma {:induction false} WideRefused(nodes: seq<Node>, inputs: map<string, Type>, env: Env, path: seq<nat>, j: nat, k: nat)
    requires |path| > 0 && LeadsTo(nodes, path, path[0], j) && Supplied(nodes, inputs, env, path[0])
    requires ComparesWideInput(nodes, j, k)
    requires var c := Children(nodes[j].kind)[k];
      nodes[c].kind.name in env && env[nodes[c].kind.name].EnumerationValue? && env[nodes[c].kind.name].ordinal > I32_MAX
    ensures !RanksOk(nodes, inputs, env, path[0])
    decreases |path|
  {
    hide WellTyped, Reads, Accepts, Narrow, RanksFit, Children;
    if |path| == 1 {
      WideOperand(nodes, inputs, env, j, k);
    } else {
      assert path[0 + 1] in Children(nodes[path[0]].kind);
      var h :| 0 <= h < |Children(nodes[path[0]].kind)| && Children(nodes[path[0]].kind)[h] == path[1];
      ChildSupplied(nodes, inputs, env, path[0], h);
      WideRefused(nodes, inputs, env, path[1..], j, k);
    }
  }

  lemma WideOperand(nodes: seq<Node>, inputs: map<string, Type>, env: Env, j: nat, k: nat)
    requires Supplied(nodes, inputs, env, j) && ComparesWideInput(nodes, j, k)
    requires var c := Children(nodes[j].kind)[k];
      nodes[c].kind.name in env && env[nodes[c].kind.name].EnumerationValue? && env[nodes[c].kind.name].ordinal > I32_MAX
    ensures !RanksOk(nodes, inputs, env, j)
  {
    hide WellTyped, Reads, Accepts, Narrow, RanksOk, Meaning, Earlier, Args;
    var c := Children(nodes[j].kind)[k];
    ChildSupplied(nodes, inputs, env, j, k);
    InputComputed(nodes, inputs, env, c);
    ArgComputed(nodes, inputs, env, j, k);
    NodeExecutes(nodes, inputs, env, j);
    RanksSplit(nodes, inputs, env, j);
  }

  lemma InputComputed(nodes: seq<Node>, inputs: map<string, Type>, env: Env, c: nat)
    requires Supplied(nodes, inputs, env, c) && nodes[c].kind.Input?
    ensures nodes[c].kind.name in env && Computed(nodes, inputs, env, c) == env[nodes[c].kind.name]
  {
    hide WellTyped, Reads, Accepts;
    NodeFine(nodes, inputs, env, c, Args(nodes, inputs, env, c));
  }

  lemma ArgComputed(nodes: seq<Node>, inputs: map<string, Type>, env: Env, j: nat, k: nat)
    requires Supplied(nodes, inputs, env, j) && k < |Children(nodes[j].kind)|
    requires Supplied(nodes, inputs, env, Children(nodes[j].kind)[k])
    ensures Args(nodes, inputs, env, j)[k] == Computed(nodes, inputs, env, Children(nodes[j].kind)[k])
  {
    hide WellTyped, Reads, Accepts;
  }

  ghost function SelfComparison(ty: Type, origin: Origin): seq<Node> {
    [Node(Input("x"), ty, origin), Node(Less(0, 0), BoolType, origin)]
  }

  lemma SelfComparisonSupplied(ty: Type, origin: Origin, v: Value)
    requires OrderedType(ty) && Accepts(ty, v)
    ensures var nodes := SelfComparison(ty, origin);
      WellTyped(nodes, map["x" := ty]) && Earlier(nodes) && Supplied(nodes, map["x" := ty], map["x" := v], 1)
  {
    var nodes, inputs := SelfComparison(ty, origin), map["x" := ty];
    assert Admissible(nodes[..0], inputs, nodes[0].kind, nodes[0].ty);
    assert Admissible(nodes[..1], inputs, nodes[1].kind, nodes[1].ty);
    TypedIsEarlier(nodes, inputs);
    forall name | Reads(nodes, 1, name)
      ensures name == "x"
    {
      OnlyInput(nodes, ty, origin, name);
    }
  }

  lemma OnlyInput(nodes: seq<Node>, ty: Type, origin: Origin, name: string)
    requires nodes == [Node(Input("x"), ty, origin), Node(Less(0, 0), BoolType, origin)]
    requires Reads(nodes, 1, name)
    ensures name == "x"
  {
    var path: seq<nat>, j: nat :| LeadsTo(nodes, path, 1, j) && j < |nodes| && nodes[j].kind == Input(name);
  }
}
