/** Lowering a rooted expression to stack code with an explicit work list. The reference is the
    recursive postorder compilation of the unfolded expression tree. */
module Lowering {
  import opened Wrappers
  import opened DialectTypes
  import opened Building

  // ----- Reference compilation -----

  /** Nodes refer only to earlier nodes. */
  ghost predicate Earlier(nodes: seq<Node>) {
    forall i, k :: 0 <= i < |nodes| && 0 <= k < |Children(nodes[i].kind)| ==> Children(nodes[i].kind)[k] < i
  }

  lemma TypedIsEarlier(nodes: seq<Node>, inputs: map<string, Type>)
    requires WellTyped(nodes, inputs)
    ensures Earlier(nodes)
  {
    forall i, k | 0 <= i < |nodes| && 0 <= k < |Children(nodes[i].kind)|
      ensures Children(nodes[i].kind)[k] < i
    {
      assert Admissible(nodes[..i], inputs, nodes[i].kind, nodes[i].ty);
    }
  }

  function OpAt(nodes: seq<Node>, i: nat): LocatedOp
    requires i < |nodes|
  {
    LocatedOp(FromNode(nodes[i].kind), nodes[i].origin)
  }

  /** Code for the operands `from..` of a node, in order. */
  ghost function CompileFrom(nodes: seq<Node>, i: nat, from: nat): seq<LocatedOp>
    requires Earlier(nodes) && i < |nodes| && from <= |Children(nodes[i].kind)|
    decreases i, 1, |Children(nodes[i].kind)| - from
  {
    var ch := Children(nodes[i].kind);
    if from == |ch| then [] else Compile(nodes, ch[from]) + CompileFrom(nodes, i, from + 1)
  }

  /** Postorder code of the tree unfolded at node `i`. */
  ghost function Compile(nodes: seq<Node>, i: nat): seq<LocatedOp>
    requires Earlier(nodes) && i < |nodes|
    decreases i, 2
  {
    CompileFrom(nodes, i, 0) + [OpAt(nodes, i)]
  }

  /** Every operation is that of some node it was compiled for, and carries that node's origin. */
  lemma {:induction false} OpsComeFromNodes(nodes: seq<Node>, i: nat, o: LocatedOp) returns (j: nat)
    requires Earlier(nodes) && i < |nodes| && o in Compile(nodes, i)
    ensures j <= i && o.op == FromNode(nodes[j].kind) && o.origin == nodes[j].origin
    decreases i, 2
  {
    if o in CompileFrom(nodes, i, 0) {
      j := OperandOpsComeFromNodes(nodes, i, 0, o);
    } else {
      j := i;
    }
  }

  lemma {:induction false} OperandOpsComeFromNodes(nodes: seq<Node>, i: nat, from: nat, o: LocatedOp) returns (j: nat)
    requires Earlier(nodes) && i < |nodes| && from <= |Children(nodes[i].kind)| && o in CompileFrom(nodes, i, from)
    ensures j < i && o.op == FromNode(nodes[j].kind) && o.origin == nodes[j].origin
    decreases i, 1, |Children(nodes[i].kind)| - from
  {
    var ch := Children(nodes[i].kind);
    if o in Compile(nodes, ch[from]) {
      j := OpsComeFromNodes(nodes, ch[from], o);
    } else {
      j := OperandOpsComeFromNodes(nodes, i, from + 1, o);
    }
  }

  /** Number of nodes of the unfolded operand trees `from..`, and of the whole tree. */
  ghost function SizeFrom(nodes: seq<Node>, i: nat, from: nat): nat
    requires Earlier(nodes) && i < |nodes| && from <= |Children(nodes[i].kind)|
    decreases i, 1, |Children(nodes[i].kind)| - from
  {
    var ch := Children(nodes[i].kind);
    if from == |ch| then 0 else TreeSize(nodes, ch[from]) + SizeFrom(nodes, i, from + 1)
  }

  ghost function TreeSize(nodes: seq<Node>, i: nat): nat
    requires Earlier(nodes) && i < |nodes|
    decreases i, 2
  {
    1 + SizeFrom(nodes, i, 0)
  }

  lemma {:induction false} OneOpPerTreeNode(nodes: seq<Node>, i: nat)
    requires Earlier(nodes) && i < |nodes|
    ensures |Compile(nodes, i)| == TreeSize(nodes, i)
    decreases i, 2
  {
    OneOpPerOperandNode(nodes, i, 0);
  }

  lemma {:induction false} OneOpPerOperandNode(nodes: seq<Node>, i: nat, from: nat)
    requires Earlier(nodes) && i < |nodes| && from <= |Children(nodes[i].kind)|
    ensures |CompileFrom(nodes, i, from)| == SizeFrom(nodes, i, from)
    decreases i, 1, |Children(nodes[i].kind)| - from
  {
    if from < |Children(nodes[i].kind)| {
      OneOpPerTreeNode(nodes, Children(nodes[i].kind)[from]);
      OneOpPerOperandNode(nodes, i, from + 1);
    }
  }

  // ----- Inputs reached from a node -----

  /** `path` leads from node `i` down operand edges to node `j`. */
  ghost predicate LeadsTo(nodes: seq<Node>, path: seq<nat>, i: nat, j: nat) {
    && |path| > 0 && path[0] == i && path[|path| - 1] == j
    && (forall k :: 0 <= k < |path| ==> path[k] < |nodes|)
    && (forall k :: 0 <= k < |path| - 1 ==> path[k + 1] in Children(nodes[path[k]].kind))
  }

  /** The input `name` is read by some node reachable from `i`. */
  ghost predicate Reads(nodes: seq<Node>, i: nat, name: string) {
    exists path: seq<nat>, j: nat :: LeadsTo(nodes, path, i, j) && j < |nodes| && nodes[j].kind == Input(name)
  }

  lemma ReadsStep(nodes: seq<Node>, i: nat, k: nat, name: string)
    requires i < |nodes| && k < |Children(nodes[i].kind)| && Reads(nodes, Children(nodes[i].kind)[k], name)
    ensures Reads(nodes, i, name)
  {
    var path: seq<nat>, j: nat :| LeadsTo(nodes, path, Children(nodes[i].kind)[k], j) && j < |nodes| && nodes[j].kind == Input(name);
    assert LeadsTo(nodes, [i] + path, i, j);
  }

  lemma ReadsInversion(nodes: seq<Node>, i: nat, name: string) returns (k: nat)
    requires i < |nodes| && Reads(nodes, i, name) && nodes[i].kind != Input(name)
    ensures k < |Children(nodes[i].kind)| && Reads(nodes, Children(nodes[i].kind)[k], name)
  {
    var path: seq<nat>, j: nat :| LeadsTo(nodes, path, i, j) && j < |nodes| && nodes[j].kind == Input(name);
    assert path[0 + 1] in Children(nodes[path[0]].kind);
    k :| 0 <= k < |Children(nodes[i].kind)| && Children(nodes[i].kind)[k] == path[1];
    assert LeadsTo(nodes, path[1..], path[1], j);
  }

  ghost predicate Loads(ops: seq<LocatedOp>, name: string) {
    exists k :: 0 <= k < |ops| && ops[k].op == LoadInput(name)
  }

  lemma LoadsJoin(a: seq<LocatedOp>, b: seq<LocatedOp>, name: string)
    ensures Loads(a + b, name) <==> Loads(a, name) || Loads(b, name)
  {
    if Loads(a, name) {
      var k :| 0 <= k < |a| && a[k].op == LoadInput(name);
      assert (a + b)[k].op == LoadInput(name);
    }
    if Loads(b, name) {
      var k :| 0 <= k < |b| && b[k].op == LoadInput(name);
      assert (a + b)[|a| + k].op == LoadInput(name);
    }
  }

  /** The compiled code loads exactly the inputs read by nodes reachable from the root. */
  lemma {:induction false} LoadsIffReads(nodes: seq<Node>, i: nat, name: string)
    requires Earlier(nodes) && i < |nodes|
    ensures Loads(Compile(nodes, i), name) <==> Reads(nodes, i, name)
    decreases i, 2
  {
    hide Reads, Loads;
    LoadsIffOperandReads(nodes, i, 0, name);
    LoadsJoin(CompileFrom(nodes, i, 0), [OpAt(nodes, i)], name);
    LoadsOne(OpAt(nodes, i), name);
    if nodes[i].kind == Input(name) {
      ReadsHere(nodes, i, name);
    } else if Reads(nodes, i, name) {
      var k := ReadsInversion(nodes, i, name);
    }
    if k: nat :| k < |Children(nodes[i].kind)| && Reads(nodes, Children(nodes[i].kind)[k], name) {
      ReadsStep(nodes, i, k, name);
    }
  }

  lemma LoadsOne(op: LocatedOp, name: string)
    ensures Loads([op], name) <==> op.op == LoadInput(name)
  {
    if op.op == LoadInput(name) {
      assert [op][0].op == LoadInput(name);
    }
  }

  lemma ReadsHere(nodes: seq<Node>, i: nat, name: string)
    requires i < |nodes| && nodes[i].kind == Input(name)
    ensures Reads(nodes, i, name)
  {
    assert LeadsTo(nodes, [i], i, i);
  }

  lemma {:induction false} LoadsIffOperandReads(nodes: seq<Node>, i: nat, from: nat, name: string)
    requires Earlier(nodes) && i < |nodes| && from <= |Children(nodes[i].kind)|
    ensures Loads(CompileFrom(nodes, i, from), name) <==>
      exists k: nat :: from <= k < |Children(nodes[i].kind)| && Reads(nodes, Children(nodes[i].kind)[k], name)
    decreases i, 1, |Children(nodes[i].kind)| - from
  {
    hide Reads, Loads;
    var ch := Children(nodes[i].kind);
    if from == |ch| {
      LoadsNothing(name);
    } else {
      LoadsIffReads(nodes, ch[from], name);
      LoadsIffOperandReads(nodes, i, from + 1, name);
      LoadsJoin(Compile(nodes, ch[from]), CompileFrom(nodes, i, from + 1), name);
    }
  }

  // ----- The work list -----

  /** One pending entry: emit the node's own operation, or first visit its operands. */
  datatype Work = Work(node: nat, emit: bool)

  ghost predicate WorkOk(nodes: seq<Node>, work: seq<Work>) {
    forall k :: 0 <= k < |work| ==> work[k].node < |nodes|
  }

  /** The code still to be produced for the pending entries, the last one first. */
  ghost function CodeToCome(nodes: seq<Node>, work: seq<Work>): seq<LocatedOp>
    requires Earlier(nodes) && WorkOk(nodes, work)
  {
    if work == [] then []
    else
      var top := work[|work| - 1];
      (if top.emit then [OpAt(nodes, top.node)] else Compile(nodes, top.node)) + CodeToCome(nodes, work[..|work| - 1])
  }

  /** Total unfolded size of the pending entries: the measure that shrinks. */
  ghost function Weight(nodes: seq<Node>, work: seq<Work>): nat
    requires Earlier(nodes) && WorkOk(nodes, work)
  {
    if work == [] then 0
    else
      var top := work[|work| - 1];
      (if top.emit then 1 else 2 * TreeSize(nodes, top.node)) + Weight(nodes, work[..|work| - 1])
  }

  lemma PushOne(nodes: seq<Node>, work: seq<Work>, w: Work)
    requires Earlier(nodes) && WorkOk(nodes, work) && w.node < |nodes|
    ensures WorkOk(nodes, work + [w])
    ensures CodeToCome(nodes, work + [w])
         == (if w.emit then [OpAt(nodes, w.node)] else Compile(nodes, w.node)) + CodeToCome(nodes, work)
    ensures Weight(nodes, work + [w]) == (if w.emit then 1 else 2 * TreeSize(nodes, w.node)) + Weight(nodes, work)
  {
    assert (work + [w])[..|work|] == work;
  }

  /** The origin under which an input is first loaded. */
  ghost function FirstOrigins(ops: seq<LocatedOp>): map<string, Origin> {
    if ops == [] then map[]
    else
      var rest := FirstOrigins(ops[..|ops| - 1]);
      var last := ops[|ops| - 1];
      if last.op.LoadInput? && last.op.name !in rest then rest[last.op.name := last.origin] else rest
  }

  lemma {:induction false} FirstOriginsKeys(ops: seq<LocatedOp>, name: string)
    ensures name in FirstOrigins(ops) <==> Loads(ops, name)
  {
    hide Loads;
    if ops == [] {
      LoadsNothing(name);
    } else {
      var rest := ops[..|ops| - 1];
      FirstOriginsKeys(rest, name);
      assert ops == rest + [ops[|ops| - 1]];
      LoadsJoin(rest, [ops[|ops| - 1]], name);
      LoadsOne(ops[|ops| - 1], name);
    }
  }

  lemma LoadsNothing(name: string)
    ensures !Loads([], name)
  {
  }

  /** The recorded origin is that of the first operation that loads the input. */
  lemma {:induction false} FirstOriginsMeaning(ops: seq<LocatedOp>, name: string) returns (k: nat)
    requires name in FirstOrigins(ops)
    ensures k < |ops| && ops[k] == LocatedOp(LoadInput(name), FirstOrigins(ops)[name]) && !Loads(ops[..k], name)
  {
    hide Loads;
    var rest := ops[..|ops| - 1];
    FirstOriginsKeys(rest, name);
    if name in FirstOrigins(rest) {
      k := FirstOriginsMeaning(rest, name);
      assert rest[..k] == ops[..k];
    } else {
      k := |ops| - 1;
    }
  }

  datatype FormalProgram = FormalProgram(ops: seq<LocatedOp>, inputs: map<string, Type>,
                                         inputOrigins: map<string, Origin>, outputType: Type)

  /** The program is the postorder code of the root, with exactly the inputs it loads. */
  ghost predicate LoweredFrom(nodes: seq<Node>, inputs: map<string, Type>, root: nat, p: FormalProgram) {
    && Earlier(nodes) && root < |nodes|
    && p.ops == Compile(nodes, root)
    && p.inputOrigins == FirstOrigins(p.ops)
    && p.inputs.Keys == p.inputOrigins.Keys
    && (forall name :: name in p.inputs ==> name in inputs && p.inputs[name] == inputs[name])
    && p.outputType == nodes[root].ty
  }

  /** Push the operands of node `i` so that the first one comes off first. */
  method PushOperands(nodes: seq<Node>, i: nat, pending: seq<Work>) returns (work: seq<Work>)
    requires Earlier(nodes) && WorkOk(nodes, pending) && i < |nodes|
    ensures WorkOk(nodes, work)
    ensures CodeToCome(nodes, work) == CompileFrom(nodes, i, 0) + CodeToCome(nodes, pending)
    ensures Weight(nodes, work) == 2 * SizeFrom(nodes, i, 0) + Weight(nodes, pending)
  {
    hide Earlier, Compile, CompileFrom, TreeSize, SizeFrom, CodeToCome, Weight;
    work := pending;
    OperandsDone(nodes, i);
    var children := Children(nodes[i].kind);
    var k := |children|;
    while k > 0
      invariant 0 <= k <= |children| && WorkOk(nodes, work)
      invariant CodeToCome(nodes, work) == CompileFrom(nodes, i, k) + CodeToCome(nodes, pending)
      invariant Weight(nodes, work) == 2 * SizeFrom(nodes, i, k) + Weight(nodes, pending)
    {
      k := k - 1;
      OperandsMore(nodes, i, k);
      PushOne(nodes, work, Work(children[k], false));
      work := work + [Work(children[k], false)];
    }
  }

  /** What has been emitted, followed by what is pending, is the code of the root. */
  ghost predicate Underway(nodes: seq<Node>, root: nat, ops: seq<LocatedOp>, work: seq<Work>) {
    Earlier(nodes) && root < |nodes| && WorkOk(nodes, work) && ops + CodeToCome(nodes, work) == Compile(nodes, root)
  }

  lemma EmitStep(nodes: seq<Node>, root: nat, ops: seq<LocatedOp>, rest: seq<Work>, i: nat)
    requires Underway(nodes, root, ops, rest + [Work(i, true)])
    ensures i < |nodes| && WorkOk(nodes, rest)
    ensures Underway(nodes, root, ops + [OpAt(nodes, i)], rest)
    ensures Weight(nodes, rest) < Weight(nodes, rest + [Work(i, true)])
  {
    hide Earlier, Compile, TreeSize, CodeToCome, Weight, Children, FromNode;
    assert (rest + [Work(i, true)])[|rest|] == Work(i, true);
    assert forall k :: 0 <= k < |rest| ==> rest[k] == (rest + [Work(i, true)])[k];
    PushOne(nodes, rest, Work(i, true));
    assert ops + ([OpAt(nodes, i)] + CodeToCome(nodes, rest)) == (ops + [OpAt(nodes, i)]) + CodeToCome(nodes, rest);
  }

  lemma VisitStart(nodes: seq<Node>, root: nat, ops: seq<LocatedOp>, rest: seq<Work>, i: nat)
    requires Underway(nodes, root, ops, rest + [Work(i, false)])
    ensures i < |nodes| && WorkOk(nodes, rest + [Work(i, true)])
  {
    hide Earlier, Compile, TreeSize, CodeToCome, Weight, Children, FromNode;
    assert (rest + [Work(i, false)])[|rest|] == Work(i, false);
    assert forall k :: 0 <= k < |rest| ==> rest[k] == (rest + [Work(i, false)])[k];
  }

  lemma VisitStep(nodes: seq<Node>, root: nat, ops: seq<LocatedOp>, rest: seq<Work>, i: nat, work: seq<Work>)
    requires Underway(nodes, root, ops, rest + [Work(i, false)]) && i < |nodes|
    requires WorkOk(nodes, rest + [Work(i, true)]) && WorkOk(nodes, work)
    requires CodeToCome(nodes, work) == CompileFrom(nodes, i, 0) + CodeToCome(nodes, rest + [Work(i, true)])
    requires Weight(nodes, work) == 2 * SizeFrom(nodes, i, 0) + Weight(nodes, rest + [Work(i, true)])
    ensures Underway(nodes, root, ops, work)
    ensures Weight(nodes, work) < Weight(nodes, rest + [Work(i, false)])
  {
    hide Earlier, Compile, CompileFrom, TreeSize, SizeFrom, CodeToCome, Weight, Children, FromNode;
    assert forall k :: 0 <= k < |rest| ==> rest[k] == (rest + [Work(i, true)])[k];
    PushOne(nodes, rest, Work(i, true));
    PushOne(nodes, rest, Work(i, false));
    CompileUnfold(nodes, i);
  }

  lemma WorkDone(nodes: seq<Node>, root: nat, ops: seq<LocatedOp>)
    requires Underway(nodes, root, ops, [])
    ensures ops == Compile(nodes, root)
  {
  }

  method Lower(builder: GraphBuilder, root: nat) returns (r: Result<FormalProgram, Diagnostic>)
    requires builder.Valid()
    ensures r.Failure? <==> root >= |builder.nodes|
    ensures r.Success? ==> LoweredFrom(builder.nodes, builder.inputs, root, r.value)
  {
    hide WellTyped, Earlier, Compile, CompileFrom, TreeSize, SizeFrom, CodeToCome, Weight, FirstOrigins;
    var nodes := builder.nodes;
    if root >= |nodes| {
      return Failure(AtOrigin(AbsentRoot, UnknownOrigin()));
    }
    TypedIsEarlier(nodes, builder.inputs);
    var work := [Work(root, false)];
    var ops: seq<LocatedOp> := [];
    var inputOrigins: map<string, Origin> := map[];
    StartWork(nodes, root);
    while work != []
      invariant Underway(nodes, root, ops, work)
      invariant inputOrigins == FirstOrigins(ops)
      decreases Weight(nodes, work)
    {
      var top := work[|work| - 1];
      var rest := work[..|work| - 1];
      assert work == rest + [top];
      var node := nodes[top.node];
      if top.emit {
        EmitStep(nodes, root, ops, rest, top.node);
        FirstOriginsStep(ops, OpAt(nodes, top.node));
        if node.kind.Input? && node.kind.name !in inputOrigins {
          inputOrigins := inputOrigins[node.kind.name := node.origin];
        }
        ops := ops + [LocatedOp(FromNode(node.kind), node.origin)];
        work := rest;
      } else {
        VisitStart(nodes, root, ops, rest, top.node);
        work := PushOperands(nodes, top.node, rest + [Work(top.node, true)]);
        VisitStep(nodes, root, ops, rest, top.node, work);
      }
    }
    WorkDone(nodes, root, ops);
    var inputs := Declared(inputOrigins, ops, nodes, builder.inputs, root);
    r := Success(FormalProgram(ops, inputs, inputOrigins, nodes[root].ty));
  }

  /** The declared types of the loaded inputs; every one of them is declared. */
  method Declared(inputOrigins: map<string, Origin>, ghost ops: seq<LocatedOp>, ghost nodes: seq<Node>,
                  declarations: map<string, Type>, ghost root: nat) returns (inputs: map<string, Type>)
    requires WellTyped(nodes, declarations) && Earlier(nodes) && root < |nodes|
    requires ops == Compile(nodes, root) && inputOrigins == FirstOrigins(ops)
    ensures inputs.Keys == inputOrigins.Keys
    ensures forall name :: name in inputs ==> name in declarations && inputs[name] == declarations[name]
  {
    hide WellTyped, Earlier, Compile;
    LoadedDeclared(nodes, declarations, root);
    forall name | name in inputOrigins
      ensures name in declarations
    {
      FirstOriginsKeys(ops, name);
    }
    inputs := map name | name in inputOrigins :: declarations[name];
  }

  function UnknownOrigin(): Origin { Origin("INTERNAL", "<formal-graph>", 0, "unavailable origin", Property) }

  lemma StartWork(nodes: seq<Node>, root: nat)
    requires Earlier(nodes) && root < |nodes|
    ensures Underway(nodes, root, [], [Work(root, false)])
    ensures FirstOrigins([]) == map[]
  {
    assert [Work(root, false)] == [] + [Work(root, false)];
    PushOne(nodes, [], Work(root, false));
  }

  lemma FirstOriginsStep(ops: seq<LocatedOp>, op: LocatedOp)
    ensures FirstOrigins(ops + [op]) ==
      if op.op.LoadInput? && op.op.name !in FirstOrigins(ops) then FirstOrigins(ops)[op.op.name := op.origin]
      else FirstOrigins(ops)
  {
    assert (ops + [op])[..|ops|] == ops;
  }

  lemma OperandsDone(nodes: seq<Node>, i: nat)
    requires Earlier(nodes) && i < |nodes|
    ensures CompileFrom(nodes, i, |Children(nodes[i].kind)|) == [] && SizeFrom(nodes, i, |Children(nodes[i].kind)|) == 0
  {
  }

  lemma OperandsMore(nodes: seq<Node>, i: nat, k: nat)
    requires Earlier(nodes) && i < |nodes| && k < |Children(nodes[i].kind)|
    ensures Children(nodes[i].kind)[k] < |nodes|
    ensures var child := Children(nodes[i].kind)[k];
      && CompileFrom(nodes, i, k) == Compile(nodes, child) + CompileFrom(nodes, i, k + 1)
      && SizeFrom(nodes, i, k) == TreeSize(nodes, child) + SizeFrom(nodes, i, k + 1)
  {
  }

  lemma CompileUnfold(nodes: seq<Node>, i: nat)
    requires Earlier(nodes) && i < |nodes|
    ensures Compile(nodes, i) == CompileFrom(nodes, i, 0) + [OpAt(nodes, i)]
    ensures TreeSize(nodes, i) == 1 + SizeFrom(nodes, i, 0)
  {
  }

  /** Every input the code loads is declared. */
  lemma LoadedDeclared(nodes: seq<Node>, inputs: map<string, Type>, root: nat)
    requires WellTyped(nodes, inputs) && Earlier(nodes) && root < |nodes|
    ensures forall name :: Loads(Compile(nodes, root), name) ==> name in inputs
  {
    hide Loads, Reads, WellTyped, Compile;
    forall name | Loads(Compile(nodes, root), name)
      ensures name in inputs
    {
      LoadsIffReads(nodes, root, name);
      ReadDeclared(nodes, inputs, root, name);
    }
  }

  lemma ReadDeclared(nodes: seq<Node>, inputs: map<string, Type>, root: nat, name: string)
    requires WellTyped(nodes, inputs) && Reads(nodes, root, name)
    ensures name in inputs
  {
    hide LeadsTo;
    var path: seq<nat>, j: nat :| LeadsTo(nodes, path, root, j) && j < |nodes| && nodes[j].kind == Input(name);
    assert Admissible(nodes[..j], inputs, nodes[j].kind, nodes[j].ty);
  }

  /** The lowered program requires exactly the inputs reachable from its root, in one
      operation per node of the unfolded tree. */
  lemma LoweredShape(nodes: seq<Node>, inputs: map<string, Type>, root: nat, p: FormalProgram, name: string)
    requires LoweredFrom(nodes, inputs, root, p)
    ensures name in p.inputs <==> Reads(nodes, root, name)
    ensures |p.ops| == TreeSize(nodes, root)
  {
    LoadsIffReads(nodes, root, name);
    FirstOriginsKeys(p.ops, name);
    OneOpPerTreeNode(nodes, root);
  }
}
