/**
 The syntax tree the pass works on, stored as an arena: a node is named by its
 index in a sequence, its parent by an index that is always smaller than its own
 (parents are allocated before their children), and the scope tables that the
 host builds are given as read-only data.
 */
module Ast {
  import opened Wrappers

  type NodeId = nat
  type ScopeId = nat
  type BindingId = nat

  datatype DeclKind = Var | Let | Const

  /** The node kinds the pass distinguishes, with the child slots it reads or mutates. */
  datatype Kind =
    | Program
    | Function(id: Option<string>)
    | Loop
    | Identifier(name: string)
    | ExpressionStatement
    | SequenceExpression(expressions: seq<NodeId>)
    | ReturnStatement(argument: Option<NodeId>)
    | VariableDeclaration(declKind: DeclKind, declarations: seq<NodeId>)
    | VariableDeclarator(id: Option<string>, init: Option<NodeId>)
    | Other

  /** A node with its byte offsets (absent on generated nodes) and the scope its path sees. */
  datatype Node = Node(kind: Kind, parent: Option<NodeId>, start: Option<int>, end: Option<int>, scope: ScopeId)

  /** A binding: its reassignment sites (a site may have lost its node) and its read sites. */
  datatype Binding = Binding(constantViolations: seq<Option<NodeId>>, referencePaths: seq<NodeId>)

  /** The host's scope tables: bindings, and which binding a name resolves to from a scope. */
  datatype Scopes = Scopes(bindings: seq<Binding>, table: map<(ScopeId, string), BindingId>)

  /** `scope.getBinding(name)`; a missing name (a pattern, or no id) resolves to nothing. */
  function GetBinding(scopes: Scopes, scope: ScopeId, name: Option<string>): Option<BindingId>
  {
    if name.Some? && (scope, name.value) in scopes.table then Some(scopes.table[(scope, name.value)]) else None
  }

  ghost predicate ChildrenBelow(k: Kind, size: nat)
  {
    match k
    case SequenceExpression(es) => forall j :: 0 <= j < |es| ==> es[j] < size
    case ReturnStatement(a) => a.Some? ==> a.value < size
    case VariableDeclaration(_, ds) => forall j :: 0 <= j < |ds| ==> ds[j] < size
    case VariableDeclarator(_, init) => init.Some? ==> init.value < size
    case _ => true
  }

  ghost predicate BindingInArena(b: Binding, size: nat)
  {
    && (forall j :: 0 <= j < |b.constantViolations| && b.constantViolations[j].Some? ==> b.constantViolations[j].value < size)
    && (forall j :: 0 <= j < |b.referencePaths| ==> b.referencePaths[j] < size)
  }

  /** Every parent index is smaller than its child's: the parent chain is acyclic. */
  ghost predicate ParentsPrecede(nodes: seq<Node>)
  {
    forall i :: 0 <= i < |nodes| && nodes[i].parent.Some? ==> nodes[i].parent.value < i
  }

  /** Every index in the tree and in the scope tables names something that exists. */
  ghost predicate WellFormed(nodes: seq<Node>, scopes: Scopes)
  {
    && ParentsPrecede(nodes)
    && (forall i :: 0 <= i < |nodes| ==> ChildrenBelow(nodes[i].kind, |nodes|))
    && (forall key :: key in scopes.table ==> scopes.table[key] < |scopes.bindings|)
    && (forall b :: 0 <= b < |scopes.bindings| ==> BindingInArena(scopes.bindings[b], |nodes|))
  }

  /** The strict ancestors of `p`, nearest first. */
  ghost function Ancestors(nodes: seq<Node>, p: NodeId): (a: seq<NodeId>)
    requires ParentsPrecede(nodes) && p < |nodes|
    ensures forall k :: 0 <= k < |a| ==> a[k] < p
    decreases p
  {
    match nodes[p].parent
    case None => []
    case Some(q) => [q] + Ancestors(nodes, q)
  }

  /** The callbacks the pass hands to `path.findParent`. */
  datatype Target = AnyFunction | AnyProgram | LoopOrStop(stop: Option<NodeId>)

  predicate Matches(t: Target, i: NodeId, n: Node)
  {
    match t
    case AnyFunction => n.kind.Function?
    case AnyProgram => n.kind.Program?
    case LoopOrStop(stop) => n.kind.Loop? || stop == Some(i)
  }

  /** `path.findParent(callback)`: the nearest strict ancestor the callback accepts, if any. */
  function FindParent(nodes: seq<Node>, p: NodeId, t: Target): (r: Option<NodeId>)
    requires ParentsPrecede(nodes) && p < |nodes|
    ensures r.Some? ==> r.value < p && Matches(t, r.value, nodes[r.value])
    decreases p
  {
    match nodes[p].parent
    case None => None
    case Some(q) => if Matches(t, q, nodes[q]) then Some(q) else FindParent(nodes, q, t)
  }

  /** No node of the chain `a` is accepted by the callback. */
  ghost predicate NoMatch(nodes: seq<Node>, a: seq<NodeId>, t: Target)
  {
    forall k :: 0 <= k < |a| && a[k] < |nodes| ==> !Matches(t, a[k], nodes[a[k]])
  }

  /** `a[k]` is the first node of the chain `a` that the callback accepts. */
  ghost predicate FirstMatch(nodes: seq<Node>, a: seq<NodeId>, t: Target, k: nat)
  {
    && k < |a| && a[k] < |nodes| && Matches(t, a[k], nodes[a[k]])
    && forall j :: 0 <= j < k && a[j] < |nodes| ==> !Matches(t, a[j], nodes[a[j]])
  }

  /** The search finds exactly the first accepted strict ancestor, and nothing when there is none. */
  lemma {:induction false} FindParentIsFirstMatch(nodes: seq<Node>, p: NodeId, t: Target)
    requires ParentsPrecede(nodes) && p < |nodes|
    ensures FindParent(nodes, p, t).None? <==> NoMatch(nodes, Ancestors(nodes, p), t)
    ensures FindParent(nodes, p, t).Some? ==>
              exists k: nat :: FirstMatch(nodes, Ancestors(nodes, p), t, k) && Ancestors(nodes, p)[k] == FindParent(nodes, p, t).value
    decreases p
  {
    var a := Ancestors(nodes, p);
    if nodes[p].parent.Some? {
      var q := nodes[p].parent.value;
      var b := Ancestors(nodes, q);
      assert a == [q] + b;
      if Matches(t, q, nodes[q]) {
        assert FirstMatch(nodes, a, t, 0);
      } else {
        FindParentIsFirstMatch(nodes, q, t);
        if FindParent(nodes, q, t).Some? {
          var k: nat :| FirstMatch(nodes, b, t, k) && b[k] == FindParent(nodes, q, t).value;
          FirstMatchCons(nodes, q, b, t, k);
          assert a[k + 1] == b[k];
        } else {
          NoMatchCons(nodes, q, b, t);
        }
      }
    }
  }

  /** There is at most one first match in a chain. */
  lemma FirstMatchUnique(nodes: seq<Node>, a: seq<NodeId>, t: Target)
    ensures forall k: nat, l: nat :: FirstMatch(nodes, a, t, k) && FirstMatch(nodes, a, t, l) ==> k == l
  {
  }

  /** A first match further down the chain stays first when a non-matching node is put in front. */
  lemma FirstMatchCons(nodes: seq<Node>, q: NodeId, b: seq<NodeId>, t: Target, k: nat)
    requires q < |nodes| && !Matches(t, q, nodes[q]) && FirstMatch(nodes, b, t, k)
    ensures FirstMatch(nodes, [q] + b, t, k + 1)
  {
    var a := [q] + b;
    forall j | 0 <= j < k + 1 && a[j] < |nodes| ensures !Matches(t, a[j], nodes[a[j]]) {
      if j > 0 { assert a[j] == b[j - 1]; }
    }
  }

  /** A chain without matches stays so when a non-matching node is put in front. */
  lemma NoMatchCons(nodes: seq<Node>, q: NodeId, b: seq<NodeId>, t: Target)
    requires q < |nodes| && !Matches(t, q, nodes[q]) && NoMatch(nodes, b, t)
    ensures NoMatch(nodes, [q] + b, t)
  {
    var a := [q] + b;
    forall k | 0 <= k < |a| && a[k] < |nodes| ensures !Matches(t, a[k], nodes[a[k]]) {
      if k > 0 { assert a[k] == b[k - 1]; }
    }
  }

  /** `path.getProgramParent()`: the path itself when it is the program, else the nearest program ancestor. */
  function ProgramParent(nodes: seq<Node>, p: NodeId): (r: Option<NodeId>)
    requires ParentsPrecede(nodes) && p < |nodes|
    ensures r.Some? ==> r.value <= p && nodes[r.value].kind.Program?
    ensures r.None? ==> !nodes[p].kind.Program? && NoMatch(nodes, Ancestors(nodes, p), AnyProgram)
    // the path itself when it is the program,
    ensures nodes[p].kind.Program? ==> r == Some(p)
    // else the first program among its strict ancestors, nearest first,
    ensures !nodes[p].kind.Program? && r.Some? ==>
              exists k: nat :: FirstMatch(nodes, Ancestors(nodes, p), AnyProgram, k) && Ancestors(nodes, p)[k] == r.value
    // which exists whenever some ancestor is a program
    ensures !NoMatch(nodes, Ancestors(nodes, p), AnyProgram) ==> r.Some?
  {
    FindParentIsFirstMatch(nodes, p, AnyProgram);
    if nodes[p].kind.Program? then Some(p) else FindParent(nodes, p, AnyProgram)
  }

  /** The node with the child slots the visitors mutate emptied: what the analyses may read. */
  function Skeleton(n: Node): Node
  {
    match n.kind
    case SequenceExpression(_) => n.(kind := SequenceExpression([]))
    case ReturnStatement(_) => n.(kind := ReturnStatement(None))
    case VariableDeclarator(id, _) => n.(kind := VariableDeclarator(id, None))
    case _ => n
  }

  /** Two trees that differ at most in the child slots the visitors mutate. */
  ghost predicate SameStructure(a: seq<Node>, b: seq<Node>)
  {
    |a| == |b| && forall i :: 0 <= i < |a| ==> Skeleton(a[i]) == Skeleton(b[i])
  }

  lemma SameStructureNode(a: seq<Node>, b: seq<Node>, i: NodeId)
    requires SameStructure(a, b) && i < |a|
    ensures a[i].parent == b[i].parent && a[i].start == b[i].start && a[i].end == b[i].end && a[i].scope == b[i].scope
    ensures a[i].kind.Function? == b[i].kind.Function? && a[i].kind.Loop? == b[i].kind.Loop?
    ensures a[i].kind.Program? == b[i].kind.Program? && a[i].kind.Identifier? == b[i].kind.Identifier?
    ensures a[i].kind.Function? ==> a[i].kind == b[i].kind
    ensures a[i].kind.Identifier? ==> a[i].kind == b[i].kind
    ensures a[i].kind.VariableDeclarator? == b[i].kind.VariableDeclarator?
    ensures a[i].kind.VariableDeclarator? ==> a[i].kind.id == b[i].kind.id
    ensures a[i].kind.SequenceExpression? == b[i].kind.SequenceExpression?
    ensures a[i].kind.ReturnStatement? == b[i].kind.ReturnStatement?
    ensures a[i].kind.ExpressionStatement? == b[i].kind.ExpressionStatement?
    ensures a[i].kind.VariableDeclaration? ==> a[i] == b[i]
  {
    assert Skeleton(a[i]) == Skeleton(b[i]);
  }

  lemma {:induction false} AncestorsFrame(a: seq<Node>, b: seq<Node>, p: NodeId)
    requires SameStructure(a, b) && ParentsPrecede(a) && ParentsPrecede(b) && p < |a|
    ensures Ancestors(a, p) == Ancestors(b, p)
    decreases p
  {
    SameStructureNode(a, b, p);
    if a[p].parent.Some? {
      AncestorsFrame(a, b, a[p].parent.value);
    }
  }

  lemma {:induction false} FindParentFrame(a: seq<Node>, b: seq<Node>, p: NodeId, t: Target)
    requires SameStructure(a, b) && ParentsPrecede(a) && ParentsPrecede(b) && p < |a|
    ensures FindParent(a, p, t) == FindParent(b, p, t)
    decreases p
  {
    SameStructureNode(a, b, p);
    if a[p].parent.Some? {
      var q := a[p].parent.value;
      SameStructureNode(a, b, q);
      FindParentFrame(a, b, q, t);
    }
  }

  lemma ProgramParentFrame(a: seq<Node>, b: seq<Node>, p: NodeId)
    requires SameStructure(a, b) && ParentsPrecede(a) && ParentsPrecede(b) && p < |a|
    ensures ProgramParent(a, p) == ProgramParent(b, p)
  {
    SameStructureNode(a, b, p);
    FindParentFrame(a, b, p, AnyProgram);
  }
}
