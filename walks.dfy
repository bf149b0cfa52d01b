/**
 The ancestor searches `getLoopParent` and `getFunctionParent`, the scope parent
 `hasViolation` caps them at, and the chains of loops and of functions that the
 `for` loops of the source walk by calling them repeatedly.
 */
module Walks {
  import opened Wrappers
  import opened Ast

  /** `getLoopParent`: the nearest strict ancestor that is a loop, unless `scopeParent` comes first. */
  function LoopParent(nodes: seq<Node>, p: NodeId, scopeParent: Option<NodeId>): (r: Option<NodeId>)
    requires ParentsPrecede(nodes) && p < |nodes|
    ensures r.Some? ==> r.value < p && nodes[r.value].kind.Loop? && Some(r.value) != scopeParent
    ensures r.Some? ==> r.value in Ancestors(nodes, p)
  {
    FindParentIsFirstMatch(nodes, p, LoopOrStop(scopeParent));
    var parent := FindParent(nodes, p, LoopOrStop(scopeParent));
    if parent == scopeParent then None else parent
  }

  /** `getFunctionParent`: the nearest strict function ancestor, unless that is `scopeParent` itself. */
  function FunctionParent(nodes: seq<Node>, p: NodeId, scopeParent: Option<NodeId>): (r: Option<NodeId>)
    requires ParentsPrecede(nodes) && p < |nodes|
    ensures r.Some? ==> r.value < p && nodes[r.value].kind.Function? && Some(r.value) != scopeParent
    ensures r.Some? ==> r.value in Ancestors(nodes, p)
  {
    FindParentIsFirstMatch(nodes, p, AnyFunction);
    var parent := FindParent(nodes, p, AnyFunction);
    if parent == scopeParent then None else parent
  }

  /** The scope parent of a declarator: its nearest function ancestor, or else its program parent. */
  function ScopeParent(nodes: seq<Node>, declarator: NodeId): (r: Option<NodeId>)
    requires ParentsPrecede(nodes) && declarator < |nodes|
    ensures r.Some? ==> r.value <= declarator && (nodes[r.value].kind.Function? || nodes[r.value].kind.Program?)
    ensures r.None? ==> NoMatch(nodes, Ancestors(nodes, declarator), AnyFunction)
    // the nearest function ancestor when there is one,
    ensures forall k: nat :: FirstMatch(nodes, Ancestors(nodes, declarator), AnyFunction, k) ==> r == Some(Ancestors(nodes, declarator)[k])
    // and the program parent only when there is none
    ensures NoMatch(nodes, Ancestors(nodes, declarator), AnyFunction) ==> r == ProgramParent(nodes, declarator)
  {
    FindParentIsFirstMatch(nodes, declarator, AnyFunction);
    FirstMatchUnique(nodes, Ancestors(nodes, declarator), AnyFunction);
    var f := FindParent(nodes, declarator, AnyFunction);
    if f.Some? then f else ProgramParent(nodes, declarator)
  }

  /** The loops visited by calling `getLoopParent` from `p`, then again from each loop found, until it yields nothing. */
  ghost function LoopChain(nodes: seq<Node>, p: NodeId, scopeParent: Option<NodeId>): (c: seq<NodeId>)
    requires ParentsPrecede(nodes) && p < |nodes|
    ensures forall k :: 0 <= k < |c| ==> c[k] < p
    decreases p
  {
    match LoopParent(nodes, p, scopeParent)
    case None => []
    case Some(l) => [l] + LoopChain(nodes, l, scopeParent)
  }

  /** The rest of the loop walk once `loop` holds `current`. */
  ghost function LoopChainFrom(nodes: seq<Node>, current: Option<NodeId>, scopeParent: Option<NodeId>): (c: seq<NodeId>)
    requires ParentsPrecede(nodes) && (current.Some? ==> current.value < |nodes|)
    ensures forall k :: 0 <= k < |c| ==> current.Some? && c[k] <= current.value
  {
    match current
    case None => []
    case Some(l) => [l] + LoopChain(nodes, l, scopeParent)
  }

  /** The functions visited by calling `getFunctionParent` from `p`, then again from each function found, until it yields nothing. */
  ghost function FunctionChain(nodes: seq<Node>, p: NodeId, scopeParent: Option<NodeId>): (c: seq<NodeId>)
    requires ParentsPrecede(nodes) && p < |nodes|
    ensures forall k :: 0 <= k < |c| ==> c[k] < p
    decreases p
  {
    match FunctionParent(nodes, p, scopeParent)
    case None => []
    case Some(f) => [f] + FunctionChain(nodes, f, scopeParent)
  }

  ghost function FunctionChainFrom(nodes: seq<Node>, current: Option<NodeId>, scopeParent: Option<NodeId>): (c: seq<NodeId>)
    requires ParentsPrecede(nodes) && (current.Some? ==> current.value < |nodes|)
    ensures forall k :: 0 <= k < |c| ==> current.Some? && c[k] <= current.value
  {
    match current
    case None => []
    case Some(f) => [f] + FunctionChain(nodes, f, scopeParent)
  }

  /** The prefix of the chain `a` before the first occurrence of `stop`. */
  ghost function UpTo(a: seq<NodeId>, stop: Option<NodeId>): seq<NodeId>
  {
    if a == [] || stop == Some(a[0]) then [] else [a[0]] + UpTo(a[1..], stop)
  }

  /** The loops of the chain `a`, in order. */
  ghost function LoopsOf(nodes: seq<Node>, a: seq<NodeId>): seq<NodeId>
  {
    if a == [] then []
    else (if a[0] < |nodes| && nodes[a[0]].kind.Loop? then [a[0]] else []) + LoopsOf(nodes, a[1..])
  }

  /** The functions of the chain `a`, in order. */
  ghost function FunctionsOf(nodes: seq<Node>, a: seq<NodeId>): seq<NodeId>
  {
    if a == [] then []
    else (if a[0] < |nodes| && nodes[a[0]].kind.Function? then [a[0]] else []) + FunctionsOf(nodes, a[1..])
  }

  /** The loop walk visits exactly the loop ancestors strictly below `scopeParent`, nearest first. */
  lemma {:induction false} LoopChainIsLoopsBelowScope(nodes: seq<Node>, p: NodeId, scopeParent: Option<NodeId>)
    requires ParentsPrecede(nodes) && p < |nodes|
    ensures LoopChain(nodes, p, scopeParent) == LoopsOf(nodes, UpTo(Ancestors(nodes, p), scopeParent))
    decreases p
  {
    var a := Ancestors(nodes, p);
    if nodes[p].parent.Some? {
      var q := nodes[p].parent.value;
      assert a == [q] + Ancestors(nodes, q);
      assert a[1..] == Ancestors(nodes, q);
      if scopeParent != Some(q) {
        LoopChainIsLoopsBelowScope(nodes, q, scopeParent);
        if !nodes[q].kind.Loop? {
          assert LoopParent(nodes, p, scopeParent) == LoopParent(nodes, q, scopeParent);
        }
      }
    }
  }

  /** The function walk visits the function ancestors, nearest first, up to `scopeParent` if it meets it. */
  lemma {:induction false} FunctionChainIsFunctionsBelowScope(nodes: seq<Node>, p: NodeId, scopeParent: Option<NodeId>)
    requires ParentsPrecede(nodes) && p < |nodes|
    ensures FunctionChain(nodes, p, scopeParent) == UpTo(FunctionsOf(nodes, Ancestors(nodes, p)), scopeParent)
    decreases p
  {
    var a := Ancestors(nodes, p);
    if nodes[p].parent.Some? {
      var q := nodes[p].parent.value;
      assert a == [q] + Ancestors(nodes, q);
      assert a[1..] == Ancestors(nodes, q);
      FunctionChainIsFunctionsBelowScope(nodes, q, scopeParent);
      if !nodes[q].kind.Function? {
        assert FunctionParent(nodes, p, scopeParent) == FunctionParent(nodes, q, scopeParent);
        assert FunctionChain(nodes, p, scopeParent) == FunctionChain(nodes, q, scopeParent);
        assert FunctionsOf(nodes, a) == FunctionsOf(nodes, Ancestors(nodes, q));
      } else {
        assert FunctionsOf(nodes, a) == [q] + FunctionsOf(nodes, Ancestors(nodes, q));
      }
    }
  }

  lemma LoopParentFrame(a: seq<Node>, b: seq<Node>, p: NodeId, scopeParent: Option<NodeId>)
    requires SameStructure(a, b) && ParentsPrecede(a) && ParentsPrecede(b) && p < |a|
    ensures LoopParent(a, p, scopeParent) == LoopParent(b, p, scopeParent)
  {
    FindParentFrame(a, b, p, LoopOrStop(scopeParent));
  }

  lemma FunctionParentFrame(a: seq<Node>, b: seq<Node>, p: NodeId, scopeParent: Option<NodeId>)
    requires SameStructure(a, b) && ParentsPrecede(a) && ParentsPrecede(b) && p < |a|
    ensures FunctionParent(a, p, scopeParent) == FunctionParent(b, p, scopeParent)
  {
    FindParentFrame(a, b, p, AnyFunction);
  }

  lemma ScopeParentFrame(a: seq<Node>, b: seq<Node>, p: NodeId)
    requires SameStructure(a, b) && ParentsPrecede(a) && ParentsPrecede(b) && p < |a|
    ensures ScopeParent(a, p) == ScopeParent(b, p)
  {
    FindParentFrame(a, b, p, AnyFunction);
    ProgramParentFrame(a, b, p);
  }

  lemma {:induction false} LoopChainFrame(a: seq<Node>, b: seq<Node>, p: NodeId, scopeParent: Option<NodeId>)
    requires SameStructure(a, b) && ParentsPrecede(a) && ParentsPrecede(b) && p < |a|
    ensures LoopChain(a, p, scopeParent) == LoopChain(b, p, scopeParent)
    decreases p
  {
    LoopParentFrame(a, b, p, scopeParent);
    var l := LoopParent(a, p, scopeParent);
    if l.Some? {
      LoopChainFrame(a, b, l.value, scopeParent);
    }
  }

  lemma {:induction false} FunctionChainFrame(a: seq<Node>, b: seq<Node>, p: NodeId, scopeParent: Option<NodeId>)
    requires SameStructure(a, b) && ParentsPrecede(a) && ParentsPrecede(b) && p < |a|
    ensures FunctionChain(a, p, scopeParent) == FunctionChain(b, p, scopeParent)
    decreases p
  {
    FunctionParentFrame(a, b, p, scopeParent);
    var f := FunctionParent(a, p, scopeParent);
    if f.Some? {
      FunctionChainFrame(a, b, f.value, scopeParent);
    }
  }
}
