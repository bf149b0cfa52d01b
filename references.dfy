/**
 `getFunctionReferences`: from a path, walk outward through the enclosing
 functions (up to the scope parent) and collect every reference to a named
 function's binding, then do the same from each reference collected, once per
 reference thanks to the visited set.
 */
module References {
  import opened Wrappers
  import opened Ast
  import opened Walks

  /** The indices of an arena of `size` nodes. */
  ghost function Indices(size: nat): (s: set<NodeId>)
    ensures forall i: nat :: i in s <==> i < size
  {
    if size == 0 then {} else Indices(size - 1) + {size - 1}
  }

  /** The read sites of the binding that the function's name resolves to from its scope; none without a name or a binding. */
  function FunctionBindingReferences(nodes: seq<Node>, scopes: Scopes, func: NodeId): (paths: seq<NodeId>)
    requires WellFormed(nodes, scopes) && func < |nodes|
    ensures forall k :: 0 <= k < |paths| ==> paths[k] < |nodes|
    ensures !nodes[func].kind.Function? ==> paths == []
    ensures nodes[func].kind.Function? && GetBinding(scopes, nodes[func].scope, nodes[func].kind.id).None? ==> paths == []
    ensures nodes[func].kind.Function? && GetBinding(scopes, nodes[func].scope, nodes[func].kind.id).Some? ==>
              paths == scopes.bindings[GetBinding(scopes, nodes[func].scope, nodes[func].kind.id).value].referencePaths
  {
    match nodes[func].kind
    case Function(id) =>
      (match GetBinding(scopes, nodes[func].scope, id)
       case None => []
       case Some(b) =>
         assert BindingInArena(scopes.bindings[b], |nodes|);
         scopes.bindings[b].referencePaths)
    case _ => []
  }

  /** The reference paths of the bindings of the functions of `chain`. */
  ghost function ChainReferences(nodes: seq<Node>, scopes: Scopes, chain: seq<NodeId>): (refs: set<NodeId>)
    requires WellFormed(nodes, scopes) && forall k :: 0 <= k < |chain| ==> chain[k] < |nodes|
    ensures refs <= Indices(|nodes|)
  {
    if chain == [] then {}
    else (set r | r in FunctionBindingReferences(nodes, scopes, chain[0])) + ChainReferences(nodes, scopes, chain[1..])
  }

  /** What one call of `getFunctionReferences` on `p` adds directly, before recursing. */
  ghost function EnclosingReferences(nodes: seq<Node>, scopes: Scopes, p: NodeId, scopeParent: Option<NodeId>): set<NodeId>
    requires WellFormed(nodes, scopes) && p < |nodes|
  {
    ChainReferences(nodes, scopes, FunctionChain(nodes, p, scopeParent))
  }

  /** A set of paths that already holds the enclosing references of each of its members. */
  ghost predicate Closed(nodes: seq<Node>, scopes: Scopes, scopeParent: Option<NodeId>, s: set<NodeId>)
    requires WellFormed(nodes, scopes)
  {
    s <= Indices(|nodes|) && forall x :: x in s ==> EnclosingReferences(nodes, scopes, x, scopeParent) <= s
  }

  /** The references collected from `p`: the least closed set holding `p`'s enclosing references. */
  ghost function FunctionReferences(nodes: seq<Node>, scopes: Scopes, p: NodeId, scopeParent: Option<NodeId>): set<NodeId>
    requires WellFormed(nodes, scopes) && p < |nodes|
  {
    set r | r in Indices(|nodes|) && forall s :: Closed(nodes, scopes, scopeParent, s) && EnclosingReferences(nodes, scopes, p, scopeParent) <= s ==> r in s
  }

  /** A closed set holding `p`'s enclosing references that is below every other such set is the collected set. */
  lemma LeastClosedIsFunctionReferences(nodes: seq<Node>, scopes: Scopes, p: NodeId, scopeParent: Option<NodeId>, result: set<NodeId>)
    requires WellFormed(nodes, scopes) && p < |nodes|
    requires Closed(nodes, scopes, scopeParent, result) && EnclosingReferences(nodes, scopes, p, scopeParent) <= result
    requires forall s :: Closed(nodes, scopes, scopeParent, s) && EnclosingReferences(nodes, scopes, p, scopeParent) <= s ==> result <= s
    ensures result == FunctionReferences(nodes, scopes, p, scopeParent)
  {
    var refs := FunctionReferences(nodes, scopes, p, scopeParent);
    forall r | r in result ensures r in refs {
      assert r in Indices(|nodes|);
    }
  }

  /** Every path added on top of `base` already has its enclosing references in `result`. */
  ghost predicate ClosedAbove(nodes: seq<Node>, scopes: Scopes, scopeParent: Option<NodeId>, base: set<NodeId>, result: set<NodeId>)
    requires WellFormed(nodes, scopes) && result <= Indices(|nodes|)
  {
    forall r :: r in result - base ==> EnclosingReferences(nodes, scopes, r, scopeParent) <= result
  }

  /** `result` lies inside every closed set that holds `base` and `seeds`. */
  ghost predicate Least(nodes: seq<Node>, scopes: Scopes, scopeParent: Option<NodeId>, base: set<NodeId>, seeds: set<NodeId>, result: set<NodeId>)
    requires WellFormed(nodes, scopes)
  {
    forall s :: Closed(nodes, scopes, scopeParent, s) && base <= s && seeds <= s ==> result <= s
  }

  /** Collecting more seeds, all among the original ones, on top of a least set keeps it least. */
  lemma LeastThroughChain(nodes: seq<Node>, scopes: Scopes, scopeParent: Option<NodeId>,
                          base: set<NodeId>, seeds: set<NodeId>, before: set<NodeId>, more: set<NodeId>, result: set<NodeId>)
    requires WellFormed(nodes, scopes) && more <= seeds
    requires Least(nodes, scopes, scopeParent, base, seeds, before) && Least(nodes, scopes, scopeParent, before, more, result)
    ensures Least(nodes, scopes, scopeParent, base, seeds, result)
  {
    forall s | Closed(nodes, scopes, scopeParent, s) && base <= s && seeds <= s
      ensures result <= s
    {
      assert before <= s;
    }
  }

  /** Adding a seed and collecting from it on top of a least set keeps it least. */
  lemma LeastThroughPath(nodes: seq<Node>, scopes: Scopes, scopeParent: Option<NodeId>,
                         base: set<NodeId>, seeds: set<NodeId>, before: set<NodeId>, path: NodeId, result: set<NodeId>)
    requires WellFormed(nodes, scopes) && path in seeds && path < |nodes|
    requires Least(nodes, scopes, scopeParent, base, seeds, before)
    requires Least(nodes, scopes, scopeParent, before + {path}, EnclosingReferences(nodes, scopes, path, scopeParent), result)
    ensures Least(nodes, scopes, scopeParent, base, seeds, result)
  {
    forall s | Closed(nodes, scopes, scopeParent, s) && base <= s && seeds <= s
      ensures result <= s
    {
      assert before + {path} <= s;
      assert EnclosingReferences(nodes, scopes, path, scopeParent) <= s;
    }
  }

  /** After one function of the walk, the rest of the walk still covers the seeds not yet collected. */
  lemma ChainSeedsStep(nodes: seq<Node>, scopes: Scopes, f: NodeId, scopeParent: Option<NodeId>,
                       seeds: set<NodeId>, before: set<NodeId>, result: set<NodeId>)
    requires WellFormed(nodes, scopes) && f < |nodes| && before <= result
    requires ChainReferences(nodes, scopes, FunctionChainFrom(nodes, Some(f), scopeParent)) <= seeds
    requires seeds <= before + ChainReferences(nodes, scopes, FunctionChainFrom(nodes, Some(f), scopeParent))
    requires forall k :: 0 <= k < |FunctionBindingReferences(nodes, scopes, f)| ==> FunctionBindingReferences(nodes, scopes, f)[k] in result
    ensures ChainReferences(nodes, scopes, FunctionChainFrom(nodes, FunctionParent(nodes, f, scopeParent), scopeParent)) <= seeds
    ensures (set r | r in FunctionBindingReferences(nodes, scopes, f)) <= seeds
    ensures seeds <= result + ChainReferences(nodes, scopes, FunctionChainFrom(nodes, FunctionParent(nodes, f, scopeParent), scopeParent))
  {
    ChainReferencesStep(nodes, scopes, f, scopeParent);
  }

  /** One step of the function walk: the function at hand contributes its references, the rest of the walk the others. */
  lemma ChainReferencesStep(nodes: seq<Node>, scopes: Scopes, f: NodeId, scopeParent: Option<NodeId>)
    requires WellFormed(nodes, scopes) && f < |nodes|
    ensures ChainReferences(nodes, scopes, FunctionChainFrom(nodes, Some(f), scopeParent))
            == (set r | r in FunctionBindingReferences(nodes, scopes, f))
               + ChainReferences(nodes, scopes, FunctionChainFrom(nodes, FunctionParent(nodes, f, scopeParent), scopeParent))
  {
    var chain := FunctionChainFrom(nodes, Some(f), scopeParent);
    assert chain[1..] == FunctionChain(nodes, f, scopeParent) == FunctionChainFrom(nodes, FunctionParent(nodes, f, scopeParent), scopeParent);
  }

  method GetFunctionReferences(nodes: seq<Node>, scopes: Scopes, path: NodeId, scopeParent: Option<NodeId>, references: set<NodeId>)
    returns (result: set<NodeId>)
    requires WellFormed(nodes, scopes) && path < |nodes| && references <= Indices(|nodes|)
    ensures references <= result <= Indices(|nodes|)
    ensures EnclosingReferences(nodes, scopes, path, scopeParent) <= result
    ensures ClosedAbove(nodes, scopes, scopeParent, references, result)
    ensures Least(nodes, scopes, scopeParent, references, EnclosingReferences(nodes, scopes, path, scopeParent), result)
    ensures references == {} ==> result == FunctionReferences(nodes, scopes, path, scopeParent)
    decreases Indices(|nodes|) - references, 3
  {
    ghost var seeds := EnclosingReferences(nodes, scopes, path, scopeParent);
    result := references;
    var func: Option<NodeId> := FunctionParent(nodes, path, scopeParent);
    assert FunctionChain(nodes, path, scopeParent) == FunctionChainFrom(nodes, func, scopeParent);
    while func.Some?
      invariant references <= result <= Indices(|nodes|)
      invariant func.Some? ==> func.value < |nodes|
      invariant ChainReferences(nodes, scopes, FunctionChainFrom(nodes, func, scopeParent)) <= seeds
      invariant seeds <= result + ChainReferences(nodes, scopes, FunctionChainFrom(nodes, func, scopeParent))
      invariant ClosedAbove(nodes, scopes, scopeParent, references, result)
      invariant Least(nodes, scopes, scopeParent, references, seeds, result)
      decreases if func.Some? then func.value + 1 else 0
    {
      var f := func.value;
      result := CollectFromFunction(nodes, scopes, f, scopeParent, references, seeds, result);
      func := FunctionParent(nodes, f, scopeParent);
    }
    if references == {} {
      LeastClosedIsFunctionReferences(nodes, scopes, path, scopeParent, result);
    }
  }

  /** One turn of the walk: collect from the references of the function `f`'s binding. */
  method CollectFromFunction(nodes: seq<Node>, scopes: Scopes, f: NodeId, scopeParent: Option<NodeId>,
                             ghost references: set<NodeId>, ghost seeds: set<NodeId>, current: set<NodeId>)
    returns (result: set<NodeId>)
    requires WellFormed(nodes, scopes) && f < |nodes| && references <= current <= Indices(|nodes|)
    requires ChainReferences(nodes, scopes, FunctionChainFrom(nodes, Some(f), scopeParent)) <= seeds
    requires seeds <= current + ChainReferences(nodes, scopes, FunctionChainFrom(nodes, Some(f), scopeParent))
    requires ClosedAbove(nodes, scopes, scopeParent, references, current)
    requires Least(nodes, scopes, scopeParent, references, seeds, current)
    ensures current <= result <= Indices(|nodes|)
    ensures forall k :: 0 <= k < |FunctionBindingReferences(nodes, scopes, f)| ==> FunctionBindingReferences(nodes, scopes, f)[k] in result
    ensures ChainReferences(nodes, scopes, FunctionChainFrom(nodes, FunctionParent(nodes, f, scopeParent), scopeParent)) <= seeds
    ensures seeds <= result + ChainReferences(nodes, scopes, FunctionChainFrom(nodes, FunctionParent(nodes, f, scopeParent), scopeParent))
    ensures ClosedAbove(nodes, scopes, scopeParent, references, result)
    ensures Least(nodes, scopes, scopeParent, references, seeds, result)
    decreases Indices(|nodes|) - current, 2
  {
    var paths := FunctionBindingReferences(nodes, scopes, f);
    result := AddReferencePaths(nodes, scopes, paths, scopeParent, current);
    ChainSeedsStep(nodes, scopes, f, scopeParent, seeds, current, result);
    LeastThroughChain(nodes, scopes, scopeParent, references, seeds, current, (set r | r in paths), result);
  }

  /** The `forEach` callback: add each path not yet visited, then collect from it. */
  method AddReferencePaths(nodes: seq<Node>, scopes: Scopes, paths: seq<NodeId>, scopeParent: Option<NodeId>, references: set<NodeId>)
    returns (result: set<NodeId>)
    requires WellFormed(nodes, scopes) && references <= Indices(|nodes|)
    requires forall k :: 0 <= k < |paths| ==> paths[k] < |nodes|
    ensures references <= result <= Indices(|nodes|)
    ensures forall k :: 0 <= k < |paths| ==> paths[k] in result
    ensures ClosedAbove(nodes, scopes, scopeParent, references, result)
    ensures Least(nodes, scopes, scopeParent, references, (set r | r in paths), result)
    decreases Indices(|nodes|) - references, 1
  {
    result := references;
    for i := 0 to |paths|
      invariant references <= result <= Indices(|nodes|)
      invariant forall k :: 0 <= k < i ==> paths[k] in result
      invariant ClosedAbove(nodes, scopes, scopeParent, references, result)
      invariant Least(nodes, scopes, scopeParent, references, (set r | r in paths), result)
    {
      result := CollectFromPath(nodes, scopes, paths[i], scopeParent, references, (set r | r in paths), result);
    }
  }

  /** One call of the callback: a path not yet visited is added, then collected from. */
  method CollectFromPath(nodes: seq<Node>, scopes: Scopes, path: NodeId, scopeParent: Option<NodeId>,
                         ghost references: set<NodeId>, ghost seeds: set<NodeId>, current: set<NodeId>)
    returns (result: set<NodeId>)
    requires WellFormed(nodes, scopes) && path < |nodes| && path in seeds && references <= current <= Indices(|nodes|)
    requires ClosedAbove(nodes, scopes, scopeParent, references, current)
    requires Least(nodes, scopes, scopeParent, references, seeds, current)
    ensures current <= result <= Indices(|nodes|) && path in result
    ensures path in current ==> result == current
    ensures ClosedAbove(nodes, scopes, scopeParent, references, result)
    ensures Least(nodes, scopes, scopeParent, references, seeds, result)
    decreases Indices(|nodes|) - current, 0
  {
    result := current;
    if path !in result {
      assert path in Indices(|nodes|) - current;
      result := GetFunctionReferences(nodes, scopes, path, scopeParent, current + {path});
      LeastThroughPath(nodes, scopes, scopeParent, references, seeds, current, path, result);
    }
  }

  lemma {:induction false} ChainReferencesFrame(a: seq<Node>, b: seq<Node>, scopes: Scopes, chain: seq<NodeId>)
    requires SameStructure(a, b) && WellFormed(a, scopes) && WellFormed(b, scopes)
    requires forall k :: 0 <= k < |chain| ==> chain[k] < |a|
    ensures ChainReferences(a, scopes, chain) == ChainReferences(b, scopes, chain)
    decreases |chain|
  {
    if chain != [] {
      SameStructureNode(a, b, chain[0]);
      ChainReferencesFrame(a, b, scopes, chain[1..]);
    }
  }

  lemma EnclosingReferencesFrame(a: seq<Node>, b: seq<Node>, scopes: Scopes, p: NodeId, scopeParent: Option<NodeId>)
    requires SameStructure(a, b) && WellFormed(a, scopes) && WellFormed(b, scopes) && p < |a|
    ensures EnclosingReferences(a, scopes, p, scopeParent) == EnclosingReferences(b, scopes, p, scopeParent)
  {
    FunctionChainFrame(a, b, p, scopeParent);
    ChainReferencesFrame(a, b, scopes, FunctionChain(a, p, scopeParent));
  }

  /** The collected references depend only on the parts of the tree the visitors leave alone. */
  lemma FunctionReferencesFrame(a: seq<Node>, b: seq<Node>, scopes: Scopes, p: NodeId, scopeParent: Option<NodeId>)
    requires SameStructure(a, b) && WellFormed(a, scopes) && WellFormed(b, scopes) && p < |a|
    ensures FunctionReferences(a, scopes, p, scopeParent) == FunctionReferences(b, scopes, p, scopeParent)
  {
    forall x: nat | x < |a|
      ensures EnclosingReferences(a, scopes, x, scopeParent) == EnclosingReferences(b, scopes, x, scopeParent)
    {
      EnclosingReferencesFrame(a, b, scopes, x, scopeParent);
    }
    assert forall s :: Closed(a, scopes, scopeParent, s) <==> Closed(b, scopes, scopeParent, s);
  }
}
