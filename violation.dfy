/**
 The reassignment-safety analyser `hasViolation`: could a reassignment of the
 `var` binding be seen before its declaration runs, so that dropping the
 explicit `undefined` initialiser would change what the binding holds?
 */
module Violation {
  import opened Wrappers
  import opened Ast
  import opened Walks
  import opened References

  /** An offset that is missing, or lies before `start`. */
  predicate StartsBefore(offset: Option<int>, start: int)
  {
    offset.None? || offset.value < start
  }

  /** An end offset that is missing, or lies after `violationStart`. */
  predicate EndsAfter(end: Option<int>, violationStart: int)
  {
    end.None? || end.value > violationStart
  }

  /** Some path of `refs` has no start offset or starts before `start`. */
  ghost predicate SomeStartsBefore(nodes: seq<Node>, refs: set<NodeId>, start: int)
  {
    exists r :: r in refs && r < |nodes| && StartsBefore(nodes[r].start, start)
  }

  /** Some loop of `loops` has no end offset or ends after `violationStart`. */
  ghost predicate SomeEndsAfter(nodes: seq<Node>, loops: seq<NodeId>, violationStart: int)
  {
    exists k :: 0 <= k < |loops| && loops[k] < |nodes| && EndsAfter(nodes[loops[k]].end, violationStart)
  }

  /** The callback given to `constantViolations.some`, for a violation that has a node. */
  ghost predicate UnsafeViolation(nodes: seq<Node>, scopes: Scopes, declarator: NodeId, scopeParent: Option<NodeId>, start: int, v: NodeId)
    requires WellFormed(nodes, scopes) && declarator < |nodes| && v < |nodes|
  {
    || StartsBefore(nodes[v].start, start)
    || SomeStartsBefore(nodes, FunctionReferences(nodes, scopes, v, scopeParent), start)
    || SomeEndsAfter(nodes, LoopChain(nodes, declarator, scopeParent), nodes[v].start.value)
  }

  /** The verdict of `hasViolation(declarator, scope, start)`. */
  ghost predicate Violates(nodes: seq<Node>, scopes: Scopes, declarator: NodeId, scope: ScopeId, start: int)
    requires WellFormed(nodes, scopes) && declarator < |nodes| && nodes[declarator].kind.VariableDeclarator?
  {
    match GetBinding(scopes, scope, nodes[declarator].kind.id)
    case None => true
    case Some(b) =>
      var violations := scopes.bindings[b].constantViolations;
      var scopeParent := ScopeParent(nodes, declarator);
      exists i :: 0 <= i < |violations| && violations[i].Some? && violations[i].value < |nodes|
                  && UnsafeViolation(nodes, scopes, declarator, scopeParent, start, violations[i].value)
  }

  /** The `some` callback: is this violation possibly seen before the declaration? */
  method IsUnsafeViolation(nodes: seq<Node>, scopes: Scopes, declarator: NodeId, scopeParent: Option<NodeId>, start: int, v: NodeId)
    returns (unsafe: bool)
    requires WellFormed(nodes, scopes) && declarator < |nodes| && v < |nodes|
    ensures unsafe == UnsafeViolation(nodes, scopes, declarator, scopeParent, start, v)
  {
    var violationStart := nodes[v].start;
    if violationStart.None? || violationStart.value < start {
      return true;
    }
    var references := GetFunctionReferences(nodes, scopes, v, scopeParent, {});
    unsafe := AnyStartsBefore(nodes, references, start);
    if unsafe {
      return;
    }
    unsafe := AnyLoopEndsAfter(nodes, declarator, scopeParent, violationStart.value);
  }

  /** The scan of the collected references: is there one without a start offset, or one that starts before `start`? */
  method AnyStartsBefore(nodes: seq<Node>, references: set<NodeId>, start: int) returns (found: bool)
    ensures found == SomeStartsBefore(nodes, references, start)
  {
    var unchecked := references;
    while unchecked != {}
      invariant unchecked <= references
      invariant forall r :: r in references - unchecked && r < |nodes| ==> !StartsBefore(nodes[r].start, start)
      decreases unchecked
    {
      var r :| r in unchecked;
      if r < |nodes| && StartsBefore(nodes[r].start, start) {
        return true;
      }
      unchecked := unchecked - {r};
    }
    return false;
  }

  /** One step of the loop walk: the loop at hand ends after the violation, or one further out does. */
  lemma SomeEndsAfterStep(nodes: seq<Node>, l: NodeId, scopeParent: Option<NodeId>, violationStart: int)
    requires ParentsPrecede(nodes) && l < |nodes|
    ensures SomeEndsAfter(nodes, LoopChainFrom(nodes, Some(l), scopeParent), violationStart)
            <==> EndsAfter(nodes[l].end, violationStart)
                 || SomeEndsAfter(nodes, LoopChainFrom(nodes, LoopParent(nodes, l, scopeParent), scopeParent), violationStart)
  {
    var rest := LoopChainFrom(nodes, LoopParent(nodes, l, scopeParent), scopeParent);
    var chain := LoopChainFrom(nodes, Some(l), scopeParent);
    assert chain == [l] + rest;
    if SomeEndsAfter(nodes, chain, violationStart) && !EndsAfter(nodes[l].end, violationStart) {
      var k :| 0 <= k < |chain| && chain[k] < |nodes| && EndsAfter(nodes[chain[k]].end, violationStart);
      assert rest[k - 1] == chain[k];
    }
    if SomeEndsAfter(nodes, rest, violationStart) {
      var k :| 0 <= k < |rest| && rest[k] < |nodes| && EndsAfter(nodes[rest[k]].end, violationStart);
      assert chain[k + 1] == rest[k];
    }
  }

  /** The loop walk from the declarator: does some loop below the scope parent end after the violation starts? */
  method AnyLoopEndsAfter(nodes: seq<Node>, declarator: NodeId, scopeParent: Option<NodeId>, violationStart: int) returns (found: bool)
    requires ParentsPrecede(nodes) && declarator < |nodes|
    ensures found == SomeEndsAfter(nodes, LoopChain(nodes, declarator, scopeParent), violationStart)
  {
    var loop: Option<NodeId> := LoopParent(nodes, declarator, scopeParent);
    assert LoopChain(nodes, declarator, scopeParent) == LoopChainFrom(nodes, loop, scopeParent);
    while loop.Some?
      invariant loop.Some? ==> loop.value < |nodes|
      invariant SomeEndsAfter(nodes, LoopChain(nodes, declarator, scopeParent), violationStart)
                == SomeEndsAfter(nodes, LoopChainFrom(nodes, loop, scopeParent), violationStart)
      decreases if loop.Some? then loop.value + 1 else 0
    {
      var l := loop.value;
      SomeEndsAfterStep(nodes, l, scopeParent, violationStart);
      if EndsAfter(nodes[l].end, violationStart) {
        return true;
      }
      loop := LoopParent(nodes, l, scopeParent);
    }
    return false;
  }

  method HasViolation(nodes: seq<Node>, scopes: Scopes, declarator: NodeId, scope: ScopeId, start: int)
    returns (violation: bool)
    requires WellFormed(nodes, scopes) && declarator < |nodes| && nodes[declarator].kind.VariableDeclarator?
    ensures violation == Violates(nodes, scopes, declarator, scope, start)
  {
    var binding := GetBinding(scopes, scope, nodes[declarator].kind.id);
    if binding.None? {
      return true;
    }
    assert BindingInArena(scopes.bindings[binding.value], |nodes|);
    var scopeParent := ScopeParent(nodes, declarator);
    var violations := scopes.bindings[binding.value].constantViolations;
    for i := 0 to |violations|
      invariant forall j :: 0 <= j < i && violations[j].Some? ==>
                  !UnsafeViolation(nodes, scopes, declarator, scopeParent, start, violations[j].value)
    {
      if violations[i].None? {
        continue;
      }
      var unsafe := IsUnsafeViolation(nodes, scopes, declarator, scopeParent, start, violations[i].value);
      if unsafe {
        return true;
      }
    }
    return false;
  }

  /** The verdict depends only on the parts of the tree the visitors leave alone. */
  lemma ViolatesFrame(a: seq<Node>, b: seq<Node>, scopes: Scopes, declarator: NodeId, scope: ScopeId, start: int)
    requires SameStructure(a, b) && WellFormed(a, scopes) && WellFormed(b, scopes)
    requires declarator < |a| && a[declarator].kind.VariableDeclarator?
    ensures b[declarator].kind.VariableDeclarator?
    ensures Violates(a, scopes, declarator, scope, start) == Violates(b, scopes, declarator, scope, start)
  {
    SameStructureNode(a, b, declarator);
    ScopeParentFrame(a, b, declarator);
    var scopeParent := ScopeParent(a, declarator);
    LoopChainFrame(a, b, declarator, scopeParent);
    forall v: nat | v < |a|
      ensures UnsafeViolation(a, scopes, declarator, scopeParent, start, v) == UnsafeViolation(b, scopes, declarator, scopeParent, start, v)
    {
      SameStructureNode(a, b, v);
      FunctionReferencesFrame(a, b, scopes, v, scopeParent);
      forall r: nat | r < |a| ensures a[r].start == b[r].start && a[r].end == b[r].end {
        SameStructureNode(a, b, r);
      }
    }
  }

  /** A binding the declaration's scope cannot resolve is always treated as violated. */
  lemma UnresolvedBindingViolates(nodes: seq<Node>, scopes: Scopes, declarator: NodeId, scope: ScopeId, start: int)
    requires WellFormed(nodes, scopes) && declarator < |nodes| && nodes[declarator].kind.VariableDeclarator?
    requires GetBinding(scopes, scope, nodes[declarator].kind.id).None?
    ensures Violates(nodes, scopes, declarator, scope, start)
  {
  }

  /** A binding none of whose reassignments has a node is never violated: node-less sites are skipped. */
  lemma NodelessViolationsAreSkipped(nodes: seq<Node>, scopes: Scopes, declarator: NodeId, scope: ScopeId, start: int, b: BindingId)
    requires WellFormed(nodes, scopes) && declarator < |nodes| && nodes[declarator].kind.VariableDeclarator?
    requires GetBinding(scopes, scope, nodes[declarator].kind.id) == Some(b)
    requires forall j :: 0 <= j < |scopes.bindings[b].constantViolations| ==> scopes.bindings[b].constantViolations[j].None?
    ensures !Violates(nodes, scopes, declarator, scope, start)
  {
  }
}
