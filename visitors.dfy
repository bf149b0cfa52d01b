/**
 The three visitors of the plugin. Each is a method of `Tree`, the arena that
 the traversal mutates in place, and is specified by a function giving the
 tree it leaves behind; the properties the plugin promises are lemmas about
 those functions.
 */
module Visitors {
  import opened Wrappers
  import opened Ast
  import opened Classifier
  import opened Violation
  import opened Subsequences

  // ---------------------------------------------------------------------------
  // SequenceExpression

  /** The verdict of `isPureAndUndefined` on each expression of `es`. */
  function Accepted(host: Host, nodes: seq<Node>, scopes: Scopes, es: seq<NodeId>, opts: Options): (accepted: seq<bool>)
    requires forall j :: 0 <= j < |es| ==> es[j] < |nodes|
    ensures |accepted| == |es|
    ensures forall j :: 0 <= j < |es| ==> accepted[j] == IsPureAndUndefined(host, nodes, scopes, es[j], opts)
  {
    if es == [] then [] else [IsPureAndUndefined(host, nodes, scopes, es[0], opts)] + Accepted(host, nodes, scopes, es[1..], opts)
  }

  /** `path.parentPath.isExpressionStatement()`. */
  function InStatement(nodes: seq<Node>, path: NodeId): bool
    requires ParentsPrecede(nodes) && path < |nodes|
  {
    nodes[path].parent.Some? && nodes[nodes[path].parent.value].kind.ExpressionStatement?
  }

  /**
   Which expressions the sequence visitor removes: every accepted one but the
   last, and the last one only when the value of the sequence is discarded.
   */
  function Removals(accepted: seq<bool>, inStatement: bool): (drop: seq<bool>)
    ensures |drop| == |accepted|
    ensures forall i :: 0 <= i < |accepted| - 1 ==> (drop[i] <==> accepted[i])
    ensures |accepted| > 0 ==> (drop[|accepted| - 1] <==> accepted[|accepted| - 1] && inStatement)
  {
    if accepted == [] then []
    else if |accepted| == 1 then [accepted[0] && inStatement]
    else [accepted[0]] + Removals(accepted[1..], inStatement)
  }

  /** The expressions left in the sequence at `path` after the visit. */
  function KeptExpressions(host: Host, nodes: seq<Node>, scopes: Scopes, path: NodeId, tdz: Option<bool>): (kept: seq<NodeId>)
    requires WellFormed(nodes, scopes) && path < |nodes| && nodes[path].kind.SequenceExpression?
    ensures |kept| <= |nodes[path].kind.expressions|
    ensures forall k :: 0 <= k < |kept| ==> kept[k] in nodes[path].kind.expressions
  {
    var es := nodes[path].kind.expressions;
    var drop := Removals(Accepted(host, nodes, scopes, es, Options(tdz, Some(nodes[path].scope))), InStatement(nodes, path));
    FilterKeepsExactly(es, drop);
    Filter(es, drop)
  }

  /** The tree with the expression list of the sequence at `path` replaced by `es`. */
  function WithExpressions(nodes: seq<Node>, path: NodeId, es: seq<NodeId>): (after: seq<Node>)
    requires path < |nodes| && nodes[path].kind.SequenceExpression?
    ensures |after| == |nodes| && after[path].kind == SequenceExpression(es)
    ensures after[path].parent == nodes[path].parent && after[path].scope == nodes[path].scope
    ensures forall i :: 0 <= i < |nodes| && i != path ==> after[i] == nodes[i]
  {
    nodes[path := nodes[path].(kind := SequenceExpression(es))]
  }

  /** Replacing the list twice is replacing it once; putting the same list back changes nothing. */
  lemma WithExpressionsAgain(nodes: seq<Node>, path: NodeId, es: seq<NodeId>, es': seq<NodeId>)
    requires path < |nodes| && nodes[path].kind.SequenceExpression?
    ensures WithExpressions(WithExpressions(nodes, path, es), path, es') == WithExpressions(nodes, path, es')
    ensures WithExpressions(nodes, path, nodes[path].kind.expressions) == nodes
  {
    assert nodes[path].(kind := SequenceExpression(nodes[path].kind.expressions)) == nodes[path];
  }

  /** Whether an expression is the identifier `undefined` is untouched by replacing a sequence's list. */
  lemma WithExpressionsClassifier(host: Host, nodes: seq<Node>, scopes: Scopes, path: NodeId, es: seq<NodeId>, rval: NodeId, opts: Options)
    requires path < |nodes| && nodes[path].kind.SequenceExpression? && rval < |nodes|
    ensures IsPureAndUndefined(host, WithExpressions(nodes, path, es), scopes, rval, opts) == IsPureAndUndefined(host, nodes, scopes, rval, opts)
  {
    ClassifierFrame(host, WithExpressions(nodes, path, es), nodes, scopes, rval, opts);
  }

  /** The tree after the sequence visitor ran on `path`. */
  function AfterSequenceVisit(host: Host, nodes: seq<Node>, scopes: Scopes, path: NodeId, tdz: Option<bool>): (after: seq<Node>)
    requires WellFormed(nodes, scopes) && path < |nodes| && nodes[path].kind.SequenceExpression?
    ensures WellFormed(after, scopes) && SameStructure(nodes, after)
    ensures after[path].kind.SequenceExpression?
    ensures forall i :: 0 <= i < |nodes| && i != path ==> after[i] == nodes[i]
  {
    var after := WithExpressions(nodes, path, KeptExpressions(host, nodes, scopes, path, tdz));
    assert Skeleton(after[path]) == Skeleton(nodes[path]);
    after
  }

  /**
   The visit keeps an order-preserving subsequence of the expressions; it
   removes every accepted expression but the last, and it removes the last one
   exactly when it is accepted and the sequence is an expression statement.
   */
  lemma SequenceVisitKeepsExactly(host: Host, nodes: seq<Node>, scopes: Scopes, path: NodeId, tdz: Option<bool>)
    requires WellFormed(nodes, scopes) && path < |nodes| && nodes[path].kind.SequenceExpression?
    ensures
      var es := nodes[path].kind.expressions;
      var opts := Options(tdz, Some(nodes[path].scope));
      var ks := KeptIndices(Removals(Accepted(host, nodes, scopes, es, opts), InStatement(nodes, path)));
      var kept := KeptExpressions(host, nodes, scopes, path, tdz);
      && |kept| == |ks|
      && (forall k :: 0 <= k < |kept| ==> ks[k] < |es| && kept[k] == es[ks[k]])
      && (forall k, l :: 0 <= k < l < |ks| ==> ks[k] < ks[l])
      && (forall i :: 0 <= i < |es| - 1 ==> (i in ks <==> !IsPureAndUndefined(host, nodes, scopes, es[i], opts)))
      && (|es| > 0 ==> (|es| - 1 in ks <==> !(IsPureAndUndefined(host, nodes, scopes, es[|es| - 1], opts) && InStatement(nodes, path))))
  {
    var es := nodes[path].kind.expressions;
    var opts := Options(tdz, Some(nodes[path].scope));
    FilterKeepsExactly(es, Removals(Accepted(host, nodes, scopes, es, opts), InStatement(nodes, path)));
  }

  /** After one pass, no surviving expression is one a second pass would remove. */
  lemma RemovalsSettle(accepted: seq<bool>, inStatement: bool)
    ensures forall k :: 0 <= k < |Filter(accepted, Removals(accepted, inStatement))| ==>
              !Removals(Filter(accepted, Removals(accepted, inStatement)), inStatement)[k]
  {
    var drop := Removals(accepted, inStatement);
    FilterKeepsExactly(accepted, drop);
    var ks := KeptIndices(drop);
    var survivors := Filter(accepted, drop);
    forall k | 0 <= k < |survivors| ensures !Removals(survivors, inStatement)[k] {
      var i := ks[k];
      assert survivors[k] == accepted[i];
      assert i in ks;
      assert !drop[i];
      if k < |survivors| - 1 {
        assert i < ks[|survivors| - 1] < |accepted|;
      }
    }
  }

  /** Filtering the survivors again, by the verdicts the survivors carry, keeps them all. */
  lemma RemovalsIdempotent<T>(xs: seq<T>, accepted: seq<bool>, inStatement: bool)
    requires |accepted| == |xs|
    ensures
      var drop := Removals(accepted, inStatement);
      Filter(Filter(xs, drop), Removals(Filter(accepted, drop), inStatement)) == Filter(xs, drop)
  {
    var drop := Removals(accepted, inStatement);
    RemovalsSettle(accepted, inStatement);
    var survivors := Filter(accepted, drop);
    assert |Filter(xs, drop)| == |survivors|;
    assert forall k :: 0 <= k < |survivors| ==> !Removals(survivors, inStatement)[k];
    FilterNothing(Filter(xs, drop), Removals(Filter(accepted, drop), inStatement));
  }

  /** Classifying the survivors of a filter is filtering the classification. */
  lemma AcceptedAfterFilter(host: Host, nodes: seq<Node>, scopes: Scopes, es: seq<NodeId>, drop: seq<bool>, opts: Options)
    requires (forall j :: 0 <= j < |es| ==> es[j] < |nodes|) && |drop| == |es|
    ensures forall k :: 0 <= k < |Filter(es, drop)| ==> Filter(es, drop)[k] in es
    ensures Accepted(host, nodes, scopes, Filter(es, drop), opts) == Filter(Accepted(host, nodes, scopes, es, opts), drop)
  {
    FilterKeepsExactly(es, drop);
    FilterKeepsExactly(Accepted(host, nodes, scopes, es, opts), drop);
  }

  /** Rewriting the expressions of the sequence at `path` changes no verdict on its expressions. */
  lemma AcceptedFrame(host: Host, nodes: seq<Node>, after: seq<Node>, scopes: Scopes, path: NodeId, es: seq<NodeId>, opts: Options)
    requires path < |nodes| == |after| && nodes[path].kind.SequenceExpression? && after[path].kind.SequenceExpression?
    requires forall i :: 0 <= i < |nodes| && i != path ==> after[i] == nodes[i]
    requires forall j :: 0 <= j < |es| ==> es[j] < |nodes|
    ensures Accepted(host, after, scopes, es, opts) == Accepted(host, nodes, scopes, es, opts)
  {
    forall k | 0 <= k < |es|
      ensures IsPureAndUndefined(host, after, scopes, es[k], opts) == IsPureAndUndefined(host, nodes, scopes, es[k], opts)
    {
      ClassifierFrame(host, after, nodes, scopes, es[k], opts);
    }
  }

  /** On the tree the visit leaves, the visit keeps every expression that is left. */
  lemma KeptExpressionsSettle(host: Host, nodes: seq<Node>, scopes: Scopes, path: NodeId, tdz: Option<bool>)
    requires WellFormed(nodes, scopes) && path < |nodes| && nodes[path].kind.SequenceExpression?
    ensures
      var kept := KeptExpressions(host, nodes, scopes, path, tdz);
      var after := WithExpressions(nodes, path, kept);
      WellFormed(after, scopes) && KeptExpressions(host, after, scopes, path, tdz) == kept
  {
    var es := nodes[path].kind.expressions;
    var opts := Options(tdz, Some(nodes[path].scope));
    var accepted := Accepted(host, nodes, scopes, es, opts);
    var inStatement := InStatement(nodes, path);
    var drop := Removals(accepted, inStatement);
    var kept := KeptExpressions(host, nodes, scopes, path, tdz);
    var after := AfterSequenceVisit(host, nodes, scopes, path, tdz);
    assert InStatement(after, path) == inStatement;
    AcceptedFrame(host, nodes, after, scopes, path, kept, opts);
    AcceptedAfterFilter(host, nodes, scopes, es, drop, opts);
    RemovalsIdempotent(es, accepted, inStatement);
  }

  /** The sequence visitor is idempotent: visiting the sequence again removes nothing more. */
  lemma SequenceVisitIdempotent(host: Host, nodes: seq<Node>, scopes: Scopes, path: NodeId, tdz: Option<bool>)
    requires WellFormed(nodes, scopes) && path < |nodes| && nodes[path].kind.SequenceExpression?
    ensures
      var after := AfterSequenceVisit(host, nodes, scopes, path, tdz);
      AfterSequenceVisit(host, after, scopes, path, tdz) == after
  {
    var kept := KeptExpressions(host, nodes, scopes, path, tdz);
    KeptExpressionsSettle(host, nodes, scopes, path, tdz);
    WithExpressionsAgain(nodes, path, kept, kept);
  }

  /** Whether the sequence visit removes the expression at position `i`. */
  predicate RemovesAt(host: Host, nodes: seq<Node>, scopes: Scopes, path: NodeId, tdz: Option<bool>, i: nat)
    requires WellFormed(nodes, scopes) && path < |nodes| && nodes[path].kind.SequenceExpression?
    requires i < |nodes[path].kind.expressions|
  {
    var es := nodes[path].kind.expressions;
    IsPureAndUndefined(host, nodes, scopes, es[i], Options(tdz, Some(nodes[path].scope))) && (i < |es| - 1 || InStatement(nodes, path))
  }

  /** `done` holds the removal decisions for the first `|done|` expressions of the sequence at `path`. */
  ghost predicate Decided(host: Host, nodes: seq<Node>, scopes: Scopes, path: NodeId, tdz: Option<bool>, done: seq<bool>)
    requires WellFormed(nodes, scopes) && path < |nodes| && nodes[path].kind.SequenceExpression?
    decreases |done|
  {
    && |done| <= |nodes[path].kind.expressions|
    && (done != [] ==>
          && Decided(host, nodes, scopes, path, tdz, done[..|done| - 1])
          && done[|done| - 1] == RemovesAt(host, nodes, scopes, path, tdz, |done| - 1))
  }

  lemma DecidedStep(host: Host, nodes: seq<Node>, scopes: Scopes, path: NodeId, tdz: Option<bool>, done: seq<bool>, d: bool)
    requires WellFormed(nodes, scopes) && path < |nodes| && nodes[path].kind.SequenceExpression?
    requires Decided(host, nodes, scopes, path, tdz, done) && |done| < |nodes[path].kind.expressions|
    requires d == RemovesAt(host, nodes, scopes, path, tdz, |done|)
    ensures Decided(host, nodes, scopes, path, tdz, done + [d])
  {
    assert (done + [d])[..|done|] == done;
  }

  lemma {:induction false} DecidedAt(host: Host, nodes: seq<Node>, scopes: Scopes, path: NodeId, tdz: Option<bool>, done: seq<bool>)
    requires WellFormed(nodes, scopes) && path < |nodes| && nodes[path].kind.SequenceExpression?
    requires Decided(host, nodes, scopes, path, tdz, done)
    ensures forall k :: 0 <= k < |done| ==> done[k] == RemovesAt(host, nodes, scopes, path, tdz, k)
    decreases |done|
  {
    if done != [] {
      var n := |done| - 1;
      DecidedAt(host, nodes, scopes, path, tdz, done[..n]);
      assert forall k :: 0 <= k < n ==> done[..n][k] == done[k];
    }
  }

  /** Decisions taken for every expression are the removals the visit specification makes. */
  lemma DecidedKept(host: Host, nodes: seq<Node>, scopes: Scopes, path: NodeId, tdz: Option<bool>, done: seq<bool>)
    requires WellFormed(nodes, scopes) && path < |nodes| && nodes[path].kind.SequenceExpression?
    requires Decided(host, nodes, scopes, path, tdz, done) && |done| == |nodes[path].kind.expressions|
    ensures KeptExpressions(host, nodes, scopes, path, tdz) == Filter(nodes[path].kind.expressions, done)
  {
    var es := nodes[path].kind.expressions;
    var opts := Options(tdz, Some(nodes[path].scope));
    var removals := Removals(Accepted(host, nodes, scopes, es, opts), InStatement(nodes, path));
    DecidedAt(host, nodes, scopes, path, tdz, done);
    forall k | 0 <= k < |done| ensures done[k] == removals[k] {
      assert done[k] == RemovesAt(host, nodes, scopes, path, tdz, k);
    }
    assert done == removals;
  }

  /**
   One step of the in-place visit: with the first `|done|` expressions decided,
   deciding the next one either removes it at the first undone position of the
   list as it stands, or leaves the list alone.
   */
  lemma SequenceStep(host: Host, original: seq<Node>, scopes: Scopes, path: NodeId, tdz: Option<bool>, done: seq<bool>, remove: bool)
    requires WellFormed(original, scopes) && path < |original| && original[path].kind.SequenceExpression?
    requires Decided(host, original, scopes, path, tdz, done) && |done| < |original[path].kind.expressions|
    requires remove == RemovesAt(host, original, scopes, path, tdz, |done|)
    ensures Decided(host, original, scopes, path, tdz, done + [remove])
    ensures
      var es := original[path].kind.expressions;
      var current := Pending(es, done);
      var pos := |Filter(es[..|done|], done)|;
      && pos <= |done| && pos < |current|
      && |Filter(es[..|done| + 1], done + [remove])| == pos + (if remove then 0 else 1)
      && WithExpressions(original, path, Pending(es, done + [remove]))
         == if remove then WithExpressions(WithExpressions(original, path, current), path, current[..pos] + current[pos + 1..])
            else WithExpressions(original, path, current)
  {
    var es := original[path].kind.expressions;
    DecidedStep(host, original, scopes, path, tdz, done, remove);
    PendingStep(es, done, remove);
    WithExpressionsAgain(original, path, Pending(es, done), Pending(es, done + [remove]));
  }

  // ---------------------------------------------------------------------------
  // ReturnStatement

  /** The argument of the return statement at `path` after the visit. */
  function ReturnArgumentAfterVisit(host: Host, nodes: seq<Node>, scopes: Scopes, path: NodeId, tdz: Option<bool>): (argument: Option<NodeId>)
    requires WellFormed(nodes, scopes) && path < |nodes| && nodes[path].kind.ReturnStatement?
    // the argument is removed exactly when there was one and it is accepted
    ensures argument.None? <==> (nodes[path].kind.argument.None?
                                 || IsPureAndUndefined(host, nodes, scopes, nodes[path].kind.argument.value, Options(tdz, Some(nodes[path].scope))))
    // otherwise it is left as it was
    ensures argument.Some? ==> argument == nodes[path].kind.argument
  {
    match nodes[path].kind.argument
    case None => None
    case Some(a) =>
      if IsPureAndUndefined(host, nodes, scopes, a, Options(tdz, Some(nodes[path].scope))) then None else Some(a)
  }

  /** The tree after the return visitor ran on `path`. */
  function AfterReturnVisit(host: Host, nodes: seq<Node>, scopes: Scopes, path: NodeId, tdz: Option<bool>): (after: seq<Node>)
    requires WellFormed(nodes, scopes) && path < |nodes| && nodes[path].kind.ReturnStatement?
    ensures WellFormed(after, scopes) && SameStructure(nodes, after)
    ensures after[path].kind.ReturnStatement?
    ensures forall i :: 0 <= i < |nodes| && i != path ==> after[i] == nodes[i]
  {
    var after := nodes[path := nodes[path].(kind := ReturnStatement(ReturnArgumentAfterVisit(host, nodes, scopes, path, tdz)))];
    assert Skeleton(after[path]) == Skeleton(nodes[path]);
    after
  }

  /** The return visitor is idempotent. */
  lemma ReturnVisitIdempotent(host: Host, nodes: seq<Node>, scopes: Scopes, path: NodeId, tdz: Option<bool>)
    requires WellFormed(nodes, scopes) && path < |nodes| && nodes[path].kind.ReturnStatement?
    ensures
      var after := AfterReturnVisit(host, nodes, scopes, path, tdz);
      AfterReturnVisit(host, after, scopes, path, tdz) == after
  {
    var after := AfterReturnVisit(host, nodes, scopes, path, tdz);
    var argument := after[path].kind.argument;
    if argument.Some? {
      ClassifierFrame(host, after, nodes, scopes, argument.value, Options(tdz, Some(nodes[path].scope)));
    }
  }

  // ---------------------------------------------------------------------------
  // VariableDeclaration

  /** `path` is a declaration whose declarations are declarator nodes of the tree, with initialisers in the tree. */
  ghost predicate DeclarationInArena(nodes: seq<Node>, path: NodeId)
  {
    && path < |nodes| && nodes[path].kind.VariableDeclaration?
    && forall j :: 0 <= j < |nodes[path].kind.declarations| ==>
         var d := nodes[path].kind.declarations[j];
         && d < |nodes| && nodes[d].kind.VariableDeclarator?
         && (nodes[d].kind.init.Some? ==> nodes[d].kind.init.value < |nodes|)
  }

  /**
   Whether the visit of the declaration at `path` drops the initialiser of its
   declarator `d`: never for `const`; for `let` when the initialiser is
   accepted with the `tdz` option and the default scope; for `var` with a
   start offset when the initialiser is accepted with no options at all and no
   reassignment of the binding can be seen before the declaration.
   */
  ghost predicate ClearsInit(host: Host, nodes: seq<Node>, scopes: Scopes, path: NodeId, d: NodeId, tdz: Option<bool>)
    requires WellFormed(nodes, scopes) && DeclarationInArena(nodes, path) && d < |nodes|
  {
    var declaration := nodes[path];
    && nodes[d].kind.VariableDeclarator?
    && nodes[d].kind.init.Some?
    && match declaration.kind.declKind
       case Const => false
       case Let => IsPureAndUndefined(host, nodes, scopes, nodes[d].kind.init.value, Options(tdz, None))
       case Var =>
         && declaration.start.Some?
         && IsPureAndUndefined(host, nodes, scopes, nodes[d].kind.init.value, Options(None, None))
         && !Violates(nodes, scopes, d, declaration.scope, declaration.start.value)
  }

  /** The declarator with its initialiser dropped. */
  function Cleared(n: Node): (c: Node)
    ensures Skeleton(c) == Skeleton(n)
    ensures n.kind.VariableDeclarator? ==> c.kind == VariableDeclarator(n.kind.id, None)
  {
    match n.kind
    case VariableDeclarator(id, _) => n.(kind := VariableDeclarator(id, None))
    case _ => n
  }

  /** Dropping one initialiser keeps the tree well formed and its structure intact. */
  lemma ClearKeepsStructure(nodes: seq<Node>, scopes: Scopes, d: NodeId)
    requires WellFormed(nodes, scopes) && d < |nodes|
    ensures WellFormed(nodes[d := Cleared(nodes[d])], scopes) && SameStructure(nodes, nodes[d := Cleared(nodes[d])])
  {
    assert ChildrenBelow(nodes[d].kind, |nodes|);
  }

  /** The declarators of the declaration at `path` whose initialiser the visit drops. */
  ghost function DroppedInits(host: Host, nodes: seq<Node>, scopes: Scopes, path: NodeId, tdz: Option<bool>): (dropped: set<NodeId>)
    requires WellFormed(nodes, scopes) && DeclarationInArena(nodes, path)
    ensures forall d :: d in dropped <==> d in nodes[path].kind.declarations && ClearsInit(host, nodes, scopes, path, d, tdz)
  {
    set d | d in nodes[path].kind.declarations && ClearsInit(host, nodes, scopes, path, d, tdz)
  }

  /** The tree once the first `j` of `declarations` have lost their initialiser when they are in `dropped`. */
  function ClearListed(nodes: seq<Node>, scopes: Scopes, declarations: seq<NodeId>, dropped: set<NodeId>, j: nat): (after: seq<Node>)
    requires WellFormed(nodes, scopes) && j <= |declarations| && forall k :: 0 <= k < |declarations| ==> declarations[k] < |nodes|
    ensures WellFormed(after, scopes) && SameStructure(nodes, after)
    decreases j
  {
    if j == 0 then nodes
    else
      var before := ClearListed(nodes, scopes, declarations, dropped, j - 1);
      var d := declarations[j - 1];
      if d in dropped then
        ClearKeepsStructure(before, scopes, d);
        before[d := Cleared(before[d])]
      else before
  }

  /** Node `i` of such a tree: cleared exactly when it is among the first `j` and in `dropped`. */
  lemma {:induction false} ClearListedAt(nodes: seq<Node>, scopes: Scopes, declarations: seq<NodeId>, dropped: set<NodeId>, j: nat, i: NodeId)
    requires WellFormed(nodes, scopes) && j <= |declarations| && forall k :: 0 <= k < |declarations| ==> declarations[k] < |nodes|
    requires i < |nodes|
    ensures ClearListed(nodes, scopes, declarations, dropped, j)[i]
            == if i in declarations[..j] && i in dropped then Cleared(nodes[i]) else nodes[i]
    decreases j
  {
    if j > 0 {
      ClearListedAt(nodes, scopes, declarations, dropped, j - 1, i);
      assert declarations[..j] == declarations[..j - 1] + [declarations[j - 1]];
    }
  }

  /** The tree once the first `j` declarators of the declaration at `path` have been visited. */
  ghost function PartialDeclarationVisit(host: Host, nodes: seq<Node>, scopes: Scopes, path: NodeId, tdz: Option<bool>, j: nat): (after: seq<Node>)
    requires WellFormed(nodes, scopes) && DeclarationInArena(nodes, path) && j <= |nodes[path].kind.declarations|
    ensures WellFormed(after, scopes) && SameStructure(nodes, after)
  {
    ClearListed(nodes, scopes, nodes[path].kind.declarations, DroppedInits(host, nodes, scopes, path, tdz), j)
  }

  /** Node `i` once the first `j` declarators have been visited: cleared exactly when listed so far and its rule says so. */
  lemma PartialAt(host: Host, nodes: seq<Node>, scopes: Scopes, path: NodeId, tdz: Option<bool>, j: nat, i: NodeId)
    requires WellFormed(nodes, scopes) && DeclarationInArena(nodes, path) && j <= |nodes[path].kind.declarations| && i < |nodes|
    ensures PartialDeclarationVisit(host, nodes, scopes, path, tdz, j)[i]
            == if i in nodes[path].kind.declarations[..j] && ClearsInit(host, nodes, scopes, path, i, tdz) then Cleared(nodes[i]) else nodes[i]
  {
    var declarations := nodes[path].kind.declarations;
    ClearListedAt(nodes, scopes, declarations, DroppedInits(host, nodes, scopes, path, tdz), j, i);
    assert i in declarations[..j] ==> i in declarations;
  }

  /** The tree after the declaration visitor ran on `path`. */
  ghost function AfterDeclarationVisit(host: Host, nodes: seq<Node>, scopes: Scopes, path: NodeId, tdz: Option<bool>): (after: seq<Node>)
    requires WellFormed(nodes, scopes) && DeclarationInArena(nodes, path)
    ensures WellFormed(after, scopes) && SameStructure(nodes, after)
    ensures after[path] == nodes[path] && DeclarationInArena(after, path)
  {
    SameStructureNode(nodes, PartialDeclarationVisit(host, nodes, scopes, path, tdz, |nodes[path].kind.declarations|), path);
    PartialDeclarationVisit(host, nodes, scopes, path, tdz, |nodes[path].kind.declarations|)
  }

  /** Node by node, the visit drops the initialiser of exactly the listed declarators whose rule says so. */
  lemma AfterDeclarationVisitAt(host: Host, nodes: seq<Node>, scopes: Scopes, path: NodeId, tdz: Option<bool>)
    requires WellFormed(nodes, scopes) && DeclarationInArena(nodes, path)
    ensures forall i :: 0 <= i < |nodes| ==>
              AfterDeclarationVisit(host, nodes, scopes, path, tdz)[i]
              == if i in nodes[path].kind.declarations && ClearsInit(host, nodes, scopes, path, i, tdz) then Cleared(nodes[i]) else nodes[i]
  {
    var declarations := nodes[path].kind.declarations;
    assert declarations[..|declarations|] == declarations;
    forall i | 0 <= i < |nodes|
      ensures AfterDeclarationVisit(host, nodes, scopes, path, tdz)[i]
              == if i in declarations && ClearsInit(host, nodes, scopes, path, i, tdz) then Cleared(nodes[i]) else nodes[i]
    {
      PartialAt(host, nodes, scopes, path, tdz, |declarations|, i);
    }
  }

  /**
   What the declaration visitor leaves alone: all of a `const` declaration and
   of a `var` declaration without a start offset, every node it does not list,
   and every part of a listed declarator but its initialiser.
   */
  lemma DeclarationVisitFrame(host: Host, nodes: seq<Node>, scopes: Scopes, path: NodeId, tdz: Option<bool>)
    requires WellFormed(nodes, scopes) && DeclarationInArena(nodes, path)
    ensures nodes[path].kind.declKind == Const ==> AfterDeclarationVisit(host, nodes, scopes, path, tdz) == nodes
    ensures nodes[path].kind.declKind == Var && nodes[path].start.None? ==> AfterDeclarationVisit(host, nodes, scopes, path, tdz) == nodes
    ensures forall i :: 0 <= i < |nodes| && i !in nodes[path].kind.declarations ==>
              AfterDeclarationVisit(host, nodes, scopes, path, tdz)[i] == nodes[i]
    ensures forall j :: 0 <= j < |nodes[path].kind.declarations| ==>
              || AfterDeclarationVisit(host, nodes, scopes, path, tdz)[nodes[path].kind.declarations[j]] == nodes[nodes[path].kind.declarations[j]]
              || AfterDeclarationVisit(host, nodes, scopes, path, tdz)[nodes[path].kind.declarations[j]] == Cleared(nodes[nodes[path].kind.declarations[j]])
  {
    AfterDeclarationVisitAt(host, nodes, scopes, path, tdz);
    var after := AfterDeclarationVisit(host, nodes, scopes, path, tdz);
    if nodes[path].kind.declKind == Const || (nodes[path].kind.declKind == Var && nodes[path].start.None?) {
      assert forall i :: 0 <= i < |nodes| ==> after[i] == nodes[i];
    }
  }

  /**
   When the declaration visitor drops an initialiser: a `let` declarator's
   exactly when it is accepted with the `tdz` option and the default scope; a
   `var` declarator's, in a declaration with a start offset, exactly when it is
   accepted with no options and no reassignment of the binding can be seen
   before the declaration.
   */
  lemma DeclarationVisitClears(host: Host, nodes: seq<Node>, scopes: Scopes, path: NodeId, tdz: Option<bool>, d: NodeId)
    requires WellFormed(nodes, scopes) && DeclarationInArena(nodes, path) && d in nodes[path].kind.declarations
    ensures nodes[path].kind.declKind == Let ==>
              (AfterDeclarationVisit(host, nodes, scopes, path, tdz)[d].kind.init.None?
               <==> nodes[d].kind.init.None? || IsPureAndUndefined(host, nodes, scopes, nodes[d].kind.init.value, Options(tdz, None)))
    ensures nodes[path].kind.declKind == Var && nodes[path].start.Some? ==>
              (AfterDeclarationVisit(host, nodes, scopes, path, tdz)[d].kind.init.None?
               <==> nodes[d].kind.init.None?
                    || (IsPureAndUndefined(host, nodes, scopes, nodes[d].kind.init.value, Options(None, None))
                        && !Violates(nodes, scopes, d, nodes[path].scope, nodes[path].start.value)))
  {
    AfterDeclarationVisitAt(host, nodes, scopes, path, tdz);
  }

  /** A `let` initialiser that is the identifier `undefined` is dropped even where `undefined` is a local binding. */
  lemma LetIgnoresShadowedUndefined(host: Host, nodes: seq<Node>, scopes: Scopes, path: NodeId, tdz: Option<bool>, d: NodeId)
    requires WellFormed(nodes, scopes) && DeclarationInArena(nodes, path) && nodes[path].kind.declKind == Let
    requires d in nodes[path].kind.declarations && nodes[d].kind.init.Some?
    requires IsUndefinedIdentifier(nodes[nodes[d].kind.init.value])
    ensures AfterDeclarationVisit(host, nodes, scopes, path, tdz)[d].kind.init.None?
  {
    DefaultScopeNeverShadows(host, nodes, scopes, nodes[d].kind.init.value, tdz);
    DeclarationVisitClears(host, nodes, scopes, path, tdz, d);
  }

  /** Whether a declarator's initialiser is dropped does not depend on the slots the visitors mutate elsewhere. */
  lemma ClearsInitFrame(host: Host, a: seq<Node>, b: seq<Node>, scopes: Scopes, path: NodeId, d: NodeId, tdz: Option<bool>)
    requires SameStructure(a, b) && WellFormed(a, scopes) && WellFormed(b, scopes)
    requires DeclarationInArena(a, path) && d < |a| && a[d] == b[d]
    ensures DeclarationInArena(b, path)
    ensures ClearsInit(host, a, scopes, path, d, tdz) == ClearsInit(host, b, scopes, path, d, tdz)
  {
    SameStructureNode(a, b, path);
    if a[d].kind.VariableDeclarator? && a[d].kind.init.Some? {
      var init := a[d].kind.init.value;
      SameStructureNode(a, b, init);
      ClassifierFrame(host, a, b, scopes, init, Options(tdz, None));
      ClassifierFrame(host, a, b, scopes, init, Options(None, None));
      if a[path].start.Some? {
        ViolatesFrame(a, b, scopes, d, a[path].scope, a[path].start.value);
      }
    }
  }

  /** The declaration visitor is idempotent. */
  lemma DeclarationVisitIdempotent(host: Host, nodes: seq<Node>, scopes: Scopes, path: NodeId, tdz: Option<bool>)
    requires WellFormed(nodes, scopes) && DeclarationInArena(nodes, path)
    ensures
      var after := AfterDeclarationVisit(host, nodes, scopes, path, tdz);
      AfterDeclarationVisit(host, after, scopes, path, tdz) == after
  {
    var after := AfterDeclarationVisit(host, nodes, scopes, path, tdz);
    var declarations := nodes[path].kind.declarations;
    SameStructureNode(nodes, after, path);
    assert declarations[..|declarations|] == declarations;
    forall i | 0 <= i < |nodes| && i in declarations
      ensures !ClearsInit(host, after, scopes, path, i, tdz)
    {
      PartialAt(host, nodes, scopes, path, tdz, |declarations|, i);
      if !ClearsInit(host, nodes, scopes, path, i, tdz) {
        ClearsInitFrame(host, nodes, after, scopes, path, i, tdz);
      }
    }
    var again := AfterDeclarationVisit(host, after, scopes, path, tdz);
    forall i | 0 <= i < |nodes| ensures again[i] == after[i] {
      PartialAt(host, after, scopes, path, tdz, |declarations|, i);
    }
  }

  /** Visiting declarators leaves the declaration itself, and where its declarators are, as they were. */
  lemma PartialKeepsDeclaration(host: Host, nodes: seq<Node>, scopes: Scopes, path: NodeId, tdz: Option<bool>, j: nat)
    requires WellFormed(nodes, scopes) && DeclarationInArena(nodes, path) && j <= |nodes[path].kind.declarations|
    ensures
      var after := PartialDeclarationVisit(host, nodes, scopes, path, tdz, j);
      after[path] == nodes[path] && DeclarationInArena(after, path)
  {
    var after := PartialDeclarationVisit(host, nodes, scopes, path, tdz, j);
    SameStructureNode(nodes, after, path);
    forall k | 0 <= k < |nodes[path].kind.declarations|
      ensures var d := nodes[path].kind.declarations[k];
              after[d].kind.VariableDeclarator? && (after[d].kind.init.Some? ==> after[d].kind.init.value < |after|)
    {
      PartialAt(host, nodes, scopes, path, tdz, j, nodes[path].kind.declarations[k]);
    }
  }

  /** Visiting the next declarator applies, on the tree as it stands, the decision taken on the original tree. */
  lemma DeclarationStep(host: Host, original: seq<Node>, nodes: seq<Node>, scopes: Scopes, path: NodeId, tdz: Option<bool>, j: nat)
    requires WellFormed(original, scopes) && DeclarationInArena(original, path) && j < |original[path].kind.declarations|
    requires nodes == PartialDeclarationVisit(host, original, scopes, path, tdz, j)
    requires nodes[path] == original[path] && DeclarationInArena(nodes, path)
    ensures
      var d := original[path].kind.declarations[j];
      PartialDeclarationVisit(host, original, scopes, path, tdz, j + 1)
        == if ClearsInit(host, nodes, scopes, path, d, tdz) then nodes[d := Cleared(nodes[d])] else nodes
  {
    var declarations := original[path].kind.declarations;
    var d := declarations[j];
    PartialAt(host, original, scopes, path, tdz, j, d);
    if nodes[d] == original[d] {
      ClearsInitFrame(host, original, nodes, scopes, path, d, tdz);
    } else {
      assert nodes[d := Cleared(nodes[d])] == nodes;
    }
  }

  /** The decision the declaration visitor takes for its declarator `d`, on the tree as it stands. */
  method DecideDeclarator(host: Host, nodes: seq<Node>, scopes: Scopes, path: NodeId, d: NodeId, tdz: Option<bool>)
    returns (clear: bool)
    requires WellFormed(nodes, scopes) && DeclarationInArena(nodes, path) && d < |nodes| && nodes[d].kind.VariableDeclarator?
    ensures clear == ClearsInit(host, nodes, scopes, path, d, tdz)
  {
    var init := nodes[d].kind.init;
    if init.None? {
      // an absent initialiser is never pure, and there is nothing to drop
      return false;
    }
    match nodes[path].kind.declKind
    case Const =>
      clear := false;
    case Let =>
      clear := IsPureAndUndefined(host, nodes, scopes, init.value, Options(tdz, None));
    case Var =>
      var start := nodes[path].start;
      if start.None? {
        return false;
      }
      clear := IsPureAndUndefined(host, nodes, scopes, init.value, Options(None, None));
      if clear {
        var violation := HasViolation(nodes, scopes, d, nodes[path].scope, start.value);
        clear := !violation;
      }
  }

  // ---------------------------------------------------------------------------
  // The tree the traversal mutates

  class Tree {
    var nodes: seq<Node>
    const scopes: Scopes

    ghost predicate Valid()
      reads this
    {
      WellFormed(nodes, scopes)
    }

    constructor (nodes: seq<Node>, scopes: Scopes)
      requires WellFormed(nodes, scopes)
      ensures Valid() && this.nodes == nodes && this.scopes == scopes
    {
      this.nodes := nodes;
      this.scopes := scopes;
    }

    /** `expr.remove()` for the expression now at position `pos` of the sequence at `path`. */
    method RemoveExpression(path: NodeId, pos: nat)
      requires path < |nodes| && nodes[path].kind.SequenceExpression? && pos < |nodes[path].kind.expressions|
      modifies this
      ensures nodes == WithExpressions(old(nodes), path, old(nodes)[path].kind.expressions[..pos] + old(nodes)[path].kind.expressions[pos + 1..])
    {
      var es := nodes[path].kind.expressions;
      nodes := WithExpressions(nodes, path, es[..pos] + es[pos + 1..]);
    }

    /**
     The test of the `SequenceExpression` visitor's loop on the expression at
     position `i` of `expressions`, the list as it was before the visit, on the
     tree as it stands after the earlier removals.
     */
    method RemovesExpression(host: Host, path: NodeId, tdz: Option<bool>, expressions: seq<NodeId>, i: nat,
                             ghost original: seq<Node>, ghost current: seq<NodeId>)
      returns (remove: bool)
      requires WellFormed(original, scopes) && path < |original| && original[path].kind.SequenceExpression?
      requires expressions == original[path].kind.expressions && i < |expressions|
      requires nodes == WithExpressions(original, path, current)
      ensures remove == RemovesAt(host, original, scopes, path, tdz, i)
    {
      assert ChildrenBelow(original[path].kind, |original|);
      var expr := expressions[i];
      var opts := Options(tdz, Some(nodes[path].scope));
      remove := false;
      if IsPureAndUndefined(host, nodes, scopes, expr, opts) {
        if i == |expressions| - 1 {
          // the last value is the value of the sequence: drop it only when the value is discarded
          var parent := nodes[path].parent;
          remove := parent.Some? && nodes[parent.value].kind.ExpressionStatement?;
        } else {
          remove := true;
        }
      }
      WithExpressionsClassifier(host, original, scopes, path, current, expr, opts);
    }

    /**
     The body of the `SequenceExpression` visitor's loop for the expression at
     position `i` of `expressions`, `removed` of the earlier ones having been
     removed already: remove it when the visit's rule says so.
     */
    method VisitSequenceElement(host: Host, path: NodeId, tdz: Option<bool>, expressions: seq<NodeId>, i: nat, removed: nat,
                                ghost original: seq<Node>, ghost done: seq<bool>)
      returns (remove: bool)
      requires WellFormed(original, scopes) && path < |original| && original[path].kind.SequenceExpression?
      requires expressions == original[path].kind.expressions
      requires |done| == i < |expressions| && Decided(host, original, scopes, path, tdz, done)
      requires nodes == WithExpressions(original, path, Pending(expressions, done))
      requires removed == i - |Filter(expressions[..i], done)|
      modifies this
      ensures Decided(host, original, scopes, path, tdz, done + [remove])
      ensures nodes == WithExpressions(original, path, Pending(expressions, done + [remove]))
      ensures removed + (if remove then 1 else 0) == i + 1 - |Filter(expressions[..i + 1], done + [remove])|
    {
      remove := RemovesExpression(host, path, tdz, expressions, i, original, Pending(expressions, done));
      SequenceStep(host, original, scopes, path, tdz, done, remove);
      if remove {
        RemoveExpression(path, i - removed);
      }
    }

    /** The `SequenceExpression` visitor. */
    method VisitSequenceExpression(host: Host, path: NodeId, tdz: Option<bool>)
      requires Valid() && path < |nodes| && nodes[path].kind.SequenceExpression?
      modifies this
      ensures Valid()
      ensures nodes == AfterSequenceVisit(host, old(nodes), scopes, path, tdz)
    {
      var expressions := nodes[path].kind.expressions;
      ghost var original := nodes;
      ghost var done: seq<bool> := [];
      var removed := 0;
      PendingStart(expressions);
      WithExpressionsAgain(original, path, expressions, expressions);
      for i := 0 to |expressions|
        invariant |done| == i
        invariant Decided(host, original, scopes, path, tdz, done)
        invariant nodes == WithExpressions(original, path, Pending(expressions, done))
        invariant removed == i - |Filter(expressions[..i], done)|
      {
        var remove := VisitSequenceElement(host, path, tdz, expressions, i, removed, original, done);
        if remove {
          removed := removed + 1;
        }
        done := done + [remove];
      }
      assert nodes == AfterSequenceVisit(host, original, scopes, path, tdz) by {
        DecidedKept(host, original, scopes, path, tdz, done);
        PendingDone(expressions, done);
      }
    }

    /** The `ReturnStatement` visitor. */
    method VisitReturnStatement(host: Host, path: NodeId, tdz: Option<bool>)
      requires Valid() && path < |nodes| && nodes[path].kind.ReturnStatement?
      modifies this
      ensures Valid()
      ensures nodes == AfterReturnVisit(host, old(nodes), scopes, path, tdz)
    {
      var argument := nodes[path].kind.argument;
      if argument.Some? {
        if IsPureAndUndefined(host, nodes, scopes, argument.value, Options(tdz, Some(nodes[path].scope))) {
          nodes := nodes[path := nodes[path].(kind := ReturnStatement(None))];
        }
      }
    }

    /** Drops the initialiser of the declarator `d` in place. */
    method ClearInit(d: NodeId)
      requires d < |nodes|
      modifies this
      ensures nodes == old(nodes)[d := Cleared(old(nodes)[d])]
    {
      nodes := nodes[d := Cleared(nodes[d])];
    }

    /** The body of the `VariableDeclaration` visitor's loop, for its declarator `d`. */
    method VisitDeclarator(host: Host, path: NodeId, d: NodeId, tdz: Option<bool>)
      requires WellFormed(nodes, scopes) && DeclarationInArena(nodes, path) && d in nodes[path].kind.declarations
      modifies this
      ensures nodes == if ClearsInit(host, old(nodes), scopes, path, d, tdz) then old(nodes)[d := Cleared(old(nodes)[d])] else old(nodes)
    {
      var clear := DecideDeclarator(host, nodes, scopes, path, d, tdz);
      if clear {
        ClearInit(d);
      }
    }

    /** The `VariableDeclaration` visitor. */
    method VisitVariableDeclaration(host: Host, path: NodeId, tdz: Option<bool>)
      requires Valid() && DeclarationInArena(nodes, path)
      modifies this
      ensures Valid()
      ensures nodes == AfterDeclarationVisit(host, old(nodes), scopes, path, tdz)
    {
      ghost var original := nodes;
      var declaration := nodes[path];
      if declaration.kind.declKind == Const {
        assert nodes == AfterDeclarationVisit(host, original, scopes, path, tdz) by {
          DeclarationVisitFrame(host, original, scopes, path, tdz);
        }
        return;
      }
      if declaration.kind.declKind == Var && declaration.start.None? {
        // common for nodes other plugins generate
        assert nodes == AfterDeclarationVisit(host, original, scopes, path, tdz) by {
          DeclarationVisitFrame(host, original, scopes, path, tdz);
        }
        return;
      }
      var declarations := declaration.kind.declarations;
      for j := 0 to |declarations|
        invariant nodes == PartialDeclarationVisit(host, original, scopes, path, tdz, j)
      {
        PartialKeepsDeclaration(host, original, scopes, path, tdz, j);
        DeclarationStep(host, original, nodes, scopes, path, tdz, j);
        VisitDeclarator(host, path, declarations[j], tdz);
      }
    }
  }
}
