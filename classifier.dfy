/**
 The purity/value classifier `isPureAndUndefined`: may an expression be replaced
 by the implicit `undefined`? The purity test and the constant evaluator belong
 to the host and are given as uninterpreted functions.
 */
module Classifier {
  import opened Wrappers
  import opened Ast

  /** What the host's evaluator reports: whether it is confident, and whether the value is `undefined`. */
  datatype Evaluation = Evaluation(confident: bool, valueIsUndefined: bool)

  /** The host collaborators: `path.isPure()` and `evaluate(path, { tdz })`. */
  datatype Host = Host(isPure: NodeId -> bool, evaluate: (NodeId, Option<bool>) -> Evaluation)

  /** The options of the classifier: the `tdz` flag and the scope; without a scope no name counts as bound. */
  datatype Options = Options(tdz: Option<bool>, scope: Option<ScopeId>)

  /** `scope.hasBinding(name, true)`: a binding other than a global one is visible from the scope. */
  predicate HasBinding(scopes: Scopes, scope: Option<ScopeId>, name: string)
  {
    scope.Some? && (scope.value, name) in scopes.table
  }

  predicate IsUndefinedIdentifier(n: Node)
  {
    n.kind.Identifier? && n.kind.name == "undefined"
  }

  /** The evaluator folded the expression, with confidence, to `undefined`. */
  predicate FoldsToUndefined(host: Host, rval: NodeId, tdz: Option<bool>)
  {
    var evaluation := host.evaluate(rval, tdz);
    evaluation.confident && evaluation.valueIsUndefined
  }

  function IsPureAndUndefined(host: Host, nodes: seq<Node>, scopes: Scopes, rval: NodeId, opts: Options): (accepted: bool)
    requires rval < |nodes|
    // an accepted expression is the unshadowed identifier or a pure expression folded to `undefined`
    ensures accepted ==> (IsUndefinedIdentifier(nodes[rval]) && !HasBinding(scopes, opts.scope, "undefined"))
                         || (!IsUndefinedIdentifier(nodes[rval]) && host.isPure(rval) && FoldsToUndefined(host, rval, opts.tdz))
    // a shadowed `undefined` is never accepted
    ensures IsUndefinedIdentifier(nodes[rval]) && HasBinding(scopes, opts.scope, "undefined") ==> !accepted
    // an unshadowed `undefined` always is, whatever the host says of it
    ensures IsUndefinedIdentifier(nodes[rval]) && !HasBinding(scopes, opts.scope, "undefined") ==> accepted
    // any other impure expression is rejected, whatever it evaluates to
    ensures !IsUndefinedIdentifier(nodes[rval]) && !host.isPure(rval) ==> !accepted
    // and a pure one is accepted exactly when it folds to `undefined` with confidence
    ensures !IsUndefinedIdentifier(nodes[rval]) && host.isPure(rval) ==> (accepted <==> FoldsToUndefined(host, rval, opts.tdz))
  {
    if nodes[rval].kind.Identifier? && nodes[rval].kind.name == "undefined" then
      !HasBinding(scopes, opts.scope, nodes[rval].kind.name)
    else if !host.isPure(rval) then
      false
    else
      var evaluation := host.evaluate(rval, opts.tdz);
      evaluation.confident == true && evaluation.valueIsUndefined
  }

  /** Without a scope nothing shadows `undefined`: the identifier is accepted whatever the tables hold. */
  lemma DefaultScopeNeverShadows(host: Host, nodes: seq<Node>, scopes: Scopes, rval: NodeId, tdz: Option<bool>)
    requires rval < |nodes| && IsUndefinedIdentifier(nodes[rval])
    ensures IsPureAndUndefined(host, nodes, scopes, rval, Options(tdz, None))
  {
  }

  /** The verdict depends on the tree only through whether the node is the identifier `undefined`. */
  lemma ClassifierFrame(host: Host, a: seq<Node>, b: seq<Node>, scopes: Scopes, rval: NodeId, opts: Options)
    requires rval < |a| && rval < |b| && IsUndefinedIdentifier(a[rval]) == IsUndefinedIdentifier(b[rval])
    ensures IsPureAndUndefined(host, a, scopes, rval, opts) == IsPureAndUndefined(host, b, scopes, rval, opts)
  {
  }
}
