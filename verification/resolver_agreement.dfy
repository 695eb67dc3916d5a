/**
 * How the composer uses the extractor, as the composer's tests pin it down
 * (test/combine-nodes.test.js:154-339): for a node, and for each root
 * operation type, the field names its type definitions declare under that
 * root and the keys of its resolver group for that root must agree both ways.
 * A declared field with no resolver, and a resolver with no declared field,
 * each stop the composition with a message naming the node, the root and the
 * field. The composer's own source is not part of this model, so this module
 * states the check the tests demand rather than the composer's code.
 */
module ResolverAgreement {

  import opened Wrappers
  import opened GraphQLAst
  import opened ExtractResolvers

  /** The three root operation types. */
  datatype Root = Query | Mutation | Subscription

  function RootName(root: Root): string {
    match root
    case Query => "Query"
    case Mutation => "Mutation"
    case Subscription => "Subscription"
  }

  /**
   * A node as the check sees it: its name, its parsed type definitions and,
   * per root, the keys of its resolver group in insertion order. A root with
   * no group has no keys.
   */
  datatype Node = Node(name: string, typeDefs: Document, resolvers: map<Root, seq<string>>)

  function ResolverKeys(node: Node, root: Root): seq<string> {
    if root in node.resolvers then node.resolvers[root] else []
  }

  datatype NodeError =
    | Malformed(node: string, root: Root, cause: ExtractError)
    | DeclaredWithoutResolver(node: string, root: Root, field: string)
    | ResolverWithoutDeclaration(node: string, root: Root, field: string)

  /** The declared fields and the resolver keys of one root hold the same names. */
  predicate RootAgrees(node: Node, root: Root)
    requires AllNamed(node.typeDefs.definitions)
  {
    var declared := DeclaredFieldNames(node.typeDefs.definitions, RootName(root));
    var keys := ResolverKeys(node, root);
    (forall x :: x in declared ==> x in keys) && (forall x :: x in keys ==> x in declared)
  }

  /** The node's type definitions can be read and every root agrees. */
  predicate Agrees(node: Node) {
    AllNamed(node.typeDefs.definitions)
    && RootAgrees(node, Query) && RootAgrees(node, Mutation) && RootAgrees(node, Subscription)
  }

  /** The position of the first element of `xs` that `ys` lacks. */
  function FirstMissing(xs: seq<string>, ys: seq<string>): (r: Option<nat>)
    ensures r.None? <==> forall x :: x in xs ==> x in ys
    ensures r.Some? ==> r.value < |xs| && xs[r.value] !in ys
    ensures r.Some? ==> forall k :: 0 <= k < r.value ==> xs[k] in ys
    decreases |xs|
  {
    if xs == [] then None
    else if xs[0] !in ys then Some(0)
    else
      match FirstMissing(xs[1..], ys)
      case None =>
        assert forall x :: x in xs ==> x == xs[0] || x in xs[1..];
        None
      case Some(k) =>
        assert forall i :: 1 <= i <= k ==> xs[i] == xs[1..][i - 1];
        Some(k + 1)
  }

  /**
   * The check of one root: a declared field without a resolver is reported
   * before a resolver without a declared field, each the first in its own order.
   */
  function CheckRoot(node: Node, root: Root): (r: Outcome<NodeError>)
    ensures r.Pass? <==> AllNamed(node.typeDefs.definitions) && RootAgrees(node, root)
    ensures r.Fail? ==> r.error.node == node.name && r.error.root == root
    ensures r.Fail? && r.error.Malformed? ==>
      !AllNamed(node.typeDefs.definitions) && FirstUnnamed(node.typeDefs.definitions, r.error.cause.index)
    ensures r.Fail? && r.error.DeclaredWithoutResolver? ==>
      AllNamed(node.typeDefs.definitions)
      && r.error.field in DeclaredFieldNames(node.typeDefs.definitions, RootName(root))
      && r.error.field !in ResolverKeys(node, root)
    ensures r.Fail? && r.error.ResolverWithoutDeclaration? ==>
      AllNamed(node.typeDefs.definitions)
      && r.error.field in ResolverKeys(node, root)
      && r.error.field !in DeclaredFieldNames(node.typeDefs.definitions, RootName(root))
      && forall x :: x in DeclaredFieldNames(node.typeDefs.definitions, RootName(root)) ==> x in ResolverKeys(node, root)
  {
    ExtractIsDeclaredFieldNames(node.typeDefs, RootName(root));
    var keys := ResolverKeys(node, root);
    match Extract(node.typeDefs, RootName(root))
    case Failure(e) => Fail(Malformed(node.name, root, e))
    case Success(declared) =>
      match FirstMissing(declared, keys)
      case Some(i) => Fail(DeclaredWithoutResolver(node.name, root, declared[i]))
      case None =>
        match FirstMissing(keys, declared)
        case Some(i) => Fail(ResolverWithoutDeclaration(node.name, root, keys[i]))
        case None => Pass
  }

  /** The check of a node: Query, then Mutation, then Subscription; the first failure stops it. */
  function ValidateNode(node: Node): (r: Outcome<NodeError>)
    ensures r.Pass? <==> Agrees(node)
    ensures r.Fail? ==> r == CheckRoot(node, r.error.root)
    ensures r.Fail? && r.error.root != Query ==> CheckRoot(node, Query).Pass?
    ensures r.Fail? && r.error.root == Subscription ==> CheckRoot(node, Mutation).Pass?
  {
    match CheckRoot(node, Query)
    case Fail(e) => Fail(e)
    case Pass =>
      match CheckRoot(node, Mutation)
      case Fail(e) => Fail(e)
      case Pass => CheckRoot(node, Subscription)
  }

  /**
   * A node that passes the check: a name is a resolver key of a root exactly
   * when some object type definition or extension of that root declares a
   * field of that name.
   */
  lemma PassedKeysAreDeclaredFields(node: Node, root: Root, k: string)
    requires ValidateNode(node).Pass?
    ensures k in ResolverKeys(node, root) <==>
      exists i, j :: 0 <= i < |node.typeDefs.definitions| && 0 <= j < |node.typeDefs.definitions[i].fields|
        && Matches(node.typeDefs.definitions[i], RootName(root)) && node.typeDefs.definitions[i].fields[j].name == k
  {
    DeclaredFieldNamesMembership(node.typeDefs.definitions, RootName(root), k);
    assert RootAgrees(node, root);
  }

  /** `t` occurs in `s` starting at position `i`. */
  predicate OccursAt(s: string, t: string, i: int) {
    0 <= i <= |s| - |t| && s[i..i + |t|] == t
  }

  /** `t` occurs in `s` as a contiguous piece. */
  predicate Contains(s: string, t: string) {
    exists i :: 0 <= i <= |s| && OccursAt(s, t, i)
  }

  lemma OccursAtEnd(p: string, t: string)
    ensures OccursAt(p + t, t, |p|)
  {
    assert (p + t)[|p|..|p| + |t|] == t;
  }

  lemma OccursBeforeSuffix(s: string, t: string, i: int, q: string)
    requires OccursAt(s, t, i)
    ensures OccursAt(s + q, t, i)
  {
    assert (s + q)[i..i + |t|] == s[i..i + |t|];
  }

  /** Where the pieces of a message built as `p + n + h + r + mid + f + tail` occur in it. */
  lemma PiecesOccur(p: string, n: string, h: string, r: string, mid: string, f: string, tail: string)
    ensures var m := p + n + h + r + mid + f + tail;
      Contains(m, n) && Contains(m, r) && Contains(m, f) && Contains(m, mid + f + tail)
  {
    var m := p + n + h + r + mid + f + tail;
    assert m == p + n + (h + r + mid + f + tail);
    OccursAtEnd(p, n);
    OccursBeforeSuffix(p + n, n, |p|, h + r + mid + f + tail);
    assert m == p + n + h + r + (mid + f + tail);
    OccursAtEnd(p + n + h, r);
    OccursBeforeSuffix(p + n + h + r, r, |p + n + h|, mid + f + tail);
    assert m == p + n + h + r + mid + f + tail;
    OccursAtEnd(p + n + h + r + mid, f);
    OccursBeforeSuffix(p + n + h + r + mid + f, f, |p + n + h + r + mid|, tail);
    assert m == p + n + h + r + (mid + f + tail);
    OccursAtEnd(p + n + h + r, mid + f + tail);
  }

  /**
   * The message a mismatch is reported with, worded as the tests expect; it
   * names the node, the root and the field, and says in which direction the
   * two sides disagree.
   */
  function MismatchMessage(e: NodeError): (m: string)
    requires !e.Malformed?
    ensures Contains(m, e.node) && Contains(m, RootName(e.root)) && Contains(m, e.field)
    ensures e.DeclaredWithoutResolver? ==>
      Contains(m, " in the typeDefs called '" + e.field + "' thats not defined in resolvers")
    ensures e.ResolverWithoutDeclaration? ==>
      Contains(m, " resolver called '" + e.field + "' thats not defined in typeDefs")
  {
    var mid := if e.DeclaredWithoutResolver? then " in the typeDefs called '" else " resolver called '";
    var tail := if e.DeclaredWithoutResolver? then "' thats not defined in resolvers" else "' thats not defined in typeDefs";
    var m := "node with name: '" + e.node + "' has a " + RootName(e.root) + mid + e.field + tail;
    PiecesOccur("node with name: '", e.node, "' has a ", RootName(e.root), mid, e.field, tail);
    m
  }
}
