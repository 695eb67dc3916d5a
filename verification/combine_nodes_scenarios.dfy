/**
 * The scenarios of test/combine-nodes.test.js that exercise the agreement
 * check, replayed on the model: a `User` node whose root type declares one
 * field set and whose resolver groups hold another.
 */
module CombineNodesScenarios {

  import opened Wrappers
  import opened GraphQLAst
  import opened ExtractResolvers
  import opened ResolverAgreement

  function ObjectType(name: string, fields: seq<string>): Definition {
    Definition(ObjectTypeDefinition, Some(name), seq(|fields|, j requires 0 <= j < |fields| => FieldDefinition(fields[j])))
  }

  /** `type User { name: String age: Int }` followed by one root type. */
  function UserNode(root: Root, declared: seq<string>, keys: seq<string>): Node {
    Node("User",
      Document([ObjectType("User", ["name", "age"]), ObjectType(RootName(root), declared)]),
      map[Query := [], Mutation := [], Subscription := []][root := keys])
  }

  /** The node declares exactly `declared` under its root and nothing under the others. */
  lemma UserNodeDeclares(root: Root, declared: seq<string>, keys: seq<string>, other: Root)
    ensures AllNamed(UserNode(root, declared, keys).typeDefs.definitions)
    ensures DeclaredFieldNames(UserNode(root, declared, keys).typeDefs.definitions, RootName(root)) == declared
    ensures other != root ==> DeclaredFieldNames(UserNode(root, declared, keys).typeDefs.definitions, RootName(other)) == []
  {
    var defs := UserNode(root, declared, keys).typeDefs.definitions;
    DeclaredFieldNamesAt(defs, RootName(root), 1);
    assert defs[..1] == [ObjectType("User", ["name", "age"])];
    assert defs[2..] == [];
    assert FieldNamesOf(defs[1]) == declared;
    if other != root {
      DeclaredFieldNamesEmpty(defs, RootName(other));
    }
  }

  /** The extractor reads `declared` under the node's root, whose resolver keys are `keys`. */
  lemma UserNodeRoot(root: Root, declared: seq<string>, keys: seq<string>)
    ensures Extract(UserNode(root, declared, keys).typeDefs, RootName(root)) == Success(declared)
    ensures ResolverKeys(UserNode(root, declared, keys), root) == keys
  {
    UserNodeDeclares(root, declared, keys, root);
    ExtractIsDeclaredFieldNames(UserNode(root, declared, keys).typeDefs, RootName(root));
  }

  /** The roots the node does not use declare nothing and have no keys, so they pass. */
  lemma UserNodeOtherRootPasses(root: Root, declared: seq<string>, keys: seq<string>, other: Root)
    requires other != root
    ensures CheckRoot(UserNode(root, declared, keys), other).Pass?
  {
    var node := UserNode(root, declared, keys);
    UserNodeDeclares(root, declared, keys, other);
    assert ResolverKeys(node, other) == [];
    assert RootAgrees(node, other);
  }

  /** Lines 57-90: a Mutation field with its resolver composes. */
  lemma MatchingMutationPasses()
    ensures ValidateNode(UserNode(Mutation, ["updateUser"], ["updateUser"])).Pass?
  {
    var node := UserNode(Mutation, ["updateUser"], ["updateUser"]);
    UserNodeRoot(Mutation, ["updateUser"], ["updateUser"]);
    UserNodeOtherRootPasses(Mutation, ["updateUser"], ["updateUser"], Query);
    UserNodeOtherRootPasses(Mutation, ["updateUser"], ["updateUser"], Subscription);
    assert FirstMissing(["updateUser"], ["updateUser"]) == None;
  }

  /** Lines 154-183: `Query.users` is declared but has no resolver. */
  lemma QueryFieldWithoutResolver()
    ensures var r := ValidateNode(UserNode(Query, ["getUserByID", "users"], ["getUserByID"]));
      && r == Fail(DeclaredWithoutResolver("User", Query, "users"))
      && MismatchMessage(r.error) ==
        "node with name: '" + "User" + "' has a " + "Query" + " in the typeDefs called '" + "users" + "' thats not defined in resolvers"
  {
    var node := UserNode(Query, ["getUserByID", "users"], ["getUserByID"]);
    UserNodeRoot(Query, ["getUserByID", "users"], ["getUserByID"]);
    assert FirstMissing(["getUserByID", "users"], ["getUserByID"]) == Some(1);
    assert CheckRoot(node, Query) == Fail(DeclaredWithoutResolver("User", Query, "users"));
  }

  /** Lines 185-213: the resolver `Query.users` has no declared field. */
  lemma QueryResolverWithoutDeclaration()
    ensures var r := ValidateNode(UserNode(Query, ["getUserByID"], ["getUserByID", "users"]));
      && r == Fail(ResolverWithoutDeclaration("User", Query, "users"))
      && MismatchMessage(r.error) ==
        "node with name: '" + "User" + "' has a " + "Query" + " resolver called '" + "users" + "' thats not defined in typeDefs"
  {
    var node := UserNode(Query, ["getUserByID"], ["getUserByID", "users"]);
    UserNodeRoot(Query, ["getUserByID"], ["getUserByID", "users"]);
    assert FirstMissing(["getUserByID"], ["getUserByID", "users"]) == None;
    assert FirstMissing(["getUserByID", "users"], ["getUserByID"]) == Some(1);
    assert CheckRoot(node, Query) == Fail(ResolverWithoutDeclaration("User", Query, "users"));
  }

  /** Lines 215-243: `Mutation.updateUser` is declared but the Mutation group is empty. */
  lemma MutationFieldWithoutResolver()
    ensures var r := ValidateNode(UserNode(Mutation, ["updateUser"], []));
      && r == Fail(DeclaredWithoutResolver("User", Mutation, "updateUser"))
      && MismatchMessage(r.error) ==
        "node with name: '" + "User" + "' has a " + "Mutation" + " in the typeDefs called '" + "updateUser" + "' thats not defined in resolvers"
  {
    var node := UserNode(Mutation, ["updateUser"], []);
    UserNodeRoot(Mutation, ["updateUser"], []);
    UserNodeOtherRootPasses(Mutation, ["updateUser"], [], Query);
    assert FirstMissing(["updateUser"], []) == Some(0);
    assert CheckRoot(node, Mutation) == Fail(DeclaredWithoutResolver("User", Mutation, "updateUser"));
  }

  /** Lines 245-276: the resolver `Mutation.createUser` has no declared field. */
  lemma MutationResolverWithoutDeclaration()
    ensures var r := ValidateNode(UserNode(Mutation, ["updateUser"], ["createUser", "updateUser"]));
      && r == Fail(ResolverWithoutDeclaration("User", Mutation, "createUser"))
      && MismatchMessage(r.error) ==
        "node with name: '" + "User" + "' has a " + "Mutation" + " resolver called '" + "createUser" + "' thats not defined in typeDefs"
  {
    var node := UserNode(Mutation, ["updateUser"], ["createUser", "updateUser"]);
    UserNodeRoot(Mutation, ["updateUser"], ["createUser", "updateUser"]);
    UserNodeOtherRootPasses(Mutation, ["updateUser"], ["createUser", "updateUser"], Query);
    assert FirstMissing(["updateUser"], ["createUser", "updateUser"]) == None;
    assert FirstMissing(["createUser", "updateUser"], ["updateUser"]) == Some(0);
    assert CheckRoot(node, Mutation) == Fail(ResolverWithoutDeclaration("User", Mutation, "createUser"));
  }

  /** Lines 278-306: `Subscription.userCreation` is declared but the Subscription group is empty. */
  lemma SubscriptionFieldWithoutResolver()
    ensures var r := ValidateNode(UserNode(Subscription, ["userCreation"], []));
      && r == Fail(DeclaredWithoutResolver("User", Subscription, "userCreation"))
      && MismatchMessage(r.error) ==
        "node with name: '" + "User" + "' has a " + "Subscription" + " in the typeDefs called '" + "userCreation" + "' thats not defined in resolvers"
  {
    var node := UserNode(Subscription, ["userCreation"], []);
    UserNodeRoot(Subscription, ["userCreation"], []);
    UserNodeOtherRootPasses(Subscription, ["userCreation"], [], Query);
    UserNodeOtherRootPasses(Subscription, ["userCreation"], [], Mutation);
    assert FirstMissing(["userCreation"], []) == Some(0);
    assert CheckRoot(node, Subscription) == Fail(DeclaredWithoutResolver("User", Subscription, "userCreation"));
  }

  /** Lines 308-339: the resolver `Subscription.userUpdate` has no declared field. */
  lemma SubscriptionResolverWithoutDeclaration()
    ensures var r := ValidateNode(UserNode(Subscription, ["userCreation"], ["userCreation", "userUpdate"]));
      && r == Fail(ResolverWithoutDeclaration("User", Subscription, "userUpdate"))
      && MismatchMessage(r.error) ==
        "node with name: '" + "User" + "' has a " + "Subscription" + " resolver called '" + "userUpdate" + "' thats not defined in typeDefs"
  {
    var node := UserNode(Subscription, ["userCreation"], ["userCreation", "userUpdate"]);
    UserNodeRoot(Subscription, ["userCreation"], ["userCreation", "userUpdate"]);
    UserNodeOtherRootPasses(Subscription, ["userCreation"], ["userCreation", "userUpdate"], Query);
    UserNodeOtherRootPasses(Subscription, ["userCreation"], ["userCreation", "userUpdate"], Mutation);
    assert FirstMissing(["userCreation"], ["userCreation", "userUpdate"]) == None;
    assert FirstMissing(["userCreation", "userUpdate"], ["userCreation"]) == Some(1);
    assert CheckRoot(node, Subscription) == Fail(ResolverWithoutDeclaration("User", Subscription, "userUpdate"));
  }
}
