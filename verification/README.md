# idio-graphql field extractor, in Dafny

This project models the field extractor of idio-graphql, `extractResolvers({ definitions }, type)`.
It takes a parsed GraphQL document and the name of a root operation type (`Query`, `Mutation`,
`Subscription`). It returns the names of the fields declared under that type, and it reads them
from every object type definition (`type Query { ... }`) and every object type extension
(`extend type Query { ... }`) of that name. The composer runs the extractor to check that the
fields a node declares under each root and the keys of the node's resolver group for that root agree.

Files:

- `wrappers.dfy`: `Option`, `Result` and `Outcome`.
- `graphql_ast.dfy`: the part of the parsed document that the extractor reads. Each definition has
  a `kind`, an optional `name` and its `fields`, and each field has a `name`.
- `extract_resolvers.dfy`: the extractor, one function per stage of its `filter` / `flatMap` / `map`
  chain. `DeclaredFieldNames` is an independent definition-by-definition reference for what the chain
  computes. The lemmas connect the two and state the extractor's properties: membership, order,
  length, distribution over concatenation, and the failure case.
- `resolver_agreement.dfy`: the two-way agreement between declared root fields and resolver keys.
  It is derived from the composer's tests, because the composer's source (`src/combine-nodes.js`)
  is not part of this model.
- `combine_nodes_scenarios.dfy`: the agreement scenarios of `test/combine-nodes.test.js`, replayed
  on the model with the error each test expects.

The filter callback destructures `name: { value }` before it looks at `kind`. A definition without a
name node therefore throws, whatever its kind, and the whole call fails. That covers a
`schema { ... }` block, an `extend schema` and an anonymous operation. The model returns
`Failure(MissingName(i))`, where `i` is the position of the first such definition. On a document
whose definitions are all named, the extractor cannot fail.

## Model

| member | source | states |
|---|---|---|
| `ExtractResolvers.FilterDefinitions` | src/util/extract-resolvers.js:5-12 | the filter succeeds exactly when every definition is named, and otherwise fails at the first nameless one; what it keeps is exactly the object type definitions and extensions named `type` |
| `ExtractResolvers.FlatMapFields` | src/util/extract-resolvers.js:13 | a field is in the flattened list exactly when it belongs to one of the kept definitions |
| `ExtractResolvers.MapNames` | src/util/extract-resolvers.js:14 | one name per field, same length, position by position |
| `ExtractResolvers.Extract` | src/util/extract-resolvers.js:3-15 | the whole call succeeds exactly when every definition has a name; on failure it reports the first definition without one |
| `ExtractResolvers.ChainIsDeclaredFieldNames` | src/util/extract-resolvers.js:4-14 | on named definitions, filter-then-flatMap-then-map yields the reference list: definitions in document order, fields in declaration order |
| `ExtractResolvers.ExtractIsDeclaredFieldNames` | src/util/extract-resolvers.js:3-15 | the extractor returns the reference field names when all definitions are named, and otherwise fails at the first nameless definition |
| `ExtractResolvers.DeclaredFieldNamesMembership` | src/util/extract-resolvers.js:5-14 | a name is returned if and only if it names a field of some object type definition or extension whose name is `type` |
| `ExtractResolvers.DeclaredFieldNamesLength` | src/util/extract-resolvers.js:13-14 | duplicates are kept: the length is the sum of the field counts of the matching definitions |
| `ExtractResolvers.DeclaredFieldNamesAppend` | src/util/extract-resolvers.js:4-14 | extracting from two concatenated definition lists gives the two results concatenated |
| `ExtractResolvers.DeclaredFieldNamesAt` | src/util/extract-resolvers.js:4-14 | order: the fields of each definition form one block in declaration order, after the contributions of earlier definitions and before those of later ones |
| `ExtractResolvers.DeclaredFieldNamesEmpty` | src/util/extract-resolvers.js:4-14 | the result is empty if and only if no matching definition declares a field, so also when nothing matches and for an empty document |
| `ExtractResolvers.OtherKindContributesNothing` | src/util/extract-resolvers.js:6-12 | a definition of any other kind, even one named `type`, adds no field names: inserting it anywhere leaves the reference list unchanged |
| `ExtractResolvers.ExtractIgnoresNamedOtherKind` | src/util/extract-resolvers.js:5-12 | inserting a named definition of any other kind, even one named `type`, leaves the extractor's result unchanged, except that a later failure moves one position along; a nameless one fails the call instead (`SchemaBlockFails`) |
| `ExtractResolvers.DefinitionThenExtension` | src/util/extract-resolvers.js:7-8 | a type definition and an extension of the same type both contribute, in document order |
| `ExtractResolvers.SchemaBlockFails` | src/util/extract-resolvers.js:5 | a nameless `schema` block makes the call fail at its position, even when other definitions declare fields of `type` |
| `ExtractResolvers.ExtractAppend` | src/util/extract-resolvers.js:3-15 | on concatenated documents the results concatenate; a failure in the first part wins, and a failure in the second part is shifted past the first part |
| `ResolverAgreement.CheckRoot` | test/combine-nodes.test.js:154-339 | one root passes exactly when its declared fields and its resolver keys hold the same names; a failure names the node and the root, plus either a declared field that is not a key or a key that is not declared |
| `ResolverAgreement.ValidateNode` | test/combine-nodes.test.js:154-339 | a node passes exactly when all three roots agree; a failure is the failure of the first root that fails, in the order Query, Mutation, Subscription |
| `ResolverAgreement.PassedKeysAreDeclaredFields` | test/combine-nodes.test.js:154-339 | for a node that passes, a resolver key of a root is exactly a field name declared under that root |
| `ResolverAgreement.MismatchMessage` | test/combine-nodes.test.js:179-211 | the error message contains the node name, the root name and the field name, and the sentence for its direction: declared in the typeDefs but not defined in resolvers, or a resolver not defined in typeDefs |
| `CombineNodesScenarios.MatchingMutationPasses` | test/combine-nodes.test.js:57-90 | a node whose one Mutation field has a resolver passes the check |
| `CombineNodesScenarios.QueryFieldWithoutResolver` | test/combine-nodes.test.js:154-183 | a declared `Query.users` with no resolver is reported as declared-without-resolver, with the test's message |
| `CombineNodesScenarios.QueryResolverWithoutDeclaration` | test/combine-nodes.test.js:185-213 | a resolver `Query.users` with no declared field is reported as resolver-without-declaration, with the test's message |
| `CombineNodesScenarios.MutationFieldWithoutResolver` | test/combine-nodes.test.js:215-243 | a declared `Mutation.updateUser` with an empty Mutation group is reported, with the test's message |
| `CombineNodesScenarios.MutationResolverWithoutDeclaration` | test/combine-nodes.test.js:245-276 | the undeclared resolver `Mutation.createUser` is reported, with the test's message |
| `CombineNodesScenarios.SubscriptionFieldWithoutResolver` | test/combine-nodes.test.js:278-306 | a declared `Subscription.userCreation` with an empty Subscription group is reported, with the test's message |
| `CombineNodesScenarios.SubscriptionResolverWithoutDeclaration` | test/combine-nodes.test.js:308-339 | the undeclared resolver `Subscription.userUpdate` is reported, with the test's message |

The extractor's purity holds by construction: every member is a function of its arguments, and the
document is a value that nothing changes.

## Left out

- Parsing schema text into `{ definitions }` is done by the external `graphql` library. The model
  takes the parsed document as given, and keeps only `kind`, `name` and `fields`.
- Field arguments, field types, directives and locations are left out of the document model,
  because the extractor never reads them. Fields always have a name node in the parsed document,
  so a field's name is not optional in the model.
- `src/util/graphql-loader.js` is not part of this model. It reads a `.gql` file from disk, which
  is file I/O.
- `src/combine-nodes.js`, `GraphQLNode`, `IdioEnum`, `IdioScalar` and `IdioDirective` are not part
  of this model. That leaves out merging type definitions and resolver maps, flattening nested
  nodes, detecting name collisions, synthesising the `schema { ... }` block and validating
  arguments. Only the agreement check that the tests pin down is modelled.
- Resolvers are JavaScript closures. Only the keys of each root's resolver group are modelled, in
  insertion order. A root with no group has no keys. The non-root `Fields` group is ignored.
- `ResolverAgreement.ValidateNode`: the shown tests each break one root in one direction. They do
  not fix the order of roots (taken here as Query, Mutation, Subscription), nor whether a missing
  resolver is reported before an extra one (taken here as missing first). They also do not fix
  which of several offending fields is named (taken here as the first in declaration order or key
  order).
- `ResolverAgreement.MismatchMessage`: the tests only check that a message contains a given text.
  A nameless definition surfaces as the JavaScript runtime's own `TypeError`, whose text depends on
  the engine, so no message is modelled for `Malformed`.
- The async/await and try/catch scaffolding of the tests, and their chai assertions, are not modelled.
