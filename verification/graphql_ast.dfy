/**
 * The part of a parsed GraphQL document that the field extractor reads:
 * `{ definitions }`, each definition with its `kind`, its optional `name`
 * node and its `fields`, each field with its `name`. The document itself is
 * produced by an external parser and is only ever read here.
 */
module GraphQLAst {

  import opened Wrappers

  /** The `kind` tag of a top-level definition of a GraphQL document. */
  datatype Kind =
    | OperationDefinition
    | FragmentDefinition
    | SchemaDefinition
    | ScalarTypeDefinition
    | ObjectTypeDefinition
    | InterfaceTypeDefinition
    | UnionTypeDefinition
    | EnumTypeDefinition
    | InputObjectTypeDefinition
    | DirectiveDefinition
    | SchemaExtension
    | ScalarTypeExtension
    | ObjectTypeExtension
    | InterfaceTypeExtension
    | UnionTypeExtension
    | EnumTypeExtension
    | InputObjectTypeExtension

  /** A field of an object type; in the AST every field has a name. */
  datatype FieldDefinition = FieldDefinition(name: string)

  /**
   * A top-level definition. `name` is `None` where the AST has no name node:
   * a `schema { ... }` block, an `extend schema` and an anonymous operation.
   * Only object type definitions and extensions have their `fields` read.
   */
  datatype Definition = Definition(kind: Kind, name: Option<string>, fields: seq<FieldDefinition>)

  datatype Document = Document(definitions: seq<Definition>)

  /** The two kinds whose fields the extractor collects. */
  predicate IsObjectType(k: Kind) {
    k == ObjectTypeDefinition || k == ObjectTypeExtension
  }

  /** Every definition carries a name node. */
  predicate AllNamed(defs: seq<Definition>) {
    forall i :: 0 <= i < |defs| ==> defs[i].name.Some?
  }

  /** `defs[i]` is the first definition without a name node. */
  predicate FirstUnnamed(defs: seq<Definition>, i: nat) {
    i < |defs| && defs[i].name.None? && AllNamed(defs[..i])
  }

  /** An object type definition or extension whose name is `ty`. */
  predicate Matches(d: Definition, ty: string) {
    IsObjectType(d.kind) && d.name == Some(ty)
  }
}
