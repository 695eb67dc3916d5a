/**
 * `extractResolvers({ definitions }, type)`: the names of the fields that a
 * parsed document declares under the type `type`, taken from every object
 * type definition and every object type extension of that name, in document
 * order and, inside one definition, in declaration order.
 *
 * The source is one chain of three array operations, and each stage is a
 * function here: `FilterDefinitions` (the `filter`), `FlatMapFields` (the
 * `flatMap`) and `MapNames` (the `map`). The filter callback destructures
 * `name: { value }` before it looks at `kind`, so a definition without a name
 * node, of whatever kind, makes the whole call throw; the model returns
 * `Failure(MissingName(i))` for the first such definition `defs[i]`.
 *
 * `DeclaredFieldNames` is an independent, definition-by-definition statement
 * of what the chain computes on a document whose definitions are all named;
 * `ExtractIsDeclaredFieldNames` connects the two, and the remaining
 * lemmas state the properties of the extractor on that reference.
 */
module ExtractResolvers {

  import opened Wrappers
  import opened GraphQLAst

  /** The exception the filter callback raises on a definition without a name. */
  datatype ExtractError = MissingName(index: nat)

  /**
   * The filter callback: `None` when reading `name.value` throws, otherwise
   * whether the definition is kept. A definition of another kind makes the
   * callback fall through and return `undefined`, which `filter` treats as false.
   */
  function KeepDefinition(d: Definition, ty: string): Option<bool> {
    match d.name
    case None => None
    case Some(value) => Some(if IsObjectType(d.kind) then value == ty else false)
  }

  /** `Array.prototype.filter` with the callback above; stops at the first throw. */
  function FilterDefinitions(defs: seq<Definition>, ty: string): (r: Result<seq<Definition>, ExtractError>)
    ensures r.Success? <==> AllNamed(defs)
    ensures r.Failure? ==> FirstUnnamed(defs, r.error.index)
    ensures r.Success? ==> |r.value| <= |defs|
    ensures r.Success? ==> forall d :: d in r.value ==> d in defs && Matches(d, ty)
    ensures r.Success? ==> forall d :: d in defs && Matches(d, ty) ==> d in r.value
    decreases |defs|
  {
    if defs == [] then Success([])
    else
      match KeepDefinition(defs[0], ty)
      case None => Failure(MissingName(0))
      case Some(keep) =>
        var rest := FilterDefinitions(defs[1..], ty);
        assert forall d :: d in defs <==> d == defs[0] || d in defs[1..];
        match rest
        case Failure(e) =>
          assert defs[..e.index + 1] == [defs[0]] + defs[1..][..e.index];
          Failure(MissingName(e.index + 1))
        case Success(kept) => Success(if keep then [defs[0]] + kept else kept)
  }

  /** `flatMap(({ fields }) => fields)`: the fields of all the definitions, one after another. */
  function FlatMapFields(defs: seq<Definition>): (r: seq<FieldDefinition>)
    ensures forall f :: f in r <==> exists i :: 0 <= i < |defs| && f in defs[i].fields
    decreases |defs|
  {
    if defs == [] then []
    else
      var rest := FlatMapFields(defs[1..]);
      assert forall i :: 0 < i < |defs| ==> defs[i] == defs[1..][i - 1];
      assert forall i :: 0 <= i < |defs| - 1 ==> defs[1..][i] == defs[i + 1];
      defs[0].fields + rest
  }

  /** `map(({ name: { value } }) => value)`: the name of each field, position by position. */
  function MapNames(fields: seq<FieldDefinition>): (r: seq<string>)
    ensures |r| == |fields|
    ensures forall j :: 0 <= j < |fields| ==> r[j] == fields[j].name
    decreases |fields|
  {
    if fields == [] then [] else [fields[0].name] + MapNames(fields[1..])
  }

  /** The whole chain, `extractResolvers({ definitions }, type)`. */
  function Extract(doc: Document, ty: string): (r: Result<seq<string>, ExtractError>)
    ensures r.Success? <==> AllNamed(doc.definitions)
    ensures r.Failure? ==> FirstUnnamed(doc.definitions, r.error.index)
  {
    match FilterDefinitions(doc.definitions, ty)
    case Failure(e) => Failure(e)
    case Success(kept) => Success(MapNames(FlatMapFields(kept)))
  }

  // ---------------------------------------------------------------------
  // Reference definition

  /** The field names of one definition, in declaration order. */
  function FieldNamesOf(d: Definition): (r: seq<string>)
    ensures |r| == |d.fields|
  {
    seq(|d.fields|, j requires 0 <= j < |d.fields| => d.fields[j].name)
  }

  /** What one definition adds to the result for the type `ty`. */
  function Contribution(d: Definition, ty: string): seq<string> {
    if Matches(d, ty) then FieldNamesOf(d) else []
  }

  /** The field names declared under `ty`, definition by definition in document order. */
  function DeclaredFieldNames(defs: seq<Definition>, ty: string): seq<string>
    decreases |defs|
  {
    if defs == [] then [] else Contribution(defs[0], ty) + DeclaredFieldNames(defs[1..], ty)
  }

  /** The number of fields of the definitions that match `ty`. */
  function MatchingFieldCount(defs: seq<Definition>, ty: string): nat
    decreases |defs|
  {
    if defs == [] then 0
    else (if Matches(defs[0], ty) then |defs[0].fields| else 0) + MatchingFieldCount(defs[1..], ty)
  }

  // ---------------------------------------------------------------------
  // The chain computes the reference

  lemma {:induction false} FlatMapFieldsAppend(a: seq<Definition>, b: seq<Definition>)
    ensures FlatMapFields(a + b) == FlatMapFields(a) + FlatMapFields(b)
    decreases |a|
  {
    if a == [] {
      assert a + b == b;
    } else {
      assert (a + b)[1..] == a[1..] + b;
      FlatMapFieldsAppend(a[1..], b);
    }
  }

  lemma {:induction false} MapNamesAppend(a: seq<FieldDefinition>, b: seq<FieldDefinition>)
    ensures MapNames(a + b) == MapNames(a) + MapNames(b)
  {
    assert |MapNames(a + b)| == |MapNames(a) + MapNames(b)|;
    forall j | 0 <= j < |a + b|
      ensures MapNames(a + b)[j] == (MapNames(a) + MapNames(b))[j]
    {
      if j >= |a| {
        assert (a + b)[j] == b[j - |a|];
      }
    }
  }

  /** On a document whose definitions are all named, the chain yields exactly the reference. */
  lemma {:induction false} ChainIsDeclaredFieldNames(defs: seq<Definition>, ty: string)
    requires AllNamed(defs)
    ensures FilterDefinitions(defs, ty).Success?
    ensures MapNames(FlatMapFields(FilterDefinitions(defs, ty).value)) == DeclaredFieldNames(defs, ty)
    decreases |defs|
  {
    if defs != [] {
      var d := defs[0];
      assert AllNamed(defs[1..]) by {
        forall i | 0 <= i < |defs[1..]| ensures defs[1..][i].name.Some? {
          assert defs[1..][i] == defs[i + 1];
        }
      }
      ChainIsDeclaredFieldNames(defs[1..], ty);
      var kept := FilterDefinitions(defs[1..], ty).value;
      assert KeepDefinition(d, ty) == Some(Matches(d, ty));
      if Matches(d, ty) {
        assert FilterDefinitions(defs, ty).value == [d] + kept;
        FlatMapFieldsAppend([d], kept);
        assert FlatMapFields([d]) == d.fields by {
          assert FlatMapFields([d]) == d.fields + FlatMapFields([d][1..]);
          assert [d][1..] == [];
        }
        MapNamesAppend(d.fields, FlatMapFields(kept));
        assert MapNames(d.fields) == FieldNamesOf(d);
      }
    }
  }

  /**
   * What `extractResolvers` returns: the reference field names when every
   * definition is named, and otherwise the failure at the first nameless one.
   */
  lemma ExtractIsDeclaredFieldNames(doc: Document, ty: string)
    ensures AllNamed(doc.definitions) ==> Extract(doc, ty) == Success(DeclaredFieldNames(doc.definitions, ty))
    ensures !AllNamed(doc.definitions) ==>
      Extract(doc, ty).Failure? && FirstUnnamed(doc.definitions, Extract(doc, ty).error.index)
  {
    if AllNamed(doc.definitions) {
      ChainIsDeclaredFieldNames(doc.definitions, ty);
    }
  }

  // ---------------------------------------------------------------------
  // Properties of the extractor

  /**
   * A name is returned exactly when it names a field of some object type
   * definition or extension called `ty`.
   */
  lemma {:induction false} DeclaredFieldNamesMembership(defs: seq<Definition>, ty: string, x: string)
    ensures x in DeclaredFieldNames(defs, ty) <==>
      exists i, j :: 0 <= i < |defs| && 0 <= j < |defs[i].fields| && Matches(defs[i], ty) && defs[i].fields[j].name == x
    decreases |defs|
  {
    if defs != [] {
      DeclaredFieldNamesMembership(defs[1..], ty, x);
      if x in DeclaredFieldNames(defs, ty) {
        if x in Contribution(defs[0], ty) {
          var j :| 0 <= j < |defs[0].fields| && FieldNamesOf(defs[0])[j] == x;
          assert defs[0].fields[j].name == x;
        } else {
          var i, j :| 0 <= i < |defs[1..]| && 0 <= j < |defs[1..][i].fields| && Matches(defs[1..][i], ty)
            && defs[1..][i].fields[j].name == x;
          assert defs[i + 1] == defs[1..][i];
        }
      }
      if exists i, j :: 0 <= i < |defs| && 0 <= j < |defs[i].fields| && Matches(defs[i], ty) && defs[i].fields[j].name == x {
        var i, j :| 0 <= i < |defs| && 0 <= j < |defs[i].fields| && Matches(defs[i], ty) && defs[i].fields[j].name == x;
        if i == 0 {
          assert FieldNamesOf(defs[0])[j] == x;
        } else {
          assert defs[1..][i - 1] == defs[i];
        }
      }
    }
  }

  /** Duplicates are kept: one name per field of every matching definition. */
  lemma {:induction false} DeclaredFieldNamesLength(defs: seq<Definition>, ty: string)
    ensures |DeclaredFieldNames(defs, ty)| == MatchingFieldCount(defs, ty)
    decreases |defs|
  {
    if defs != [] {
      DeclaredFieldNamesLength(defs[1..], ty);
    }
  }

  /** The extractor distributes over concatenation of definition lists. */
  lemma {:induction false} DeclaredFieldNamesAppend(a: seq<Definition>, b: seq<Definition>, ty: string)
    ensures DeclaredFieldNames(a + b, ty) == DeclaredFieldNames(a, ty) + DeclaredFieldNames(b, ty)
    decreases |a|
  {
    if a == [] {
      assert a + b == b;
    } else {
      assert (a + b)[1..] == a[1..] + b;
      DeclaredFieldNamesAppend(a[1..], b, ty);
    }
  }

  /**
   * Order: the fields of `defs[i]` form one block, in declaration order, after
   * everything the definitions before it contribute and before everything the
   * definitions after it contribute.
   */
  lemma DeclaredFieldNamesAt(defs: seq<Definition>, ty: string, i: nat)
    requires i < |defs|
    ensures DeclaredFieldNames(defs, ty) ==
      DeclaredFieldNames(defs[..i], ty) + Contribution(defs[i], ty) + DeclaredFieldNames(defs[i + 1..], ty)
    ensures Matches(defs[i], ty) ==> forall j :: 0 <= j < |defs[i].fields| ==>
      DeclaredFieldNames(defs, ty)[|DeclaredFieldNames(defs[..i], ty)| + j] == defs[i].fields[j].name
  {
    assert defs == defs[..i] + ([defs[i]] + defs[i + 1..]);
    DeclaredFieldNamesAppend(defs[..i], [defs[i]] + defs[i + 1..], ty);
    assert ([defs[i]] + defs[i + 1..])[1..] == defs[i + 1..];
  }

  /**
   * The result is empty exactly when no object type definition or extension
   * called `ty` declares a field; in particular when none is called `ty`, and
   * for an empty document.
   */
  lemma {:induction false} DeclaredFieldNamesEmpty(defs: seq<Definition>, ty: string)
    ensures DeclaredFieldNames(defs, ty) == [] <==>
      forall i :: 0 <= i < |defs| && Matches(defs[i], ty) ==> |defs[i].fields| == 0
    decreases |defs|
  {
    DeclaredFieldNamesLength(defs, ty);
    if defs != [] {
      DeclaredFieldNamesEmpty(defs[1..], ty);
      assert forall i :: 0 < i < |defs| ==> defs[i] == defs[1..][i - 1];
      assert forall i :: 0 <= i < |defs| - 1 ==> defs[1..][i] == defs[i + 1];
    }
  }

  /**
   * A definition of any other kind contributes no field names to the
   * reference, even when its name is `ty`: inserting it anywhere leaves the
   * reference unchanged. For the extractor itself this holds of a named such
   * definition only (`ExtractIgnoresNamedOtherKind`).
   */
  lemma OtherKindContributesNothing(pre: seq<Definition>, d: Definition, post: seq<Definition>, ty: string)
    requires !IsObjectType(d.kind)
    ensures DeclaredFieldNames(pre + [d] + post, ty) == DeclaredFieldNames(pre + post, ty)
  {
    var before, after := DeclaredFieldNames(pre, ty), DeclaredFieldNames(post, ty);
    DeclaredFieldNamesAppend(pre + [d], post, ty);
    DeclaredFieldNamesAppend(pre, [d], ty);
    DeclaredFieldNamesAppend(pre, post, ty);
    DeclaredFieldNamesSingle(d, ty);
    assert DeclaredFieldNames(pre + [d], ty) == before;
  }

  lemma DeclaredFieldNamesSingle(d: Definition, ty: string)
    ensures DeclaredFieldNames([d], ty) == Contribution(d, ty)
  {
    assert [d][1..] == [];
  }

  /**
   * A type definition followed by an extension of the same type: both
   * contribute, the definition's fields first.
   */
  lemma DefinitionThenExtension(def: Definition, ext: Definition, ty: string)
    requires def.kind == ObjectTypeDefinition && def.name == Some(ty)
    requires ext.kind == ObjectTypeExtension && ext.name == Some(ty)
    ensures DeclaredFieldNames([def, ext], ty) == FieldNamesOf(def) + FieldNamesOf(ext)
  {
    assert [def, ext][1..] == [ext];
    assert [ext][1..] == [];
    assert Contribution(def, ty) == FieldNamesOf(def);
    assert Contribution(ext, ty) == FieldNamesOf(ext);
    assert DeclaredFieldNames([ext], ty) == FieldNamesOf(ext) + DeclaredFieldNames([], ty);
  }

  /**
   * A `schema { ... }` block has no name node, so a document that holds one
   * makes the extractor fail, whatever the definitions around it declare.
   */
  lemma SchemaBlockFails(pre: seq<Definition>, fields: seq<FieldDefinition>, post: seq<Definition>, ty: string)
    requires AllNamed(pre)
    ensures Extract(Document(pre + [Definition(SchemaDefinition, None, fields)] + post), ty)
      == Failure(MissingName(|pre|))
  {
    var defs := pre + [Definition(SchemaDefinition, None, fields)] + post;
    assert defs[..|pre|] == pre;
    assert defs[|pre|].name.None?;
    FirstUnnamedUnique(defs, |pre|, Extract(Document(defs), ty).error.index);
  }

  /**
   * Concatenating documents: the extractor's result on the joined definition
   * lists is the two results joined, and a failure in the first list wins over
   * one in the second, whose index is shifted past the first list.
   */
  lemma ExtractAppend(a: seq<Definition>, b: seq<Definition>, ty: string)
    ensures Extract(Document(a), ty).Success? && Extract(Document(b), ty).Success? ==>
      Extract(Document(a + b), ty) == Success(Extract(Document(a), ty).value + Extract(Document(b), ty).value)
    ensures Extract(Document(a), ty).Failure? ==>
      Extract(Document(a + b), ty) == Extract(Document(a), ty)
    ensures Extract(Document(a), ty).Success? && Extract(Document(b), ty).Failure? ==>
      Extract(Document(a + b), ty) == Failure(MissingName(|a| + Extract(Document(b), ty).error.index))
  {
    if Extract(Document(a), ty).Success? && Extract(Document(b), ty).Success? {
      ExtractAppendBothNamed(a, b, ty);
    } else if Extract(Document(a), ty).Failure? {
      ExtractAppendFirstFails(a, b, ty);
    } else {
      ExtractAppendSecondFails(a, b, ty);
    }
  }

  lemma ExtractAppendBothNamed(a: seq<Definition>, b: seq<Definition>, ty: string)
    requires AllNamed(a) && AllNamed(b)
    ensures Extract(Document(a + b), ty) == Success(DeclaredFieldNames(a, ty) + DeclaredFieldNames(b, ty))
    ensures Extract(Document(a), ty) == Success(DeclaredFieldNames(a, ty))
    ensures Extract(Document(b), ty) == Success(DeclaredFieldNames(b, ty))
  {
    AllNamedAppend(a, b);
    ExtractIsDeclaredFieldNames(Document(a), ty);
    ExtractIsDeclaredFieldNames(Document(b), ty);
    ExtractIsDeclaredFieldNames(Document(a + b), ty);
    DeclaredFieldNamesAppend(a, b, ty);
  }

  lemma ExtractAppendFirstFails(a: seq<Definition>, b: seq<Definition>, ty: string)
    requires Extract(Document(a), ty).Failure?
    ensures Extract(Document(a + b), ty) == Extract(Document(a), ty)
  {
    var k := Extract(Document(a), ty).error.index;
    FirstUnnamedAppend(a, b, k);
    var r := Extract(Document(a + b), ty);
    assert r.Failure? by {
      assert (a + b)[k].name.None?;
    }
    FirstUnnamedUnique(a + b, k, r.error.index);
  }

  lemma ExtractAppendSecondFails(a: seq<Definition>, b: seq<Definition>, ty: string)
    requires Extract(Document(a), ty).Success? && Extract(Document(b), ty).Failure?
    ensures Extract(Document(a + b), ty) == Failure(MissingName(|a| + Extract(Document(b), ty).error.index))
  {
    var k := Extract(Document(b), ty).error.index;
    assert AllNamed(a) && FirstUnnamed(b, k);
    FirstUnnamedShift(a, b, k);
    var r := Extract(Document(a + b), ty);
    assert r.Failure? by {
      assert (a + b)[|a| + k].name.None?;
    }
    FirstUnnamedUnique(a + b, |a| + k, r.error.index);
  }

  /**
   * Inserting a named definition of any other kind, even one named `ty`, does
   * not change what the extractor returns; only a failure further on moves
   * one position along.
   */
  lemma ExtractIgnoresNamedOtherKind(pre: seq<Definition>, d: Definition, post: seq<Definition>, ty: string)
    requires !IsObjectType(d.kind) && d.name.Some?
    ensures Extract(Document(pre + post), ty).Success? ==>
      Extract(Document(pre + [d] + post), ty) == Extract(Document(pre + post), ty)
    ensures Extract(Document(pre + post), ty).Failure? && Extract(Document(pre + post), ty).error.index < |pre| ==>
      Extract(Document(pre + [d] + post), ty) == Extract(Document(pre + post), ty)
    ensures Extract(Document(pre + post), ty).Failure? && Extract(Document(pre + post), ty).error.index >= |pre| ==>
      Extract(Document(pre + [d] + post), ty) == Failure(MissingName(Extract(Document(pre + post), ty).error.index + 1))
  {
    assert Extract(Document([d]), ty) == Success([]) by {
      assert AllNamed([d]);
      ExtractIsDeclaredFieldNames(Document([d]), ty);
      DeclaredFieldNamesSingle(d, ty);
    }
    ExtractAppend(pre, [d], ty);
    ExtractAppend(pre + [d], post, ty);
    ExtractAppend(pre, post, ty);
    if Extract(Document(pre), ty).Success? {
      var v := Extract(Document(pre), ty).value;
      assert v + [] == v;
    }
  }

  lemma AllNamedAppend(a: seq<Definition>, b: seq<Definition>)
    ensures AllNamed(a + b) <==> AllNamed(a) && AllNamed(b)
  {
    assert forall i :: 0 <= i < |a| ==> (a + b)[i] == a[i];
    assert forall i :: 0 <= i < |b| ==> (a + b)[|a| + i] == b[i];
  }

  lemma FirstUnnamedAppend(a: seq<Definition>, b: seq<Definition>, k: nat)
    requires FirstUnnamed(a, k)
    ensures FirstUnnamed(a + b, k)
  {
    assert (a + b)[..k] == a[..k];
  }

  lemma FirstUnnamedShift(a: seq<Definition>, b: seq<Definition>, k: nat)
    requires AllNamed(a) && FirstUnnamed(b, k)
    ensures FirstUnnamed(a + b, |a| + k)
  {
    assert (a + b)[..|a| + k] == a + b[..k];
    AllNamedAppend(a, b[..k]);
  }

  /** There is only one first nameless definition. */
  lemma FirstUnnamedUnique(defs: seq<Definition>, i: nat, j: nat)
    requires FirstUnnamed(defs, i) && FirstUnnamed(defs, j)
    ensures i == j
  {
  }
}
