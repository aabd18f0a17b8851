/**
 * What lies outside the soundness fragment: null that is not advertised, and the depth
 * cut-off, which only loosens as long as unions stay disjoint.
 */
module SchemaCutoff {
  import opened Wrappers
  import opened JsonSchema
  import opened SchemaCompiler

  // --------------------------------------------- why the fragment needs its limits

  /**
   * The schema, seen through wrappers above the cut-off, is a literal or a picklist of one JSON
   * type that does not hold null.
   */
  predicate HidesNull(getters: Getters, s: Source, depth: nat)
    decreases Budget(depth), s
  {
    depth <= MAX_DEPTH && match s
      case SLiteral(literal) => LiteralJsonType(literal).Some? && literal != Plain(JNull)
      case SPicklist(options) => OfOneType(options) && Plain(JNull) !in options
      case SOptional(wrapped) => HidesNull(getters, wrapped, depth + 1)
      case SNullish(wrapped) => HidesNull(getters, wrapped, depth + 1)
      case SNullable(wrapped) => HidesNull(getters, wrapped, depth + 1)
      case SLazy(getter) => getter in getters && HidesNull(getters, getters[getter], depth + 1)
      case SRefined(base, _) => HidesNull(getters, base, depth)
      case _ => false
  }

  /** Whether the schema is advertised as taking null; a union has to offer it in exactly one option. */
  predicate AdvertisesNull(getters: Getters, s: Source, depth: nat)
    decreases Budget(depth), 0, s
  {
    depth > MAX_DEPTH || match s
      case SNull => true
      case SAny => true
      case SLiteral(literal) => literal.Undefined? || literal == Plain(JNull)
      case SPicklist(options) => Plain(JNull) in options
      case SOptional(wrapped) => AdvertisesNull(getters, wrapped, depth + 1)
      case SNullish(wrapped) => AdvertisesNull(getters, wrapped, depth + 1)
      case SNullable(wrapped) => !HidesNull(getters, wrapped, depth + 1)
      case SUnion(schemas) =>
        exists i | 0 <= i < |schemas| ::
          AdvertisesNull(getters, schemas[i], depth + 1) && OnlyAdvertises(getters, schemas, i, depth + 1)
      case SIntersect(schemas) => forall i | 0 <= i < |schemas| :: AdvertisesNull(getters, schemas[i], depth + 1)
      case SLazy(getter) => getter in getters ==> AdvertisesNull(getters, getters[getter], depth + 1)
      case SRefined(base, _) => AdvertisesNull(getters, base, depth)
      case _ => false
  }

  predicate OnlyAdvertises(getters: Getters, schemas: seq<Source>, i: int, depth: nat)
    decreases Budget(depth), 1
  {
    forall j | 0 <= j < |schemas| && j != i :: !AdvertisesNull(getters, schemas[j], depth)
  }

  lemma {:induction false} WithNullExcludes(s: Schema)
    requires Emitted(s)
    ensures ExcludesNull(WithNull(s)) <==> ExcludesNull(s)
  {
  }

  lemma {:induction false} HidesNullExactly(getters: Getters, s: Source, depth: nat)
    ensures ExcludesNull(Convert(getters, s, depth)) <==> HidesNull(getters, s, depth)
    decreases Budget(depth), s
  {
    if depth <= MAX_DEPTH {
      match s
      case SOptional(wrapped) => HidesNullExactly(getters, wrapped, depth + 1);
      case SNullish(wrapped) => HidesNullExactly(getters, wrapped, depth + 1);
      case SNullable(wrapped) =>
        HidesNullExactly(getters, wrapped, depth + 1);
        ConvertEmitted(getters, wrapped, depth + 1);
        WithNullExcludes(Convert(getters, wrapped, depth + 1));
      case SLazy(getter) => if getter in getters { HidesNullExactly(getters, getters[getter], depth + 1); }
      case SRefined(base, _) => HidesNullExactly(getters, base, depth);
      case SNumber(pipe) => NumberEmitted(pipe);
      case _ =>
    }
  }

  lemma {:induction false} NumberTyped(pipe: seq<Action>)
    ensures NumberSchema(pipe).typ == One(TNumber) || NumberSchema(pipe).typ == One(TInteger)
  {
    if pipe != [] { NumberTyped(pipe[..|pipe| - 1]); }
  }

  lemma {:induction false} AdvertisesNullExactly(getters: Getters, s: Source, depth: nat)
    ensures Valid(Convert(getters, s, depth), JNull) <==> AdvertisesNull(getters, s, depth)
    decreases Budget(depth), s, 1
  {
    if depth <= MAX_DEPTH {
      if s.SNullable? {
        NullableAdvertises(getters, s.wrapped, depth);
      } else if s.SUnion? {
        OptionsAdvertise(getters, s, depth);
        UnionAdvertises(getters, s.schemas, depth, ConvertAll(getters, s.schemas, depth + 1));
      } else if s.SIntersect? {
        OptionsAdvertise(getters, s, depth);
        IntersectAdvertises(getters, s.schemas, depth, ConvertAll(getters, s.schemas, depth + 1));
      } else if s.SOptional? || s.SNullish? {
        OptionalAdvertises(getters, s, depth);
      } else if s.SLazy? {
        LazyAdvertises(getters, s, depth);
      } else if s.SRefined? {
        RefinedAdvertises(getters, s, depth);
      } else {
        LeafAdvertises(getters, s, depth);
      }
    }
  }

  lemma {:induction false} OptionalAdvertises(getters: Getters, s: Source, depth: nat)
    requires depth <= MAX_DEPTH && (s.SOptional? || s.SNullish?)
    ensures Valid(Convert(getters, s, depth), JNull) <==> AdvertisesNull(getters, s, depth)
    decreases Budget(depth), s, 0
  {
    AdvertisesNullExactly(getters, s.wrapped, depth + 1);
  }

  lemma {:induction false} LazyAdvertises(getters: Getters, s: Source, depth: nat)
    requires depth <= MAX_DEPTH && s.SLazy?
    ensures Valid(Convert(getters, s, depth), JNull) <==> AdvertisesNull(getters, s, depth)
    decreases Budget(depth), s, 0
  {
    if s.getter in getters { AdvertisesNullExactly(getters, getters[s.getter], depth + 1); }
  }

  lemma {:induction false} RefinedAdvertises(getters: Getters, s: Source, depth: nat)
    requires depth <= MAX_DEPTH && s.SRefined?
    ensures Valid(Convert(getters, s, depth), JNull) <==> AdvertisesNull(getters, s, depth)
    decreases Budget(depth), s, 0
  {
    AdvertisesNullExactly(getters, s.base, depth);
  }

  lemma {:induction false} OptionsAdvertise(getters: Getters, s: Source, depth: nat)
    requires depth <= MAX_DEPTH && (s.SUnion? || s.SIntersect?)
    ensures forall i | 0 <= i < |s.schemas| ::
              Valid(Convert(getters, s.schemas[i], depth + 1), JNull) <==> AdvertisesNull(getters, s.schemas[i], depth + 1)
    decreases Budget(depth), s, 0
  {
    forall i | 0 <= i < |s.schemas|
      ensures Valid(Convert(getters, s.schemas[i], depth + 1), JNull) <==> AdvertisesNull(getters, s.schemas[i], depth + 1)
    {
      AdvertisesNullExactly(getters, s.schemas[i], depth + 1);
    }
  }

  ghost predicate OnlyTakes(all: seq<Schema>, i: int, v: Json) {
    0 <= i < |all| && Valid(all[i], v) && forall j | 0 <= j < |all| && j != i :: !Valid(all[j], v)
  }

  lemma {:induction false} OneOfTakes(all: seq<Schema>, v: Json) returns (i: int)
    requires Valid(EMPTY.(oneOf := List(all)), v)
    ensures OnlyTakes(all, i, v)
  {
    var s := EMPTY.(oneOf := List(all));
    i :| 0 <= i < |all| && Valid(s.oneOf.schemas[i], v)
         && forall j | 0 <= j < |all| && j != i :: !Valid(s.oneOf.schemas[j], v);
  }

  lemma {:induction false} TakesOneOf(all: seq<Schema>, v: Json, i: int)
    requires OnlyTakes(all, i, v)
    ensures Valid(EMPTY.(oneOf := List(all)), v)
  {
    var s := EMPTY.(oneOf := List(all));
    assert Valid(s.oneOf.schemas[i], v);
  }

  lemma {:induction false} UnionAdvertises(getters: Getters, schemas: seq<Source>, depth: nat, all: seq<Schema>)
    requires depth <= MAX_DEPTH && |all| == |schemas|
    requires forall i | 0 <= i < |schemas| :: Valid(all[i], JNull) <==> AdvertisesNull(getters, schemas[i], depth + 1)
    ensures Valid(EMPTY.(oneOf := List(all)), JNull) <==> AdvertisesNull(getters, SUnion(schemas), depth)
  {
    if Valid(EMPTY.(oneOf := List(all)), JNull) {
      var i := OneOfTakes(all, JNull);
      OnlyOneAdvertises(getters, schemas, depth, all, i);
    }
    if AdvertisesNull(getters, SUnion(schemas), depth) {
      var i := UnionOffers(getters, schemas, depth);
      OnlyOneAdvertises(getters, schemas, depth, all, i);
      TakesOneOf(all, JNull, i);
    }
  }

  lemma {:induction false} UnionOffers(getters: Getters, schemas: seq<Source>, depth: nat) returns (i: nat)
    requires depth <= MAX_DEPTH && AdvertisesNull(getters, SUnion(schemas), depth)
    ensures i < |schemas| && AdvertisesNull(getters, schemas[i], depth + 1) && OnlyAdvertises(getters, schemas, i, depth + 1)
  {
    i :| i < |schemas| && AdvertisesNull(getters, schemas[i], depth + 1) && OnlyAdvertises(getters, schemas, i, depth + 1);
  }

  lemma {:induction false} OnlyOneAdvertises(getters: Getters, schemas: seq<Source>, depth: nat, all: seq<Schema>, i: nat)
    requires |all| == |schemas| && i < |schemas|
    requires forall j | 0 <= j < |schemas| :: Valid(all[j], JNull) <==> AdvertisesNull(getters, schemas[j], depth + 1)
    ensures OnlyTakes(all, i, JNull)
       <==> AdvertisesNull(getters, schemas[i], depth + 1) && OnlyAdvertises(getters, schemas, i, depth + 1)
  {
  }

  lemma {:induction false} AllOfExactly(all: seq<Schema>, v: Json)
    ensures Valid(EMPTY.(allOf := List(all)), v) <==> forall i | 0 <= i < |all| :: Valid(all[i], v)
  {
  }

  lemma {:induction false} IntersectAdvertises(getters: Getters, schemas: seq<Source>, depth: nat, all: seq<Schema>)
    requires depth <= MAX_DEPTH && |all| == |schemas|
    requires forall i | 0 <= i < |schemas| :: Valid(all[i], JNull) <==> AdvertisesNull(getters, schemas[i], depth + 1)
    ensures Valid(EMPTY.(allOf := List(all)), JNull) <==> AdvertisesNull(getters, SIntersect(schemas), depth)
  {
    AllOfExactly(all, JNull);
  }

  lemma {:induction false} TypedRejectsNull(s: Schema)
    requires s.typ.One? && s.typ.t != TNull
    ensures !Valid(s, JNull)
  {
  }

  lemma {:induction false} LiteralNull(literal: Literal)
    ensures Valid(LiteralSchema(literal), JNull) <==> literal.Undefined? || literal == Plain(JNull)
  {
  }

  predicate NeverTakesNull(s: Source) {
    s.SString? || s.SNumber? || s.SBoolean? || s.SDate? || s.SObject? || s.SRecord? || s.SArray?
  }

  lemma {:induction false} TypedConverts(getters: Getters, s: Source, depth: nat)
    requires depth <= MAX_DEPTH && NeverTakesNull(s)
    ensures Convert(getters, s, depth).typ.One? && Convert(getters, s, depth).typ.t != TNull
  {
    if s.SNumber? { NumberTyped(s.pipe); }
  }

  lemma {:induction false} LeafAdvertises(getters: Getters, s: Source, depth: nat)
    requires depth <= MAX_DEPTH && !IsWrapper(s) && !s.SUnion? && !s.SIntersect?
    ensures Valid(Convert(getters, s, depth), JNull) <==> AdvertisesNull(getters, s, depth)
  {
    if NeverTakesNull(s) {
      TypedConverts(getters, s, depth);
      TypedRejectsNull(Convert(getters, s, depth));
    } else if s.SLiteral? {
      LiteralNull(s.literal);
    } else if s.SPicklist? {
      PicklistNull(s.options);
    }
  }

  lemma {:induction false} PicklistNull(options: seq<Literal>)
    ensures Valid(PicklistSchema(options), JNull) <==> Plain(JNull) in options
  {
    if Plain(JNull) in options { PicklistSound(options, JNull); }
  }

  lemma {:induction false} NullableAdvertises(getters: Getters, wrapped: Source, depth: nat)
    requires depth <= MAX_DEPTH
    ensures Valid(Convert(getters, SNullable(wrapped), depth), JNull) <==> !HidesNull(getters, wrapped, depth + 1)
  {
    ConvertEmitted(getters, wrapped, depth + 1);
    WithNullAdmitsNull(Convert(getters, wrapped, depth + 1));
    HidesNullExactly(getters, wrapped, depth + 1);
  }

  lemma {:induction false} NullishConverts(getters: Getters, wrapped: Source, depth: nat)
    requires depth <= MAX_DEPTH
    ensures Convert(getters, SNullish(wrapped), depth) == Convert(getters, wrapped, depth + 1)
  {
  }

  lemma {:induction false} NullIsAccepted(getters: Getters, wrapped: Source)
    ensures Accepts(getters, SNullable(wrapped), JNull, 1) && Accepts(getters, SNullish(wrapped), JNull, 1)
  {
  }

  /**
   * Null over a nullable or nullish schema: the validator always accepts it. It is advertised of a
   * nullable unless the wrapped schema is closed over other values of one type, and of a nullish
   * only if the wrapped schema itself is advertised as taking null.
   */
  lemma {:induction false} NullExactly(getters: Getters, wrapped: Source, depth: nat)
    requires depth <= MAX_DEPTH
    ensures Accepts(getters, SNullable(wrapped), JNull, 1) && Accepts(getters, SNullish(wrapped), JNull, 1)
    ensures Valid(Convert(getters, SNullable(wrapped), depth), JNull) <==> !HidesNull(getters, wrapped, depth + 1)
    ensures Valid(Convert(getters, SNullish(wrapped), depth), JNull) <==> AdvertisesNull(getters, wrapped, depth + 1)
    ensures HidesNull(getters, wrapped, depth + 1) <==> ExcludesNull(Convert(getters, wrapped, depth + 1))
    ensures AdvertisesNull(getters, wrapped, depth + 1) <==> Valid(Convert(getters, wrapped, depth + 1), JNull)
  {
    NullIsAccepted(getters, wrapped);
    NullableAdvertises(getters, wrapped, depth);
    NullishConverts(getters, wrapped, depth);
    HidesNullExactly(getters, wrapped, depth + 1);
    AdvertisesNullExactly(getters, wrapped, depth + 1);
  }

  /** A nullable over a literal text: null is accepted and not advertised. */
  lemma {:induction false} NullableLiteralRejectsNull()
    ensures var s := SNullable(SLiteral(Plain(JStr("a")))); Accepts(map[], s, JNull, 1) && !Valid(Convert(map[], s, 0), JNull)
  {
    var literal := SLiteral(Plain(JStr("a")));
    assert HidesNull(map[], literal, 1);
    NullableAdvertises(map[], literal, 0);
  }

  /** A nullish over any text likewise. */
  lemma {:induction false} NullishTextRejectsNull()
    ensures var s := SNullish(SString); Accepts(map[], s, JNull, 1) && !Valid(Convert(map[], s, 0), JNull)
  {
    assert !AdvertisesNull(map[], SString, 1);
    AdvertisesNullExactly(map[], SString, 1);
  }

  /** At the last depth every option becomes `{}`, so a choice between several rejects everything. */
  lemma {:induction false} UnionAtCutoffRejects(getters: Getters, schemas: seq<Source>, v: Json)
    requires 2 <= |schemas|
    ensures !Valid(Convert(getters, SUnion(schemas), MAX_DEPTH), v)
  {
    var all := ConvertAll(getters, schemas, MAX_DEPTH + 1);
    assert all[0] == EMPTY && all[1] == EMPTY;
    assert Valid(all[0], v) && Valid(all[1], v);
  }

  /** A recursive union: a text, or a list of trees. */
  const TREE: Getters := map["tree" := SUnion([SString, SArray(SLazy("tree"))])]

  /** A text inside `nesting` lists. */
  function Nest(nesting: nat): Json {
    if nesting == 0 then JStr("x") else JArr([Nest(nesting - 1)])
  }

  lemma {:induction false} TreeAccepted(nesting: nat)
    ensures Accepts(TREE, SLazy("tree"), Nest(nesting), 3 * nesting + 3)
  {
    var v, options := Nest(nesting), [SString, SArray(SLazy("tree"))];
    if nesting == 0 {
      assert Accepts(TREE, options[0], v, 1);
    } else {
      TreeAccepted(nesting - 1);
      assert Accepts(TREE, options[1], v, 3 * nesting + 1);
    }
    assert Accepts(TREE, SUnion(options), v, 3 * nesting + 2);
  }

  const TEXT := EMPTY.(typ := One(TString))

  function ListOf(item: Schema): Schema {
    EMPTY.(typ := One(TArray), items := Some(item))
  }

  function TreeSchema(depth: nat): Schema {
    Convert(TREE, SLazy("tree"), depth)
  }

  lemma {:induction false} TreeSchemaShape(depth: nat)
    requires depth <= 7
    ensures TreeSchema(depth) == EMPTY.(oneOf := List([TEXT, ListOf(TreeSchema(depth + 3))]))
  {
    var options := [SString, SArray(SLazy("tree"))];
    assert Convert(TREE, SLazy("tree"), depth) == Convert(TREE, SUnion(options), depth + 1);
    var all := ConvertAll(TREE, options, depth + 2);
    assert all[0] == TEXT && all[1] == ListOf(TreeSchema(depth + 3));
    assert all == [TEXT, ListOf(TreeSchema(depth + 3))];
  }

  lemma {:induction false} TextOrList(item: Schema, v: Json)
    ensures Valid(EMPTY.(oneOf := List([TEXT, ListOf(item)])), v)
       <==> v.JStr? || (v.JArr? && forall i | 0 <= i < |v.items| :: Valid(item, v.items[i]))
  {
    var options := [TEXT, ListOf(item)];
    assert Valid(options[0], v) <==> v.JStr?;
    assert Valid(options[1], v) <==> v.JArr? && forall i | 0 <= i < |v.items| :: Valid(item, v.items[i]);
    if Valid(options[0], v) { OneOfOnly(options, 0, v); }
    if Valid(options[1], v) { OneOfOnly(options, 1, v); }
  }

  lemma {:induction false} OneOfOnly(schemas: seq<Schema>, i: int, v: Json)
    requires 0 <= i < |schemas| && Valid(schemas[i], v)
    requires forall j | 0 <= j < |schemas| && j != i :: !Valid(schemas[j], v)
    ensures Valid(EMPTY.(oneOf := List(schemas)), v)
  {
  }

  lemma {:induction false} NestAt(schema: Schema, item: Schema, nesting: nat)
    requires schema == EMPTY.(oneOf := List([TEXT, ListOf(item)]))
    ensures Valid(schema, Nest(nesting)) <==> nesting == 0 || Valid(item, Nest(nesting - 1))
  {
    var v := Nest(nesting);
    TextOrList(item, v);
    if nesting > 0 { assert v.items == [Nest(nesting - 1)] && v.items[0] == Nest(nesting - 1); }
  }

  lemma {:induction false} TreeSchemaAtCutoff(v: Json)
    ensures !Valid(TreeSchema(9), v)
  {
    var options := [SString, SArray(SLazy("tree"))];
    assert TreeSchema(9) == Convert(TREE, SUnion(options), 10);
    UnionAtCutoffRejects(TREE, options, v);
  }

  /** The schema accepts texts inside up to `limit` lists, and none nested deeper. */
  ghost predicate NestsUpTo(schema: Schema, limit: int) {
    forall nesting: nat :: Valid(schema, Nest(nesting)) <==> nesting <= limit
  }

  lemma {:induction false} OneMoreLevel(outer: Schema, inner: Schema, limit: int)
    requires outer == EMPTY.(oneOf := List([TEXT, ListOf(inner)])) && NestsUpTo(inner, limit) && -1 <= limit
    ensures NestsUpTo(outer, limit + 1)
  {
    forall nesting: nat
      ensures Valid(outer, Nest(nesting)) <==> nesting <= limit + 1
    {
      NestAt(outer, inner, nesting);
    }
  }

  lemma {:induction false} TreeLevel(depth: nat, limit: int)
    requires depth <= 7 && NestsUpTo(TreeSchema(depth + 3), limit) && -1 <= limit
    ensures NestsUpTo(TreeSchema(depth), limit + 1)
  {
    TreeSchemaShape(depth);
    OneMoreLevel(TreeSchema(depth), TreeSchema(depth + 3), limit);
  }

  /** From every depth the cut-off comes to by threes: one nesting less for each turn of the cycle. */
  lemma {:induction false} TreeAdvertised(depth: nat)
    requires depth <= 9 && depth % 3 == 0
    ensures NestsUpTo(TreeSchema(depth), 2 - depth / 3)
    decreases 9 - depth
  {
    if depth == 9 {
      forall nesting: nat
        ensures !Valid(TreeSchema(depth), Nest(nesting))
      {
        TreeSchemaAtCutoff(Nest(nesting));
      }
    } else {
      TreeAdvertised(depth + 3);
      TreeLevel(depth, 2 - (depth + 3) / 3);
    }
  }

  /**
   * The cut-off does not only loosen: the validator accepts this cyclic schema's trees at every
   * nesting, its advertised schema only up to two.
   */
  lemma {:induction false} CutoffRejectsDeepTrees(nesting: nat)
    ensures exists steps: nat :: Accepts(TREE, SLazy("tree"), Nest(nesting), steps)
    ensures Valid(ToJsonSchema(TREE, SLazy("tree")), Nest(nesting)) <==> nesting <= 2
  {
    TreeAccepted(nesting);
    TreeAdvertised(0);
    DraftIsNoConstraint(TREE, SLazy("tree"), Nest(nesting));
  }

  // -------------------------------------- where unions stay disjoint it does only loosen

  /** Wherever the conversion begun at `depth` meets a union, its converted options are disjoint. */
  ghost predicate DisjointUnions(getters: Getters, s: Source, depth: nat)
    decreases Budget(depth), s
  {
    depth > MAX_DEPTH || match s
      case SOptional(wrapped) => DisjointUnions(getters, wrapped, depth + 1)
      case SNullish(wrapped) => DisjointUnions(getters, wrapped, depth + 1)
      case SNullable(wrapped) => DisjointUnions(getters, wrapped, depth + 1)
      case SUnion(schemas) =>
        (forall i | 0 <= i < |schemas| :: DisjointUnions(getters, schemas[i], depth + 1))
        && PairwiseDisjoint(ConvertAll(getters, schemas, depth + 1))
      case SIntersect(schemas) => forall i | 0 <= i < |schemas| :: DisjointUnions(getters, schemas[i], depth + 1)
      case SObject(_, entries) => forall i | 0 <= i < |entries| :: DisjointUnions(getters, entries[i].schema, depth + 1)
      case SRecord(value) => DisjointUnions(getters, value, depth + 1)
      case SArray(item) => DisjointUnions(getters, item, depth + 1)
      case SLazy(getter) => getter in getters ==> DisjointUnions(getters, getters[getter], depth + 1)
      case SRefined(base, _) => DisjointUnions(getters, base, depth)
      case _ => true
  }

  /** The fragment of the soundness theorem is a special case. */
  lemma {:induction false} FaithfulIsDisjoint(getters: Getters, s: Source, depth: nat)
    requires Faithful(getters, s, depth)
    ensures DisjointUnions(getters, s, depth)
    decreases Budget(depth), s, 1
  {
    if depth <= MAX_DEPTH {
      if IsComposite(s) {
        FaithfulCompositeIsDisjoint(getters, s, depth);
      } else {
        match s
        case SOptional(wrapped) => FaithfulIsDisjoint(getters, wrapped, depth + 1);
        case SNullish(wrapped) => FaithfulIsDisjoint(getters, wrapped, depth + 1);
        case SNullable(wrapped) => FaithfulIsDisjoint(getters, wrapped, depth + 1);
        case SLazy(getter) => if getter in getters { FaithfulIsDisjoint(getters, getters[getter], depth + 1); }
        case SRefined(base, _) => FaithfulIsDisjoint(getters, base, depth);
        case _ =>
      }
    }
  }

  lemma {:induction false} FaithfulCompositeIsDisjoint(getters: Getters, s: Source, depth: nat)
    requires depth <= MAX_DEPTH && IsComposite(s) && Faithful(getters, s, depth)
    ensures DisjointUnions(getters, s, depth)
    decreases Budget(depth), s, 0
  {
    match s
    case SUnion(schemas) =>
      forall i | 0 <= i < |schemas|
        ensures DisjointUnions(getters, schemas[i], depth + 1)
      {
        FaithfulIsDisjoint(getters, schemas[i], depth + 1);
      }
    case SIntersect(schemas) =>
      forall i | 0 <= i < |schemas|
        ensures DisjointUnions(getters, schemas[i], depth + 1)
      {
        FaithfulIsDisjoint(getters, schemas[i], depth + 1);
      }
    case SObject(_, entries) =>
      forall i | 0 <= i < |entries|
        ensures DisjointUnions(getters, entries[i].schema, depth + 1)
      {
        FaithfulIsDisjoint(getters, entries[i].schema, depth + 1);
      }
    case SRecord(value) => FaithfulIsDisjoint(getters, value, depth + 1);
    case SArray(item) => FaithfulIsDisjoint(getters, item, depth + 1);
  }

  lemma {:induction false} WithNullAddsOnlyNull(s: Schema, v: Json)
    requires Emitted(s) && Valid(WithNull(s), v) && !v.JNull?
    ensures Valid(s, v)
  {
    var nullOnly := EMPTY.(typ := One(TNull));
    assert !Valid(nullOnly, v);
    if s.typ.Many? {
      var i :| 0 <= i < |s.typ.ts + [TNull]| && HasType(v, (s.typ.ts + [TNull])[i]);
      assert i < |s.typ.ts| && HasType(v, s.typ.ts[i]);
    } else if s.anyOf.List? {
      var i :| 0 <= i < |s.anyOf.schemas + [nullOnly]| && Valid((s.anyOf.schemas + [nullOnly])[i], v);
      assert i < |s.anyOf.schemas| && Valid(s.anyOf.schemas[i], v);
    }
  }

  /** Starting one level deeper never makes a conversion shut null out. */
  lemma {:induction false} DeeperExcludesLess(getters: Getters, s: Source, depth: nat)
    requires ExcludesNull(Convert(getters, s, depth + 1))
    ensures ExcludesNull(Convert(getters, s, depth))
    decreases Budget(depth), s
  {
    match s
    case SOptional(wrapped) => DeeperExcludesLess(getters, wrapped, depth + 1);
    case SNullish(wrapped) => DeeperExcludesLess(getters, wrapped, depth + 1);
    case SNullable(wrapped) =>
      ConvertEmitted(getters, wrapped, depth + 1);
      ConvertEmitted(getters, wrapped, depth + 2);
      WithNullExcludes(Convert(getters, wrapped, depth + 2));
      DeeperExcludesLess(getters, wrapped, depth + 1);
      WithNullExcludes(Convert(getters, wrapped, depth + 1));
    case SLazy(getter) => if getter in getters { DeeperExcludesLess(getters, getters[getter], depth + 1); }
    case SRefined(base, _) => DeeperExcludesLess(getters, base, depth);
    case _ =>
  }

  lemma {:induction false} WithNullLoosens(tight: Schema, loose: Schema, v: Json)
    requires Emitted(tight) && Emitted(loose)
    requires Valid(tight, v) ==> Valid(loose, v)
    requires ExcludesNull(loose) ==> ExcludesNull(tight)
    requires Valid(WithNull(tight), v)
    ensures Valid(WithNull(loose), v)
  {
    if v.JNull? {
      WithNullAdmitsNull(tight);
      WithNullAdmitsNull(loose);
    } else {
      WithNullAddsOnlyNull(tight, v);
      WithNullKeeps(loose, v);
    }
  }

  /**
   * Where unions stay disjoint the cut-off only loosens: whatever passes the conversion begun at
   * one depth passes the one begun a level deeper, whose unions are the ones that must be disjoint.
   */
  lemma {:induction false} CutoffLoosens(getters: Getters, s: Source, depth: nat, v: Json)
    requires DisjointUnions(getters, s, depth + 1)
    requires Valid(Convert(getters, s, depth), v)
    ensures Valid(Convert(getters, s, depth + 1), v)
    decreases Budget(depth), 1, s, 1
  {
    if depth < MAX_DEPTH {
      if IsComposite(s) { CompositeLoosens(getters, s, depth, v); } else { WrapperLoosens(getters, s, depth, v); }
    }
  }

  lemma {:induction false} WrapperLoosens(getters: Getters, s: Source, depth: nat, v: Json)
    requires depth < MAX_DEPTH && DisjointUnions(getters, s, depth + 1) && Valid(Convert(getters, s, depth), v) && !IsComposite(s)
    ensures Valid(Convert(getters, s, depth + 1), v)
    decreases Budget(depth), 1, s, 0
  {
    match s
    case SOptional(wrapped) => CutoffLoosens(getters, wrapped, depth + 1, v);
    case SNullish(wrapped) => CutoffLoosens(getters, wrapped, depth + 1, v);
    case SNullable(wrapped) =>
      NullableLoosens(getters, wrapped, depth, v, Convert(getters, wrapped, depth + 1), Convert(getters, wrapped, depth + 2));
    case SLazy(getter) => if getter in getters { CutoffLoosens(getters, getters[getter], depth + 1, v); }
    case SRefined(base, _) => CutoffLoosens(getters, base, depth, v);
    case _ =>
  }

  lemma {:induction false} CompositeLoosens(getters: Getters, s: Source, depth: nat, v: Json)
    requires depth < MAX_DEPTH && DisjointUnions(getters, s, depth + 1) && Valid(Convert(getters, s, depth), v) && IsComposite(s)
    ensures Valid(Convert(getters, s, depth + 1), v)
    decreases Budget(depth), 1, s, 0
  {
    match s
    case SUnion(schemas) => UnionLoosens(getters, schemas, depth, v);
    case SIntersect(schemas) => IntersectLoosens(getters, schemas, depth, v);
    case SObject(_, entries) =>
      ObjectLoosens(getters, entries, depth, v.fields);
      PropertiesValid(PropertyTable(getters, entries, depth + 2), RequiredKeys(entries), v);
    case SRecord(value) => RecordLoosens(getters, value, depth, v, Convert(getters, value, depth + 2));
    case SArray(item) => ArrayLoosens(getters, item, depth, v, Convert(getters, item, depth + 1), Convert(getters, item, depth + 2));
  }

  lemma {:induction false} NullableLoosens(
    getters: Getters, wrapped: Source, depth: nat, v: Json, tight: Schema, loose: Schema
  )
    requires depth < MAX_DEPTH && DisjointUnions(getters, wrapped, depth + 2) && Valid(WithNull(tight), v)
    requires tight == Convert(getters, wrapped, depth + 1) && loose == Convert(getters, wrapped, depth + 2)
    ensures Valid(WithNull(loose), v)
    decreases Budget(depth), 0, 1
  {
    DeeperTakesNull(getters, wrapped, depth + 1, tight, loose);
    if Valid(tight, v) { EntryLoosens(getters, wrapped, depth, tight, loose, v); }
    WithNullLoosens(tight, loose, v);
  }

  lemma {:induction false} DeeperTakesNull(getters: Getters, s: Source, depth: nat, tight: Schema, loose: Schema)
    requires tight == Convert(getters, s, depth) && loose == Convert(getters, s, depth + 1)
    ensures Emitted(tight) && Emitted(loose) && (ExcludesNull(loose) ==> ExcludesNull(tight))
  {
    ConvertEmitted(getters, s, depth);
    ConvertEmitted(getters, s, depth + 1);
    if ExcludesNull(loose) { DeeperExcludesLess(getters, s, depth); }
  }

  lemma {:induction false} UnionLoosens(getters: Getters, schemas: seq<Source>, depth: nat, v: Json)
    requires depth < MAX_DEPTH && DisjointUnions(getters, SUnion(schemas), depth + 1)
    requires Valid(EMPTY.(oneOf := List(ConvertAll(getters, schemas, depth + 1))), v)
    ensures Valid(EMPTY.(oneOf := List(ConvertAll(getters, schemas, depth + 2))), v)
    decreases Budget(depth), 0, 1
  {
    var tight, loose := ConvertAll(getters, schemas, depth + 1), ConvertAll(getters, schemas, depth + 2);
    SomeOptionValid(tight, v);
    var i :| 0 <= i < |tight| && Valid(tight[i], v);
    EntryLoosens(getters, schemas[i], depth, tight[i], loose[i], v);
    OneOfValid(loose, i, v);
  }

  lemma {:induction false} SomeOptionValid(schemas: seq<Schema>, v: Json)
    requires Valid(EMPTY.(oneOf := List(schemas)), v)
    ensures exists i | 0 <= i < |schemas| :: Valid(schemas[i], v)
  {
  }

  lemma {:induction false} IntersectLoosens(getters: Getters, schemas: seq<Source>, depth: nat, v: Json)
    requires depth < MAX_DEPTH && forall i | 0 <= i < |schemas| :: DisjointUnions(getters, schemas[i], depth + 2)
    requires Valid(EMPTY.(allOf := List(ConvertAll(getters, schemas, depth + 1))), v)
    ensures Valid(EMPTY.(allOf := List(ConvertAll(getters, schemas, depth + 2))), v)
    decreases Budget(depth), 0
  {
    var tight, loose := ConvertAll(getters, schemas, depth + 1), ConvertAll(getters, schemas, depth + 2);
    forall i | 0 <= i < |loose|
      ensures Valid(loose[i], v)
    {
      assert Valid(tight[i], v);
      CutoffLoosens(getters, schemas[i], depth + 1, v);
    }
    AllOfValid(loose, v);
  }

  lemma {:induction false} RecordLoosens(getters: Getters, value: Source, depth: nat, v: Json, loose: Schema)
    requires depth < MAX_DEPTH && DisjointUnions(getters, value, depth + 2) && v.JObj?
    requires forall key | key in v.fields :: Valid(Convert(getters, value, depth + 1), v.fields[key])
    requires loose == Convert(getters, value, depth + 2)
    ensures Valid(EMPTY.(typ := One(TObject), additionalProperties := Some(loose)), v)
    decreases Budget(depth), 0, 1
  {
    forall key | key in v.fields
      ensures Valid(loose, v.fields[key])
    {
      EntryLoosens(getters, value, depth, Convert(getters, value, depth + 1), loose, v.fields[key]);
    }
    AdditionalValid(loose, v);
  }

  lemma {:induction false} ArrayLoosens(getters: Getters, item: Source, depth: nat, v: Json, tight: Schema, loose: Schema)
    requires depth < MAX_DEPTH && DisjointUnions(getters, item, depth + 2)
    requires v.JArr? && forall i | 0 <= i < |v.items| :: Valid(tight, v.items[i])
    requires tight == Convert(getters, item, depth + 1) && loose == Convert(getters, item, depth + 2)
    ensures Valid(EMPTY.(typ := One(TArray), items := Some(loose)), v)
    decreases Budget(depth), 0, 1
  {
    forall i | 0 <= i < |v.items|
      ensures Valid(loose, v.items[i])
    {
      EntryLoosens(getters, item, depth, tight, loose, v.items[i]);
    }
    ItemsValid(loose, v);
  }

  lemma {:induction false} ObjectLoosens(getters: Getters, entries: seq<Entry>, depth: nat, fields: map<string, Json>)
    requires depth < MAX_DEPTH
    requires forall i | 0 <= i < |entries| :: DisjointUnions(getters, entries[i].schema, depth + 2)
    requires PropertiesHold(PropertyTable(getters, entries, depth + 1), fields)
    ensures PropertiesHold(PropertyTable(getters, entries, depth + 2), fields)
    decreases Budget(depth), 0, 1
  {
    var tight, loose := PropertyTable(getters, entries, depth + 1), PropertyTable(getters, entries, depth + 2);
    forall key | key in loose && key in fields
      ensures Valid(loose[key], fields[key])
    {
      TableByLastEntry(getters, entries, depth + 1, key);
      TableByLastEntry(getters, entries, depth + 2, key);
      EntryLoosens(getters, LastEntry(entries, key).value.schema, depth, tight[key], loose[key], fields[key]);
    }
  }

  lemma {:induction false} EntryLoosens(getters: Getters, s: Source, depth: nat, tight: Schema, loose: Schema, v: Json)
    requires depth < MAX_DEPTH && DisjointUnions(getters, s, depth + 2)
    requires tight == Convert(getters, s, depth + 1) && loose == Convert(getters, s, depth + 2) && Valid(tight, v)
    ensures Valid(loose, v)
    decreases Budget(depth), 0, 0
  {
    CutoffLoosens(getters, s, depth + 1, v);
  }

  // ------------------------------------------------------------- without any unions

  predicate UnionFree(s: Source)
    decreases s
  {
    match s
    case SUnion(_) => false
    case SOptional(wrapped) => UnionFree(wrapped)
    case SNullish(wrapped) => UnionFree(wrapped)
    case SNullable(wrapped) => UnionFree(wrapped)
    case SIntersect(schemas) => forall i | 0 <= i < |schemas| :: UnionFree(schemas[i])
    case SObject(_, entries) => forall i | 0 <= i < |entries| :: UnionFree(entries[i].schema)
    case SRecord(value) => UnionFree(value)
    case SArray(item) => UnionFree(item)
    case SRefined(base, _) => UnionFree(base)
    case _ => true
  }

  predicate GettersUnionFree(getters: Getters) {
    forall getter | getter in getters :: UnionFree(getters[getter])
  }

  lemma {:induction false} NoUnionsAreDisjoint(getters: Getters, s: Source, depth: nat)
    requires UnionFree(s) && GettersUnionFree(getters)
    ensures DisjointUnions(getters, s, depth)
    decreases Budget(depth), s
  {
    if depth <= MAX_DEPTH {
      match s
      case SOptional(wrapped) => NoUnionsAreDisjoint(getters, wrapped, depth + 1);
      case SNullish(wrapped) => NoUnionsAreDisjoint(getters, wrapped, depth + 1);
      case SNullable(wrapped) => NoUnionsAreDisjoint(getters, wrapped, depth + 1);
      case SIntersect(schemas) =>
        forall i | 0 <= i < |schemas|
          ensures DisjointUnions(getters, schemas[i], depth + 1)
        {
          NoUnionsAreDisjoint(getters, schemas[i], depth + 1);
        }
      case SObject(_, entries) =>
        forall i | 0 <= i < |entries|
          ensures DisjointUnions(getters, entries[i].schema, depth + 1)
        {
          NoUnionsAreDisjoint(getters, entries[i].schema, depth + 1);
        }
      case SRecord(value) => NoUnionsAreDisjoint(getters, value, depth + 1);
      case SArray(item) => NoUnionsAreDisjoint(getters, item, depth + 1);
      case SLazy(getter) => if getter in getters { NoUnionsAreDisjoint(getters, getters[getter], depth + 1); }
      case SRefined(base, _) => NoUnionsAreDisjoint(getters, base, depth);
      case _ =>
    }
  }

  /** A schema without unions meets the condition at every depth. */
  lemma {:induction false} UnionFreeLoosens(getters: Getters, s: Source, depth: nat, v: Json)
    requires UnionFree(s) && GettersUnionFree(getters)
    requires Valid(Convert(getters, s, depth), v)
    ensures Valid(Convert(getters, s, depth + 1), v)
  {
    NoUnionsAreDisjoint(getters, s, depth + 1);
    CutoffLoosens(getters, s, depth, v);
  }

  predicate PropertiesHold(table: map<string, Schema>, fields: map<string, Json>) {
    forall key | key in table && key in fields :: Valid(table[key], fields[key])
  }
}
