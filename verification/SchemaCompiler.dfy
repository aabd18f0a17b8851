/**
 * The Valibot-to-JSON-Schema compiler behind the advertised MCP tool schemas.
 * `Accepts` is what the real validator accepts, `Convert` what the compiler
 * emits; the main theorem says the emitted schema rejects none of the accepted
 * values, on an explicit fragment.
 */
module SchemaCompiler {
  import Numbers
  import opened Wrappers
  import opened JsonSchema

  const MAX_DEPTH := 10
  const MAX_SAFE_INTEGER := Numbers.MAX_SAFE_INTEGER as real

  /** One step of a `pipe` on a number. A requirement that is not a number is `None`. */
  datatype Action =
    | Integer
    | MinValue(requirement: Option<real>)
    | MaxValue(requirement: Option<real>)
    | Check(test: real -> bool)

  datatype ObjectKind = Plainly | Strictly | Loosely

  datatype Entry = Entry(key: string, schema: Source)

  /** A Valibot schema. `SLazy` names a getter in an environment, so schemas can be cyclic. */
  datatype Source =
    | SString
    | SNumber(pipe: seq<Action>)
    | SBoolean
    | SNull
    | SDate
    | SAny
    | SLiteral(literal: Literal)
    | SPicklist(options: seq<Literal>)
    | SOptional(wrapped: Source)
    | SNullish(wrapped: Source)
    | SNullable(wrapped: Source)
    | SUnion(schemas: seq<Source>)
    | SIntersect(schemas: seq<Source>)
    | SObject(kind: ObjectKind, entries: seq<Entry>)
    | SRecord(value: Source)
    | SArray(item: Source)
    | SLazy(getter: string)
    | SRefined(base: Source, test: Json -> bool)  // a pipe of further checks on anything but a number

  type Getters = map<string, Source>

  // ------------------------------------------------------ the real validator

  predicate ActionAccepts(action: Action, n: real) {
    match action
    case Integer => IsInteger(n)
    case MinValue(requirement) => requirement.Some? ==> requirement.value <= n
    case MaxValue(requirement) => requirement.Some? ==> n <= requirement.value
    case Check(test) => test(n)
  }

  predicate PipeAccepts(pipe: seq<Action>, n: real) {
    forall i | 0 <= i < |pipe| :: ActionAccepts(pipe[i], n)
  }

  predicate IsOptional(s: Source) {
    match s
    case SOptional(_) => true
    case SNullish(_) => true
    case SRefined(base, _) => IsOptional(base)
    case _ => false
  }

  /** The validator accepts the JSON value within `steps` nested calls; cyclic schemas need no bound of their own. */
  predicate Accepts(getters: Getters, s: Source, v: Json, steps: nat)
    decreases steps
  {
    steps > 0 && match s
      case SString => v.JStr?
      case SNumber(pipe) => v.JNum? && PipeAccepts(pipe, v.n)
      case SBoolean => v.JBool?
      case SNull => v.JNull?
      case SDate => false
      case SAny => true
      case SLiteral(literal) => literal == Plain(v)
      case SPicklist(options) => Plain(v) in options
      case SOptional(wrapped) => Accepts(getters, wrapped, v, steps - 1)
      case SNullish(wrapped) => v.JNull? || Accepts(getters, wrapped, v, steps - 1)
      case SNullable(wrapped) => v.JNull? || Accepts(getters, wrapped, v, steps - 1)
      case SUnion(schemas) => exists i | 0 <= i < |schemas| :: Accepts(getters, schemas[i], v, steps - 1)
      case SIntersect(schemas) => forall i | 0 <= i < |schemas| :: Accepts(getters, schemas[i], v, steps - 1)
      case SObject(kind, entries) => v.JObj? && AcceptsEntries(getters, kind, entries, v.fields, steps)
      case SRecord(value) => v.JObj? && forall key | key in v.fields :: Accepts(getters, value, v.fields[key], steps - 1)
      case SArray(item) => v.JArr? && forall i | 0 <= i < |v.items| :: Accepts(getters, item, v.items[i], steps - 1)
      case SLazy(getter) => getter in getters && Accepts(getters, getters[getter], v, steps - 1)
      case SRefined(base, test) => test(v) && Accepts(getters, base, v, steps - 1)
  }

  predicate AcceptsEntries(getters: Getters, kind: ObjectKind, entries: seq<Entry>, fields: map<string, Json>, steps: nat)
    requires steps > 0
    decreases steps, 0
  {
    && (forall i | 0 <= i < |entries| ::
          if entries[i].key in fields then Accepts(getters, entries[i].schema, fields[entries[i].key], steps - 1)
          else IsOptional(entries[i].schema))
    && (kind.Strictly? ==> forall key | key in fields :: exists i | 0 <= i < |entries| :: entries[i].key == key)
  }

  // ------------------------------------------------------------ the compiler

  function LiteralJsonType(literal: Literal): Option<JsonType> {
    match literal
    case Plain(JStr(_)) => Some(TString)
    case Plain(JBool(_)) => Some(TBoolean)
    case Plain(JNum(n)) => Some(if IsInteger(n) then TInteger else TNumber)
    case Plain(JNull) => Some(TNull)
    case _ => None
  }

  predicate OfOneType(options: seq<Literal>) {
    options != [] && LiteralJsonType(options[0]).Some?
    && forall i | 0 <= i < |options| :: LiteralJsonType(options[i]) == LiteralJsonType(options[0])
  }

  function PicklistSchema(options: seq<Literal>): Schema {
    var listed := EMPTY.(enumeration := Some(options));
    if OfOneType(options) then listed.(typ := One(LiteralJsonType(options[0]).value)) else listed
  }

  function LiteralSchema(literal: Literal): Schema {
    match LiteralJsonType(literal)
    case Some(t) => EMPTY.(constant := Some(literal), typ := One(t))
    case None => if literal.Undefined? then EMPTY else EMPTY.(constant := Some(literal))
  }

  /** The emitted bounds after the pipe's actions have been applied in order. */
  function NumberSchema(pipe: seq<Action>): Schema {
    if pipe == [] then EMPTY.(typ := One(TNumber))
    else
      var before := NumberSchema(pipe[..|pipe| - 1]);
      match pipe[|pipe| - 1]
      case Integer => before.(typ := One(TInteger), maximum := Some(MAX_SAFE_INTEGER))
      case MinValue(Some(requirement)) => before.(minimum := Some(requirement))
      case MaxValue(Some(requirement)) => before.(maximum := Some(requirement))
      case _ => before
  }

  function WithNull(s: Schema): Schema {
    if s.typ.Many? then s.(typ := Many(s.typ.ts + [TNull]))
    else if s.anyOf.List? then EMPTY.(anyOf := List(s.anyOf.schemas + [EMPTY.(typ := One(TNull))]))
    else if s.typ.One? then s.(typ := Many([s.typ.t, TNull]))
    else EMPTY.(anyOf := List([s, EMPTY.(typ := One(TNull))]))
  }

  function Budget(depth: nat): nat {
    if depth > MAX_DEPTH then 0 else MAX_DEPTH + 1 - depth
  }

  /** `valibotInnerConvert`. Each nested schema is one deeper, so cycles end at the cut-off. */
  function Convert(getters: Getters, s: Source, depth: nat): Schema
    decreases Budget(depth), 1, s
  {
    if depth > MAX_DEPTH then EMPTY
    else match s
      case SString => EMPTY.(typ := One(TString))
      case SNumber(pipe) => NumberSchema(pipe)
      case SBoolean => EMPTY.(typ := One(TBoolean))
      case SNull => EMPTY.(typ := One(TNull))
      case SDate => EMPTY.(typ := One(TString))
      case SAny => EMPTY
      case SLiteral(literal) => LiteralSchema(literal)
      case SPicklist(options) => PicklistSchema(options)
      case SOptional(wrapped) => Convert(getters, wrapped, depth + 1)
      case SNullish(wrapped) => Convert(getters, wrapped, depth + 1)
      case SNullable(wrapped) => WithNull(Convert(getters, wrapped, depth + 1))
      case SUnion(schemas) => EMPTY.(oneOf := List(ConvertAll(getters, schemas, depth + 1)))
      case SIntersect(schemas) => EMPTY.(allOf := List(ConvertAll(getters, schemas, depth + 1)))
      case SObject(_, entries) =>
        EMPTY.(typ := One(TObject), properties := Properties(PropertyTable(getters, entries, depth + 1)),
               required := RequiredKeys(entries))
      case SRecord(value) => EMPTY.(typ := One(TObject), additionalProperties := Some(Convert(getters, value, depth + 1)))
      case SArray(item) => EMPTY.(typ := One(TArray), items := Some(Convert(getters, item, depth + 1)))
      case SLazy(getter) => if getter in getters then Convert(getters, getters[getter], depth + 1) else EMPTY
      case SRefined(base, _) => Convert(getters, base, depth)
  }

  function ConvertAll(getters: Getters, schemas: seq<Source>, depth: nat): (all: seq<Schema>)
    ensures |all| == |schemas|
    ensures forall i | 0 <= i < |schemas| :: all[i] == Convert(getters, schemas[i], depth)
    decreases Budget(depth), 2, |schemas|
  {
    if schemas == [] then []
    else
      assert schemas == schemas[..|schemas| - 1] + [schemas[|schemas| - 1]];
      ConvertAll(getters, schemas[..|schemas| - 1], depth) + [Convert(getters, schemas[|schemas| - 1], depth)]
  }

  /** `properties[key] = ...` for each entry in turn, so a repeated key keeps its last schema. */
  function PropertyTable(getters: Getters, entries: seq<Entry>, depth: nat): (table: map<string, Schema>)
    ensures forall key | key in table :: exists i | 0 <= i < |entries| ::
              entries[i].key == key && table[key] == Convert(getters, entries[i].schema, depth)
    decreases Budget(depth), 2, |entries|
  {
    if entries == [] then map[]
    else
      var last := entries[|entries| - 1];
      var before := PropertyTable(getters, entries[..|entries| - 1], depth);
      before[last.key := Convert(getters, last.schema, depth)]
  }

  function RequiredKeys(entries: seq<Entry>): (keys: seq<string>)
    ensures forall key :: key in keys <==> exists i | 0 <= i < |entries| :: entries[i].key == key && !IsOptional(entries[i].schema)
  {
    if entries == [] then []
    else
      var last := entries[|entries| - 1];
      var before := RequiredKeys(entries[..|entries| - 1]);
      if IsOptional(last.schema) then before else before + [last.key]
  }

  /** `valibotToJsonSchema`: the draft is declared unless the schema is an object without properties. */
  function ToJsonSchema(getters: Getters, s: Source): Schema {
    var converted := Convert(getters, s, 0);
    if converted.typ == One(TObject) && converted.properties == Properties(map[]) && converted.required == []
    then converted
    else converted.(declaresDraft := true)
  }

  // ------------------------------------------- the compiler as the source runs it

  /** The number case: one pass over the pipe, filling the result in place. */
  method NumberConvert(pipe: seq<Action>) returns (result: Schema)
    ensures result == NumberSchema(pipe)
  {
    var integer := false;
    result := EMPTY.(typ := One(TNumber));
    for i := 0 to |pipe|
      invariant (if integer then result.(typ := One(TInteger)) else result) == NumberSchema(pipe[..i])
    {
      assert pipe[..i + 1][..i] == pipe[..i];
      match pipe[i] {
        case Integer =>
          integer := true;
          result := result.(maximum := Some(MAX_SAFE_INTEGER));
        case MinValue(Some(requirement)) => result := result.(minimum := Some(requirement));
        case MaxValue(Some(requirement)) => result := result.(maximum := Some(requirement));
        case _ =>
      }
    }
    assert pipe[..|pipe|] == pipe;
    if integer {
      result := result.(typ := One(TInteger));
    }
  }

  /** The object case: one pass over the entries, filling `properties` and `required`. */
  method ObjectConvert(getters: Getters, entries: seq<Entry>, depth: nat) returns (result: Schema)
    requires depth <= MAX_DEPTH
    ensures result == EMPTY.(typ := One(TObject), properties := Properties(PropertyTable(getters, entries, depth + 1)),
                             required := RequiredKeys(entries))
    decreases Budget(depth), 0
  {
    var properties: map<string, Schema> := map[];
    var required: seq<string> := [];
    for i := 0 to |entries|
      invariant properties == PropertyTable(getters, entries[..i], depth + 1)
      invariant required == RequiredKeys(entries[..i])
    {
      TableSnoc(getters, entries, i, depth + 1);
      var converted := InnerConvert(getters, entries[i].schema, depth + 1);
      properties := properties[entries[i].key := converted];
      if !IsOptional(entries[i].schema) {
        required := required + [entries[i].key];
      }
    }
    assert entries[..|entries|] == entries;
    result := EMPTY.(typ := One(TObject), properties := Properties(properties), required := required);
  }

  lemma {:induction false} TableSnoc(getters: Getters, entries: seq<Entry>, i: nat, depth: nat)
    requires i < |entries|
    ensures PropertyTable(getters, entries[..i + 1], depth)
         == PropertyTable(getters, entries[..i], depth)[entries[i].key := Convert(getters, entries[i].schema, depth)]
    ensures RequiredKeys(entries[..i + 1])
         == RequiredKeys(entries[..i]) + if IsOptional(entries[i].schema) then [] else [entries[i].key]
  {
    assert entries[..i + 1][..i] == entries[..i];
  }

  method OptionsConvert(getters: Getters, schemas: seq<Source>, depth: nat) returns (all: seq<Schema>)
    ensures all == ConvertAll(getters, schemas, depth)
    decreases Budget(depth), 2
  {
    all := [];
    for i := 0 to |schemas|
      invariant |all| == i
      invariant forall j | 0 <= j < i :: all[j] == Convert(getters, schemas[j], depth)
    {
      var converted := InnerConvert(getters, schemas[i], depth);
      all := all + [converted];
    }
  }

  method InnerConvert(getters: Getters, s: Source, depth: nat) returns (result: Schema)
    ensures result == Convert(getters, s, depth)
    decreases Budget(depth), 2, s
  {
    if depth > MAX_DEPTH {
      return EMPTY;
    }
    match s {
      case SNumber(pipe) => result := NumberConvert(pipe);
      case SOptional(wrapped) => result := InnerConvert(getters, wrapped, depth + 1);
      case SNullish(wrapped) => result := InnerConvert(getters, wrapped, depth + 1);
      case SNullable(wrapped) =>
        var inner := InnerConvert(getters, wrapped, depth + 1);
        result := WithNull(inner);
      case SLazy(getter) =>
        if getter in getters {
          result := InnerConvert(getters, getters[getter], depth + 1);
        } else {
          result := EMPTY;
        }
      case SRefined(base, _) => result := InnerConvert(getters, base, depth);
      case _ =>
        if IsComposite(s) {
          result := CompositeConvert(getters, s, depth);
        } else {
          result := Convert(getters, s, depth);
        }
    }
  }

  /** The cases with several nested schemas or a container around one. */
  method CompositeConvert(getters: Getters, s: Source, depth: nat) returns (result: Schema)
    requires depth <= MAX_DEPTH && IsComposite(s)
    ensures result == Convert(getters, s, depth)
    decreases Budget(depth), 1
  {
    match s {
      case SUnion(schemas) =>
        var all := OptionsConvert(getters, schemas, depth + 1);
        result := EMPTY.(oneOf := List(all));
      case SIntersect(schemas) =>
        var all := OptionsConvert(getters, schemas, depth + 1);
        result := EMPTY.(allOf := List(all));
      case SObject(_, entries) => result := ObjectConvert(getters, entries, depth);
      case SRecord(value) =>
        var inner := InnerConvert(getters, value, depth + 1);
        result := EMPTY.(typ := One(TObject), additionalProperties := Some(inner));
      case SArray(item) =>
        var inner := InnerConvert(getters, item, depth + 1);
        result := EMPTY.(typ := One(TArray), items := Some(inner));
    }
  }

  // ---------------------------------------------------------- numbers, exactly

  /** The compiler's own cap is the last bound it wrote: an integer check with no numeric maximum after it. */
  predicate SafeIntegerCap(pipe: seq<Action>) {
    pipe != [] && match pipe[|pipe| - 1]
      case Integer => true
      case MaxValue(Some(_)) => false
      case _ => SafeIntegerCap(pipe[..|pipe| - 1])
  }

  lemma {:induction false} NumberBounds(pipe: seq<Action>, n: real)
    requires PipeAccepts(pipe, n)
    ensures var s := NumberSchema(pipe);
      && s == EMPTY.(typ := s.typ, minimum := s.minimum, maximum := s.maximum)
      && (s.typ == One(TNumber) || (s.typ == One(TInteger) && IsInteger(n)))
      && (s.minimum.Some? ==> s.minimum.value <= n)
      && (if SafeIntegerCap(pipe) then s.maximum == Some(MAX_SAFE_INTEGER) else s.maximum.Some? ==> n <= s.maximum.value)
  {
    if pipe != [] {
      var last := pipe[|pipe| - 1];
      assert ActionAccepts(last, n);
      NumberBounds(pipe[..|pipe| - 1], n);
    }
  }

  /** A number the validator accepts is rejected exactly when the integer cap is in force and exceeded. */
  lemma {:induction false} NumberExact(pipe: seq<Action>, n: real)
    requires PipeAccepts(pipe, n)
    ensures Valid(NumberSchema(pipe), JNum(n)) <==> (SafeIntegerCap(pipe) ==> n <= MAX_SAFE_INTEGER)
  {
    NumberBounds(pipe, n);
  }

  // ----------------------------------------------------------- null, exactly

  /** Closed-value keywords that leave no room for null. */
  predicate ExcludesNull(s: Schema) {
    !s.typ.NoType?
    && ((s.constant.Some? && s.constant.value != Plain(JNull)) || (s.enumeration.Some? && Plain(JNull) !in s.enumeration.value))
  }

  /** Emitted schemas with a `type` carry no combinators; those with `anyOf` carry nothing else. */
  predicate Emitted(s: Schema) {
    && (!s.typ.NoType? ==> s.anyOf.NoList? && s.allOf.NoList? && s.oneOf.NoList?)
    && (s.anyOf.List? ==> s == EMPTY.(anyOf := s.anyOf))
  }

  lemma {:induction false} ConvertEmitted(getters: Getters, s: Source, depth: nat)
    ensures Emitted(Convert(getters, s, depth))
    decreases Budget(depth), s
  {
    if depth <= MAX_DEPTH {
      match s
      case SOptional(wrapped) => ConvertEmitted(getters, wrapped, depth + 1);
      case SNullish(wrapped) => ConvertEmitted(getters, wrapped, depth + 1);
      case SNullable(wrapped) => ConvertEmitted(getters, wrapped, depth + 1);
      case SLazy(getter) => if getter in getters { ConvertEmitted(getters, getters[getter], depth + 1); }
      case SRefined(base, _) => ConvertEmitted(getters, base, depth);
      case SNumber(pipe) => NumberEmitted(pipe);
      case _ =>
    }
  }

  lemma {:induction false} NumberEmitted(pipe: seq<Action>)
    ensures NumberSchema(pipe) == EMPTY.(typ := NumberSchema(pipe).typ, minimum := NumberSchema(pipe).minimum,
                                         maximum := NumberSchema(pipe).maximum)
  {
    if pipe != [] { NumberEmitted(pipe[..|pipe| - 1]); }
  }

  lemma {:induction false} WithNullKeeps(s: Schema, v: Json)
    requires Emitted(s) && Valid(s, v)
    ensures Valid(WithNull(s), v)
  {
    var nullOnly := EMPTY.(typ := One(TNull));
    if s.typ.Many? {
      var i :| 0 <= i < |s.typ.ts| && HasType(v, s.typ.ts[i]);
      assert HasType(v, (s.typ.ts + [TNull])[i]);
    } else if s.anyOf.List? {
      var i :| 0 <= i < |s.anyOf.schemas| && Valid(s.anyOf.schemas[i], v);
      assert Valid((s.anyOf.schemas + [nullOnly])[i], v);
    } else if s.typ.One? {
      assert HasType(v, [s.typ.t, TNull][0]);
    } else {
      assert Valid([s, nullOnly][0], v);
    }
  }

  /** The nullable wrapper admits null exactly when no `const` or `enum` beside a `type` shuts it out. */
  lemma {:induction false} WithNullAdmitsNull(s: Schema)
    requires Emitted(s)
    ensures Valid(WithNull(s), JNull) <==> !ExcludesNull(s)
  {
    var nullOnly := EMPTY.(typ := One(TNull));
    assert Valid(nullOnly, JNull);
    if s.typ.Many? {
      assert HasType(JNull, (s.typ.ts + [TNull])[|s.typ.ts|]);
    } else if s.anyOf.List? {
      assert Valid((s.anyOf.schemas + [nullOnly])[|s.anyOf.schemas|], JNull);
    } else if s.typ.One? {
      assert HasType(JNull, [s.typ.t, TNull][1]);
    } else {
      assert Valid([s, nullOnly][1], JNull);
    }
  }

  // ------------------------------------------------------ the soundness theorem

  ghost predicate PairwiseDisjoint(schemas: seq<Schema>) {
    forall i, j, v: Json | 0 <= i < |schemas| && 0 <= j < |schemas| && i != j && Valid(schemas[i], v) :: !Valid(schemas[j], v)
  }

  /**
   * The schemas whose conversion, started at `depth`, loses nothing: `nullish` only over schemas that
   * already take null, nullable not over closed values without null, and unions only of options that
   * stay disjoint as converted.
   */
  ghost predicate Faithful(getters: Getters, s: Source, depth: nat)
    decreases Budget(depth), s
  {
    depth > MAX_DEPTH || match s
      case SOptional(wrapped) => Faithful(getters, wrapped, depth + 1)
      case SNullish(wrapped) => Faithful(getters, wrapped, depth + 1) && Valid(Convert(getters, wrapped, depth + 1), JNull)
      case SNullable(wrapped) => Faithful(getters, wrapped, depth + 1) && !ExcludesNull(Convert(getters, wrapped, depth + 1))
      case SUnion(schemas) =>
        (forall i | 0 <= i < |schemas| :: Faithful(getters, schemas[i], depth + 1))
        && PairwiseDisjoint(ConvertAll(getters, schemas, depth + 1))
      case SIntersect(schemas) => forall i | 0 <= i < |schemas| :: Faithful(getters, schemas[i], depth + 1)
      case SObject(_, entries) => forall i | 0 <= i < |entries| :: Faithful(getters, entries[i].schema, depth + 1)
      case SRecord(value) => Faithful(getters, value, depth + 1)
      case SArray(item) => Faithful(getters, item, depth + 1)
      case SLazy(getter) => getter in getters ==> Faithful(getters, getters[getter], depth + 1)
      case SRefined(base, _) => Faithful(getters, base, depth)
      case _ => true
  }

  lemma {:induction false} PicklistSound(options: seq<Literal>, v: Json)
    requires Plain(v) in options
    ensures Valid(PicklistSchema(options), v)
  {
    var i :| 0 <= i < |options| && options[i] == Plain(v);
    assert LiteralJsonType(options[i]).Some? ==> HasType(v, LiteralJsonType(options[i]).value);
  }

  // What each emitted combinator needs in order to accept a value.

  lemma {:induction false} OneOfValid(schemas: seq<Schema>, i: int, v: Json)
    requires PairwiseDisjoint(schemas) && 0 <= i < |schemas| && Valid(schemas[i], v)
    ensures Valid(EMPTY.(oneOf := List(schemas)), v)
  {
  }

  lemma {:induction false} AllOfValid(schemas: seq<Schema>, v: Json)
    requires forall i | 0 <= i < |schemas| :: Valid(schemas[i], v)
    ensures Valid(EMPTY.(allOf := List(schemas)), v)
  {
  }

  lemma {:induction false} ItemsValid(item: Schema, v: Json)
    requires v.JArr? && forall i | 0 <= i < |v.items| :: Valid(item, v.items[i])
    ensures Valid(EMPTY.(typ := One(TArray), items := Some(item)), v)
  {
  }

  lemma {:induction false} AdditionalValid(value: Schema, v: Json)
    requires v.JObj? && forall key | key in v.fields :: Valid(value, v.fields[key])
    ensures Valid(EMPTY.(typ := One(TObject), additionalProperties := Some(value)), v)
  {
  }

  lemma {:induction false} PropertiesValid(table: map<string, Schema>, required: seq<string>, v: Json)
    requires v.JObj?
    requires forall key | key in table && key in v.fields :: Valid(table[key], v.fields[key])
    requires forall key | key in required :: key in v.fields
    ensures Valid(EMPTY.(typ := One(TObject), properties := Properties(table), required := required), v)
  {
  }

  /**
   * Meaning preservation: for every schema in the fragment, cyclic or not, and at every depth,
   * the emitted schema accepts each value the validator accepts.
   */
  lemma {:induction false} ConvertSound(getters: Getters, s: Source, depth: nat, v: Json, steps: nat)
    requires Accepts(getters, s, v, steps)
    requires Faithful(getters, s, depth)
    requires NumbersAtMost(v, MAX_SAFE_INTEGER)
    ensures Valid(Convert(getters, s, depth), v)
    decreases steps, 1, 1
  {
    if IsComposite(s) {
      CompositeSound(getters, s, depth, v, steps);
    } else if IsWrapper(s) {
      WrapperSound(getters, s, depth, v, steps);
    } else {
      LeafSound(getters, s, depth, v, steps);
    }
  }

  predicate IsComposite(s: Source) {
    s.SUnion? || s.SIntersect? || s.SObject? || s.SRecord? || s.SArray?
  }

  predicate IsWrapper(s: Source) {
    s.SOptional? || s.SNullish? || s.SNullable? || s.SLazy? || s.SRefined?
  }

  lemma {:induction false} LeafSound(getters: Getters, s: Source, depth: nat, v: Json, steps: nat)
    requires Accepts(getters, s, v, steps) && NumbersAtMost(v, MAX_SAFE_INTEGER) && !IsComposite(s) && !IsWrapper(s)
    ensures Valid(Convert(getters, s, depth), v)
  {
    match s
    case SNumber(pipe) => NumberExact(pipe, v.n);
    case SPicklist(options) => PicklistSound(options, v);
    case _ =>
  }

  lemma {:induction false} WrapperSound(getters: Getters, s: Source, depth: nat, v: Json, steps: nat)
    requires Accepts(getters, s, v, steps) && Faithful(getters, s, depth) && NumbersAtMost(v, MAX_SAFE_INTEGER) && IsWrapper(s)
    ensures Valid(Convert(getters, s, depth), v)
    decreases steps, 1, 0
  {
    if depth <= MAX_DEPTH {
      match s
      case SOptional(wrapped) => ConvertSound(getters, wrapped, depth + 1, v, steps - 1);
      case SNullish(wrapped) => if !v.JNull? { ConvertSound(getters, wrapped, depth + 1, v, steps - 1); }
      case SNullable(wrapped) => NullableSound(getters, wrapped, depth, v, steps, Convert(getters, wrapped, depth + 1));
      case SLazy(getter) => ConvertSound(getters, getters[getter], depth + 1, v, steps - 1);
      case SRefined(base, _) => ConvertSound(getters, base, depth, v, steps - 1);
    }
  }

  lemma {:induction false} CompositeSound(getters: Getters, s: Source, depth: nat, v: Json, steps: nat)
    requires Accepts(getters, s, v, steps) && Faithful(getters, s, depth) && NumbersAtMost(v, MAX_SAFE_INTEGER) && IsComposite(s)
    ensures Valid(Convert(getters, s, depth), v)
    decreases steps, 1, 0
  {
    if depth <= MAX_DEPTH {
      match s
      case SUnion(schemas) => UnionSound(getters, schemas, depth, v, steps);
      case SIntersect(schemas) => IntersectSound(getters, schemas, depth, v, steps);
      case SObject(kind, entries) => ObjectSound(getters, kind, entries, depth, v, steps);
      case SRecord(value) => RecordSound(getters, value, depth, v, steps, Convert(getters, value, depth + 1));
      case SArray(item) => ArraySound(getters, item, depth, v, steps);
    }
  }

  lemma {:induction false} NullableSound(getters: Getters, wrapped: Source, depth: nat, v: Json, steps: nat, inner: Schema)
    requires depth <= MAX_DEPTH && steps > 0 && NumbersAtMost(v, MAX_SAFE_INTEGER)
    requires v.JNull? || Accepts(getters, wrapped, v, steps - 1)
    requires Faithful(getters, wrapped, depth + 1) && inner == Convert(getters, wrapped, depth + 1) && !ExcludesNull(inner)
    ensures Valid(WithNull(inner), v)
    decreases steps, 0
  {
    ConvertEmitted(getters, wrapped, depth + 1);
    if !v.JNull? { NestedSound(getters, wrapped, depth + 1, v, steps - 1, inner); }
    WithNullTakes(inner, v);
  }

  lemma {:induction false} WithNullTakes(s: Schema, v: Json)
    requires Emitted(s) && !ExcludesNull(s) && (v.JNull? || Valid(s, v))
    ensures Valid(WithNull(s), v)
  {
    if v.JNull? { WithNullAdmitsNull(s); } else { WithNullKeeps(s, v); }
  }

  lemma {:induction false} UnionSound(getters: Getters, schemas: seq<Source>, depth: nat, v: Json, steps: nat)
    requires depth <= MAX_DEPTH && steps > 0 && NumbersAtMost(v, MAX_SAFE_INTEGER)
    requires exists i | 0 <= i < |schemas| :: Accepts(getters, schemas[i], v, steps - 1)
    requires forall i | 0 <= i < |schemas| :: Faithful(getters, schemas[i], depth + 1)
    requires PairwiseDisjoint(ConvertAll(getters, schemas, depth + 1))
    ensures Valid(EMPTY.(oneOf := List(ConvertAll(getters, schemas, depth + 1))), v)
    decreases steps, 0
  {
    var i :| 0 <= i < |schemas| && Accepts(getters, schemas[i], v, steps - 1);
    ConvertSound(getters, schemas[i], depth + 1, v, steps - 1);
    OneOfValid(ConvertAll(getters, schemas, depth + 1), i, v);
  }

  lemma {:induction false} IntersectSound(getters: Getters, schemas: seq<Source>, depth: nat, v: Json, steps: nat)
    requires depth <= MAX_DEPTH && steps > 0 && NumbersAtMost(v, MAX_SAFE_INTEGER)
    requires forall i | 0 <= i < |schemas| :: Accepts(getters, schemas[i], v, steps - 1)
    requires forall i | 0 <= i < |schemas| :: Faithful(getters, schemas[i], depth + 1)
    ensures Valid(EMPTY.(allOf := List(ConvertAll(getters, schemas, depth + 1))), v)
    decreases steps, 0
  {
    var all := ConvertAll(getters, schemas, depth + 1);
    forall i | 0 <= i < |all|
      ensures Valid(all[i], v)
    {
      ConvertSound(getters, schemas[i], depth + 1, v, steps - 1);
    }
    AllOfValid(all, v);
  }

  lemma {:induction false} RecordSound(getters: Getters, value: Source, depth: nat, v: Json, steps: nat, inner: Schema)
    requires depth <= MAX_DEPTH && steps > 0 && NumbersAtMost(v, MAX_SAFE_INTEGER) && v.JObj?
    requires forall key | key in v.fields :: Accepts(getters, value, v.fields[key], steps - 1)
    requires Faithful(getters, value, depth + 1) && inner == Convert(getters, value, depth + 1)
    ensures Valid(EMPTY.(typ := One(TObject), additionalProperties := Some(inner)), v)
    decreases steps, 0
  {
    forall key | key in v.fields
      ensures Valid(inner, v.fields[key])
    {
      FieldBound(v, MAX_SAFE_INTEGER, key);
      NestedSound(getters, value, depth + 1, v.fields[key], steps - 1, inner);
    }
    AdditionalValid(inner, v);
  }

  lemma {:induction false} FieldBound(v: Json, bound: real, key: string)
    requires v.JObj? && key in v.fields && NumbersAtMost(v, bound)
    ensures NumbersAtMost(v.fields[key], bound)
  {
  }

  lemma {:induction false} NestedSound(getters: Getters, s: Source, depth: nat, v: Json, steps: nat, converted: Schema)
    requires Accepts(getters, s, v, steps) && Faithful(getters, s, depth) && NumbersAtMost(v, MAX_SAFE_INTEGER)
    requires converted == Convert(getters, s, depth)
    ensures Valid(converted, v)
    decreases steps, 2
  {
    ConvertSound(getters, s, depth, v, steps);
  }

  lemma {:induction false} ArraySound(getters: Getters, item: Source, depth: nat, v: Json, steps: nat)
    requires depth <= MAX_DEPTH && steps > 0 && NumbersAtMost(v, MAX_SAFE_INTEGER) && v.JArr?
    requires forall i | 0 <= i < |v.items| :: Accepts(getters, item, v.items[i], steps - 1)
    requires Faithful(getters, item, depth + 1)
    ensures Valid(EMPTY.(typ := One(TArray), items := Some(Convert(getters, item, depth + 1))), v)
    decreases steps, 0
  {
    forall i | 0 <= i < |v.items|
      ensures Valid(Convert(getters, item, depth + 1), v.items[i])
    {
      ConvertSound(getters, item, depth + 1, v.items[i], steps - 1);
    }
    ItemsValid(Convert(getters, item, depth + 1), v);
  }

  lemma {:induction false} ObjectSound(
    getters: Getters, kind: ObjectKind, entries: seq<Entry>, depth: nat, v: Json, steps: nat
  )
    requires depth <= MAX_DEPTH && steps > 0 && NumbersAtMost(v, MAX_SAFE_INTEGER) && v.JObj?
    requires AcceptsEntries(getters, kind, entries, v.fields, steps)
    requires forall i | 0 <= i < |entries| :: Faithful(getters, entries[i].schema, depth + 1)
    ensures Valid(EMPTY.(typ := One(TObject), properties := Properties(PropertyTable(getters, entries, depth + 1)),
                         required := RequiredKeys(entries)), v)
    decreases steps, 0
  {
    var table := PropertyTable(getters, entries, depth + 1);
    forall key | key in table && key in v.fields
      ensures Valid(table[key], v.fields[key])
    {
      var i :| 0 <= i < |entries| && entries[i].key == key && table[key] == Convert(getters, entries[i].schema, depth + 1);
      ConvertSound(getters, entries[i].schema, depth + 1, v.fields[key], steps - 1);
    }
    PropertiesValid(table, RequiredKeys(entries), v);
  }

  lemma {:induction false} DraftIsNoConstraint(getters: Getters, s: Source, v: Json)
    ensures Valid(ToJsonSchema(getters, s), v) <==> Valid(Convert(getters, s, 0), v)
  {
    DeclaredIsTheSame(Convert(getters, s, 0), v);
  }

  lemma {:induction false} DeclaredIsTheSame(schema: Schema, v: Json)
    ensures Valid(schema.(declaresDraft := true), v) <==> Valid(schema, v)
  {
  }

  /** The schema a tool advertises never rejects an argument its validator would accept. */
  lemma {:induction false} AdvertisedSchemaSound(getters: Getters, s: Source, v: Json, steps: nat)
    requires Accepts(getters, s, v, steps)
    requires Faithful(getters, s, 0)
    requires NumbersAtMost(v, MAX_SAFE_INTEGER)
    ensures Valid(ToJsonSchema(getters, s), v)
  {
    ConvertSound(getters, s, 0, v, steps);
    DraftIsNoConstraint(getters, s, v);
  }

  // ----------------------------------------- unions that are disjoint by their tags

  /** The entry whose schema a repeated key keeps. */
  function LastEntry(entries: seq<Entry>, key: string): (last: Option<Entry>)
    ensures last.Some? ==> last.value in entries
  {
    if entries == [] then None
    else if entries[|entries| - 1].key == key then Some(entries[|entries| - 1])
    else LastEntry(entries[..|entries| - 1], key)
  }

  lemma {:induction false} TableByLastEntry(getters: Getters, entries: seq<Entry>, depth: nat, key: string)
    ensures key in PropertyTable(getters, entries, depth) <==> LastEntry(entries, key).Some?
    ensures key in PropertyTable(getters, entries, depth) ==>
              PropertyTable(getters, entries, depth)[key] == Convert(getters, LastEntry(entries, key).value.schema, depth)
  {
    if entries != [] { TableByLastEntry(getters, entries[..|entries| - 1], depth, key); }
  }

  /** An emitted object schema that demands `tag` and pins it to one value. */
  predicate Tagged(s: Schema, tag: string, value: Literal) {
    s.typ == One(TObject) && tag in s.required
    && s.properties.Properties? && tag in s.properties.table && s.properties.table[tag].constant == Some(value)
  }

  lemma {:induction false} TaggedValue(s: Schema, tag: string, value: Literal, v: Json)
    requires Tagged(s, tag, value) && Valid(s, v)
    ensures v.JObj? && tag in v.fields && value == Plain(v.fields[tag])
  {
    assert Valid(s.properties.table[tag], v.fields[tag]);
  }

  /** Emitted schemas told apart by a discriminator are disjoint. */
  lemma {:induction false} TaggedVariantsAreDisjoint(schemas: seq<Schema>, tag: string, values: seq<Literal>)
    requires |values| == |schemas|
    requires forall i | 0 <= i < |schemas| :: Tagged(schemas[i], tag, values[i])
    requires forall i, j | 0 <= i < j < |values| :: values[i] != values[j]
    ensures PairwiseDisjoint(schemas)
  {
    forall i, j, v: Json | 0 <= i < |schemas| && 0 <= j < |schemas| && i != j && Valid(schemas[i], v)
      ensures !Valid(schemas[j], v)
    {
      TaggedValue(schemas[i], tag, values[i], v);
      if Valid(schemas[j], v) { TaggedValue(schemas[j], tag, values[j], v); }
    }
  }

  /** A source variant: an object whose entry for the tag is a literal. */
  predicate IsVariant(s: Source, tag: string, value: Literal) {
    s.SObject? && !value.Undefined? && LastEntry(s.entries, tag) == Some(Entry(tag, SLiteral(value)))
  }

  lemma {:induction false} VariantIsTagged(
    getters: Getters, s: Source, tag: string, value: Literal, depth: nat, converted: Schema
  )
    requires IsVariant(s, tag, value) && depth < MAX_DEPTH && converted == Convert(getters, s, depth)
    ensures Tagged(converted, tag, value)
  {
    var table, required := PropertyTable(getters, s.entries, depth + 1), RequiredKeys(s.entries);
    ObjectSchemaShape(getters, s.kind, s.entries, depth, table, required);
    VariantFields(getters, s.entries, tag, value, depth + 1, table, required);
    TaggedByShape(converted, table, required, tag, value);
  }

  lemma {:induction false} VariantFields(
    getters: Getters, entries: seq<Entry>, tag: string, value: Literal, depth: nat, table: map<string, Schema>, required: seq<string>
  )
    requires LastEntry(entries, tag) == Some(Entry(tag, SLiteral(value))) && !value.Undefined? && depth <= MAX_DEPTH
    requires table == PropertyTable(getters, entries, depth) && required == RequiredKeys(entries)
    ensures tag in required && tag in table && table[tag].constant == Some(value)
  {
    TagIsInTable(getters, entries, tag, value, depth, table);
    TagIsRequired(entries, tag, value);
  }

  lemma {:induction false} TagIsInTable(
    getters: Getters, entries: seq<Entry>, tag: string, value: Literal, depth: nat, table: map<string, Schema>
  )
    requires LastEntry(entries, tag) == Some(Entry(tag, SLiteral(value))) && !value.Undefined? && depth <= MAX_DEPTH
    requires table == PropertyTable(getters, entries, depth)
    ensures tag in table && table[tag].constant == Some(value)
  {
    TableByLastEntry(getters, entries, depth, tag);
    LiteralIsPinned(getters, value, depth);
  }

  lemma {:induction false} TaggedByShape(
    s: Schema, table: map<string, Schema>, required: seq<string>, tag: string, value: Literal
  )
    requires s == EMPTY.(typ := One(TObject), properties := Properties(table), required := required)
    requires tag in required && tag in table && table[tag].constant == Some(value)
    ensures Tagged(s, tag, value)
  {
  }

  lemma {:induction false} LiteralIsPinned(getters: Getters, value: Literal, depth: nat)
    requires depth <= MAX_DEPTH && !value.Undefined?
    ensures Convert(getters, SLiteral(value), depth).constant == Some(value)
  {
  }

  lemma {:induction false} TagIsRequired(entries: seq<Entry>, tag: string, value: Literal)
    requires LastEntry(entries, tag) == Some(Entry(tag, SLiteral(value)))
    ensures tag in RequiredKeys(entries)
  {
    var i :| 0 <= i < |entries| && entries[i] == Entry(tag, SLiteral(value));
  }

  lemma {:induction false} ObjectSchemaShape(
    getters: Getters, kind: ObjectKind, entries: seq<Entry>, depth: nat, table: map<string, Schema>, required: seq<string>
  )
    requires depth <= MAX_DEPTH && table == PropertyTable(getters, entries, depth + 1) && required == RequiredKeys(entries)
    ensures Convert(getters, SObject(kind, entries), depth)
         == EMPTY.(typ := One(TObject), properties := Properties(table), required := required)
  {
  }

  /** Each with its own literal. */
  ghost predicate AreVariants(variants: seq<Source>, tag: string, values: seq<Literal>) {
    && |values| == |variants|
    && (forall i | 0 <= i < |variants| :: IsVariant(variants[i], tag, values[i]))
    && (forall i, j | 0 <= i < j < |values| :: values[i] != values[j])
  }

  ghost predicate AllFaithful(getters: Getters, schemas: seq<Source>, depth: nat) {
    forall i | 0 <= i < |schemas| :: Faithful(getters, schemas[i], depth)
  }

  /**
   * Variants told apart by a literal discriminator, as `variant` schemas are, make a union of the
   * fragment as long as the literals lie above the cut-off.
   */
  lemma {:induction false} TaggedVariantsAreFaithful(
    getters: Getters, variants: seq<Source>, tag: string, values: seq<Literal>, depth: nat
  )
    requires depth + 2 <= MAX_DEPTH
    requires AreVariants(variants, tag, values) && AllFaithful(getters, variants, depth + 1)
    ensures Faithful(getters, SUnion(variants), depth)
  {
    VariantsAreDisjoint(getters, variants, tag, values, depth + 1, ConvertAll(getters, variants, depth + 1));
    UnionIsFaithful(getters, variants, depth);
  }

  lemma {:induction false} UnionIsFaithful(getters: Getters, schemas: seq<Source>, depth: nat)
    requires depth <= MAX_DEPTH && AllFaithful(getters, schemas, depth + 1)
    requires PairwiseDisjoint(ConvertAll(getters, schemas, depth + 1))
    ensures Faithful(getters, SUnion(schemas), depth)
  {
  }

  lemma {:induction false} VariantsAreDisjoint(
    getters: Getters, variants: seq<Source>, tag: string, values: seq<Literal>, depth: nat, converted: seq<Schema>
  )
    requires depth < MAX_DEPTH && AreVariants(variants, tag, values) && converted == ConvertAll(getters, variants, depth)
    ensures PairwiseDisjoint(converted)
  {
    forall i | 0 <= i < |converted|
      ensures Tagged(converted[i], tag, values[i])
    {
      VariantIsTagged(getters, variants[i], tag, values[i], depth, converted[i]);
    }
    TaggedVariantsAreDisjoint(converted, tag, values);
  }
}
