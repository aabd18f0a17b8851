/**
 * The other half of the schema compiler: what it must not drop. On an explicit fragment whatever
 * is valid for the emitted schema is a value the validator accepts.
 */
module SchemaConverse {
  import opened Wrappers
  import opened JsonSchema
  import opened SchemaCompiler
  import opened SchemaCutoff

  // ------------------------------------------------------------ numbers, exactly

  predicate SetsMinimum(a: Action) {
    a.MinValue? && a.requirement.Some?
  }

  predicate SetsMaximum(a: Action) {
    a.Integer? || (a.MaxValue? && a.requirement.Some?)
  }

  /** An integer check caps the number at the largest safe one. */
  function MaximumOf(a: Action): real
    requires SetsMaximum(a)
  {
    if a.Integer? then 9007199254740991.0 else a.requirement.value
  }

  predicate IsLastMinimum(pipe: seq<Action>, i: int) {
    0 <= i < |pipe| && SetsMinimum(pipe[i]) && forall j | i < j < |pipe| :: !SetsMinimum(pipe[j])
  }

  predicate IsLastMaximum(pipe: seq<Action>, i: int) {
    0 <= i < |pipe| && SetsMaximum(pipe[i]) && forall j | i < j < |pipe| :: !SetsMaximum(pipe[j])
  }

  predicate AsksForInteger(pipe: seq<Action>) {
    exists i | 0 <= i < |pipe| :: pipe[i].Integer?
  }

  lemma {:induction false} LastMinimum(pipe: seq<Action>) returns (i: int)
    ensures if NumberSchema(pipe).minimum.Some?
            then IsLastMinimum(pipe, i) && pipe[i].requirement == NumberSchema(pipe).minimum
            else forall j | 0 <= j < |pipe| :: !SetsMinimum(pipe[j])
  {
    i := -1;
    if pipe != [] {
      var n := |pipe| - 1;
      i := LastMinimum(pipe[..n]);
      if SetsMinimum(pipe[n]) { i := n; }
    }
  }

  lemma {:induction false} LastMaximum(pipe: seq<Action>) returns (i: int)
    ensures if NumberSchema(pipe).maximum.Some?
            then IsLastMaximum(pipe, i) && Some(MaximumOf(pipe[i])) == NumberSchema(pipe).maximum
            else forall j | 0 <= j < |pipe| :: !SetsMaximum(pipe[j])
  {
    i := -1;
    if pipe != [] {
      var n := |pipe| - 1;
      i := LastMaximum(pipe[..n]);
      if SetsMaximum(pipe[n]) { i := n; }
    }
  }

  lemma {:induction false} NumberShape(pipe: seq<Action>)
    ensures NumberSchema(pipe).typ == One(if AsksForInteger(pipe) then TInteger else TNumber)
  {
    if pipe != [] {
      var n := |pipe| - 1;
      NumberShape(pipe[..n]);
      if i :| 0 <= i < n && pipe[..n][i].Integer? { assert pipe[i].Integer?; }
    }
  }

  lemma {:induction false} BoundsDecide(pipe: seq<Action>, n: real)
    ensures var s := NumberSchema(pipe);
            Valid(s, JNum(n)) <==> (AsksForInteger(pipe) ==> IsInteger(n))
                                   && (s.minimum.Some? ==> s.minimum.value <= n) && (s.maximum.Some? ==> n <= s.maximum.value)
  {
    NumberShape(pipe);
    NumberEmitted(pipe);
  }

  /** A number is valid exactly if it is integral where asked, and meets the last minimum and the last maximum written. */
  lemma {:induction false} NumberValidExactly(pipe: seq<Action>, n: real)
    ensures Valid(NumberSchema(pipe), JNum(n)) <==>
            (AsksForInteger(pipe) ==> IsInteger(n))
            && (forall i | IsLastMinimum(pipe, i) :: pipe[i].requirement.value <= n)
            && (forall i | IsLastMaximum(pipe, i) :: n <= MaximumOf(pipe[i]))
  {
    BoundsDecide(pipe, n);
    var i := LastMinimum(pipe);
    var j := LastMaximum(pipe);
    assert forall k | IsLastMinimum(pipe, k) :: NumberSchema(pipe).minimum.Some? && k == i;
    assert forall k | IsLastMaximum(pipe, k) :: NumberSchema(pipe).maximum.Some? && k == j;
  }

  predicate NoChecks(pipe: seq<Action>) {
    forall i | 0 <= i < |pipe| :: !pipe[i].Check?
  }

  function Ceiling(x: real): real {
    (-((-x).Floor)) as real
  }

  /** The least and the greatest number that the emitted bounds leave room for. */
  function Ends(pipe: seq<Action>): seq<real> {
    var s := NumberSchema(pipe);
    (if s.minimum.None? then [] else if AsksForInteger(pipe) then [Ceiling(s.minimum.value)] else [s.minimum.value])
    + (if s.maximum.None? then [] else if AsksForInteger(pipe) then [s.maximum.value.Floor as real] else [s.maximum.value])
  }

  /** These two, where they are valid at all, pass the pipe: no bound that was written over is tighter. */
  predicate EndsPass(pipe: seq<Action>) {
    forall i | 0 <= i < |Ends(pipe)| :: Valid(NumberSchema(pipe), JNum(Ends(pipe)[i])) ==> PipeAccepts(pipe, Ends(pipe)[i])
  }

  lemma {:induction false} FloorIsWhole(n: int)
    ensures (n as real).Floor == n && IsInteger(n as real)
  {
  }

  lemma {:induction false} FloorFacts(x: real, n: int)
    ensures n as real <= x <==> n as real <= x.Floor as real
    ensures x <= n as real <==> Ceiling(x) <= n as real
    ensures IsInteger(Ceiling(x)) && IsInteger(x.Floor as real) && x <= Ceiling(x) && x.Floor as real <= x
  {
    FloorIsWhole(x.Floor);
    FloorIsWhole(-((-x).Floor));
    FloorAbove(x, n);
    FloorAbove(-x, -n);
  }

  lemma {:induction false} FloorAbove(x: real, n: int)
    ensures n as real <= x <==> n <= x.Floor
  {
    assert x.Floor as real <= x < x.Floor as real + 1.0;
    if n as real <= x { assert n as real < (x.Floor + 1) as real; }
  }

  /** Any valid number lies between valid ends. */
  lemma {:induction false} BetweenEnds(pipe: seq<Action>, n: real)
    requires Valid(NumberSchema(pipe), JNum(n))
    ensures forall i | 0 <= i < |Ends(pipe)| :: Valid(NumberSchema(pipe), JNum(Ends(pipe)[i]))
    ensures var s := NumberSchema(pipe);
      && (s.minimum.Some? ==> Ends(pipe)[0] <= n)
      && (s.maximum.Some? ==> Ends(pipe)[|Ends(pipe)| - 1] >= n)
  {
    var s := NumberSchema(pipe);
    BoundsDecide(pipe, n);
    if s.minimum.Some? {
      FloorFacts(s.minimum.value, n.Floor);
      BoundsDecide(pipe, Ends(pipe)[0]);
    }
    if s.maximum.Some? {
      FloorFacts(s.maximum.value, n.Floor);
      BoundsDecide(pipe, Ends(pipe)[|Ends(pipe)| - 1]);
    }
  }

  lemma {:induction false} EndsDecide(pipe: seq<Action>, n: real)
    requires NoChecks(pipe) && EndsPass(pipe) && Valid(NumberSchema(pipe), JNum(n))
    ensures PipeAccepts(pipe, n)
  {
    var least := LastMinimum(pipe);
    var greatest := LastMaximum(pipe);
    BoundsDecide(pipe, n);
    BetweenEnds(pipe, n);
    forall i | 0 <= i < |pipe|
      ensures ActionAccepts(pipe[i], n)
    {
      if SetsMinimum(pipe[i]) { assert ActionAccepts(pipe[i], Ends(pipe)[0]); }
      if SetsMaximum(pipe[i]) { assert ActionAccepts(pipe[i], Ends(pipe)[|Ends(pipe)| - 1]); }
    }
  }

  /** A pipe of bounds and integer checks is kept, every valid number being accepted, exactly if its ends pass. */
  lemma {:induction false} PipeIsKeptExactly(pipe: seq<Action>)
    requires NoChecks(pipe)
    ensures (forall n :: Valid(NumberSchema(pipe), JNum(n)) ==> PipeAccepts(pipe, n)) <==> EndsPass(pipe)
  {
    if EndsPass(pipe) {
      forall n | Valid(NumberSchema(pipe), JNum(n))
        ensures PipeAccepts(pipe, n)
      {
        EndsDecide(pipe, n);
      }
    }
  }

  /** An integer check after a maximum writes over it: 6 is advertised and not accepted. */
  lemma {:induction false} LateIntegerLosesMaximum(pipe: seq<Action>)
    requires pipe == [MaxValue(Some(5.0)), Integer]
    ensures Valid(NumberSchema(pipe), JNum(6.0)) && !PipeAccepts(pipe, 6.0)
  {
    assert pipe[1].Integer? && !ActionAccepts(pipe[0], 6.0);
    assert 6.0 == 6 as real;
    assert IsLastMaximum(pipe, 1);
    NumberValidExactly(pipe, 6.0);
  }

  // ------------------------------------------------------------ more steps do no harm

  lemma {:induction false} AcceptsMore(getters: Getters, s: Source, v: Json, steps: nat, more: nat)
    requires Accepts(getters, s, v, steps) && steps <= more
    ensures Accepts(getters, s, v, more)
    decreases steps, 1
  {
    match s
    case SOptional(wrapped) => AcceptsMore(getters, wrapped, v, steps - 1, more - 1);
    case SNullish(wrapped) => if !v.JNull? { AcceptsMore(getters, wrapped, v, steps - 1, more - 1); }
    case SNullable(wrapped) => if !v.JNull? { AcceptsMore(getters, wrapped, v, steps - 1, more - 1); }
    case SUnion(schemas) =>
      var i :| 0 <= i < |schemas| && Accepts(getters, schemas[i], v, steps - 1);
      AcceptsMore(getters, schemas[i], v, steps - 1, more - 1);
    case SIntersect(schemas) =>
      forall i | 0 <= i < |schemas| { AcceptsMore(getters, schemas[i], v, steps - 1, more - 1); }
    case SObject(kind, entries) => EntriesMore(getters, kind, entries, v.fields, steps, more);
    case SRecord(value) =>
      forall key | key in v.fields { AcceptsMore(getters, value, v.fields[key], steps - 1, more - 1); }
    case SArray(item) =>
      forall i | 0 <= i < |v.items| { AcceptsMore(getters, item, v.items[i], steps - 1, more - 1); }
    case SLazy(getter) => AcceptsMore(getters, getters[getter], v, steps - 1, more - 1);
    case SRefined(base, _) => AcceptsMore(getters, base, v, steps - 1, more - 1);
    case _ =>
  }

  lemma {:induction false} EntriesMore(
    getters: Getters, kind: ObjectKind, entries: seq<Entry>, fields: map<string, Json>, steps: nat, more: nat
  )
    requires 0 < steps <= more && AcceptsEntries(getters, kind, entries, fields, steps)
    ensures AcceptsEntries(getters, kind, entries, fields, more)
    decreases steps, 0
  {
    forall i | 0 <= i < |entries| && entries[i].key in fields
      ensures Accepts(getters, entries[i].schema, fields[entries[i].key], more - 1)
    {
      AcceptsMore(getters, entries[i].schema, fields[entries[i].key], steps - 1, more - 1);
    }
  }

  ghost predicate Accepted(getters: Getters, s: Source, v: Json) {
    exists steps :: Accepts(getters, s, v, steps)
  }

  function Larger(a: nat, b: nat): (c: nat)
    ensures a <= c && b <= c
  {
    if a < b then b else a
  }

  /** Steps enough for all of the first n options. */
  lemma {:induction false} OptionsTogether(getters: Getters, schemas: seq<Source>, v: Json, n: nat) returns (steps: nat)
    requires n <= |schemas| && forall i | 0 <= i < n :: Accepted(getters, schemas[i], v)
    ensures forall i | 0 <= i < n :: Accepts(getters, schemas[i], v, steps)
  {
    steps := 0;
    if n > 0 {
      var before := OptionsTogether(getters, schemas, v, n - 1);
      var one :| Accepts(getters, schemas[n - 1], v, one);
      steps := Larger(before, one);
      forall i | 0 <= i < n
        ensures Accepts(getters, schemas[i], v, steps)
      {
        AcceptsMore(getters, schemas[i], v, if i < n - 1 then before else one, steps);
      }
    }
  }

  lemma {:induction false} ItemsTogether(getters: Getters, item: Source, items: seq<Json>, n: nat) returns (steps: nat)
    requires n <= |items| && forall i | 0 <= i < n :: Accepted(getters, item, items[i])
    ensures forall i | 0 <= i < n :: Accepts(getters, item, items[i], steps)
  {
    steps := 0;
    if n > 0 {
      var before := ItemsTogether(getters, item, items, n - 1);
      var one :| Accepts(getters, item, items[n - 1], one);
      steps := Larger(before, one);
      forall i | 0 <= i < n
        ensures Accepts(getters, item, items[i], steps)
      {
        AcceptsMore(getters, item, items[i], if i < n - 1 then before else one, steps);
      }
    }
  }

  lemma {:induction false} FieldsTogether(getters: Getters, value: Source, fields: map<string, Json>, keys: set<string>)
      returns (steps: nat)
    requires keys <= fields.Keys && forall key | key in keys :: Accepted(getters, value, fields[key])
    ensures forall key | key in keys :: Accepts(getters, value, fields[key], steps)
    decreases |keys|
  {
    steps := 0;
    if keys != {} {
      var last :| last in keys;
      var rest := keys - {last};
      var before := FieldsTogether(getters, value, fields, rest);
      var one :| Accepts(getters, value, fields[last], one);
      steps := Larger(before, one);
      FieldsMore(getters, value, fields, rest, before, steps);
      AcceptsMore(getters, value, fields[last], one, steps);
    }
  }

  lemma {:induction false} FieldsMore(
    getters: Getters, value: Source, fields: map<string, Json>, keys: set<string>, steps: nat, more: nat
  )
    requires keys <= fields.Keys && steps <= more && forall key | key in keys :: Accepts(getters, value, fields[key], steps)
    ensures forall key | key in keys :: Accepts(getters, value, fields[key], more)
  {
    forall key | key in keys
      ensures Accepts(getters, value, fields[key], more)
    {
      AcceptsMore(getters, value, fields[key], steps, more);
    }
  }

  predicate EntryAccepts(getters: Getters, entry: Entry, fields: map<string, Json>, steps: nat) {
    if entry.key in fields then Accepts(getters, entry.schema, fields[entry.key], steps) else IsOptional(entry.schema)
  }

  ghost predicate EntryAccepted(getters: Getters, entry: Entry, fields: map<string, Json>) {
    if entry.key in fields then Accepted(getters, entry.schema, fields[entry.key]) else IsOptional(entry.schema)
  }

  lemma {:induction false} EntriesTogether(getters: Getters, entries: seq<Entry>, fields: map<string, Json>, n: nat)
      returns (steps: nat)
    requires n <= |entries| && forall i | 0 <= i < n :: EntryAccepted(getters, entries[i], fields)
    ensures forall i | 0 <= i < n :: EntryAccepts(getters, entries[i], fields, steps)
  {
    steps := 0;
    if n > 0 {
      var before := EntriesTogether(getters, entries, fields, n - 1);
      var one := EntrySteps(getters, entries[n - 1], fields);
      steps := Larger(before, one);
      forall i | 0 <= i < n
        ensures EntryAccepts(getters, entries[i], fields, steps)
      {
        EntryAcceptsMore(getters, entries[i], fields, if i < n - 1 then before else one, steps);
      }
    }
  }

  lemma {:induction false} EntrySteps(getters: Getters, entry: Entry, fields: map<string, Json>) returns (steps: nat)
    requires EntryAccepted(getters, entry, fields)
    ensures EntryAccepts(getters, entry, fields, steps)
  {
    steps := 0;
    if entry.key in fields { steps :| Accepts(getters, entry.schema, fields[entry.key], steps); }
  }

  lemma {:induction false} EntryAcceptsMore(getters: Getters, entry: Entry, fields: map<string, Json>, steps: nat, more: nat)
    requires EntryAccepts(getters, entry, fields, steps) && steps <= more
    ensures EntryAccepts(getters, entry, fields, more)
  {
    if entry.key in fields { AcceptsMore(getters, entry.schema, fields[entry.key], steps, more); }
  }

  // -------------------------------------------------------------------- the converse

  predicate KeysDiffer(entries: seq<Entry>) {
    forall i, j | 0 <= i < j < |entries| :: entries[i].key != entries[j].key
  }

  /**
   * The schemas of which nothing is dropped: no dates and custom checks, which JSON Schema does not
   * carry, no strict objects, numbers whose bounds are not written over, and nothing past the cut-off.
   */
  predicate Kept(getters: Getters, s: Source, depth: nat)
    decreases Budget(depth), s
  {
    depth <= MAX_DEPTH && match s
      case SDate => false
      case SRefined(_, _) => false
      case SNumber(pipe) => NoChecks(pipe) && EndsPass(pipe)
      case SLiteral(literal) => !literal.Undefined?
      case SOptional(wrapped) => Kept(getters, wrapped, depth + 1)
      case SNullish(wrapped) => Kept(getters, wrapped, depth + 1)
      case SNullable(wrapped) => Kept(getters, wrapped, depth + 1)
      case SUnion(schemas) => forall i | 0 <= i < |schemas| :: Kept(getters, schemas[i], depth + 1)
      case SIntersect(schemas) => forall i | 0 <= i < |schemas| :: Kept(getters, schemas[i], depth + 1)
      case SObject(kind, entries) =>
        !kind.Strictly? && KeysDiffer(entries) && forall i | 0 <= i < |entries| :: Kept(getters, entries[i].schema, depth + 1)
      case SRecord(value) => Kept(getters, value, depth + 1)
      case SArray(item) => Kept(getters, item, depth + 1)
      case SLazy(getter) => getter in getters && Kept(getters, getters[getter], depth + 1)
      case _ => true
  }

  /** Whatever is valid for the emitted schema of such a source, the validator accepts. */
  lemma {:induction false} ConvertKeeps(getters: Getters, s: Source, depth: nat, v: Json) returns (steps: nat)
    requires Kept(getters, s, depth) && Valid(Convert(getters, s, depth), v)
    ensures Accepts(getters, s, v, steps)
    decreases Budget(depth), 2
  {
    if s.SNumber? {
      steps := 1;
      NumberIsNumber(s.pipe, v);
      EndsDecide(s.pipe, v.n);
    } else if s.SLiteral? || s.SPicklist? {
      steps := 1;
      ClosedKeeps(getters, s, depth, v);
    } else if IsWrapper(s) {
      steps := WrapperKeeps(getters, s, depth, v);
    } else if IsComposite(s) {
      steps := CompositeKeeps(getters, s, depth, v);
    } else {
      steps := 1;
    }
  }

  lemma {:induction false} NumberIsNumber(pipe: seq<Action>, v: Json)
    requires Valid(NumberSchema(pipe), v)
    ensures v.JNum?
  {
    NumberShape(pipe);
  }

  lemma {:induction false} ClosedKeeps(getters: Getters, s: Source, depth: nat, v: Json)
    requires s.SLiteral? || s.SPicklist?
    requires Kept(getters, s, depth) && Valid(Convert(getters, s, depth), v)
    ensures Accepts(getters, s, v, 1)
  {
  }

  lemma {:induction false} WrapperKeeps(getters: Getters, s: Source, depth: nat, v: Json) returns (steps: nat)
    requires IsWrapper(s) && Kept(getters, s, depth) && Valid(Convert(getters, s, depth), v)
    ensures Accepts(getters, s, v, steps)
    decreases Budget(depth), 1
  {
    if s.SLazy? {
      steps := ConvertKeeps(getters, getters[s.getter], depth + 1, v);
    } else if s.SNullable? && v.JNull? {
      steps := 0;
    } else {
      if s.SNullable? {
        ConvertEmitted(getters, s.wrapped, depth + 1);
        WithNullAddsOnlyNull(Convert(getters, s.wrapped, depth + 1), v);
      }
      steps := ConvertKeeps(getters, s.wrapped, depth + 1, v);
    }
    steps := steps + 1;
  }

  lemma {:induction false} CompositeKeeps(getters: Getters, s: Source, depth: nat, v: Json) returns (steps: nat)
    requires IsComposite(s) && Kept(getters, s, depth) && Valid(Convert(getters, s, depth), v)
    ensures Accepts(getters, s, v, steps)
    decreases Budget(depth), 1
  {
    if s.SUnion? || s.SIntersect? {
      steps := ChoiceKeeps(getters, s, depth, v, ConvertAll(getters, s.schemas, depth + 1));
    } else if s.SArray? {
      ArrayKeeps(getters, s.item, depth, v, Convert(getters, s.item, depth + 1));
      steps := ItemsTogether(getters, s.item, v.items, |v.items|);
    } else if s.SRecord? {
      RecordKeeps(getters, s.value, depth, v, Convert(getters, s.value, depth + 1));
      steps := FieldsTogether(getters, s.value, v.fields, v.fields.Keys);
    } else {
      ObjectKeeps(getters, s.entries, depth, v, PropertyTable(getters, s.entries, depth + 1));
      steps := EntriesTogether(getters, s.entries, v.fields, |s.entries|);
      EntriesAreAccepted(getters, s.kind, s.entries, v, steps);
    }
    steps := steps + 1;
  }

  lemma {:induction false} ChoiceKeeps(getters: Getters, s: Source, depth: nat, v: Json, all: seq<Schema>) returns (steps: nat)
    requires (s.SUnion? || s.SIntersect?) && Kept(getters, s, depth) && all == ConvertAll(getters, s.schemas, depth + 1)
    requires Valid(if s.SUnion? then EMPTY.(oneOf := List(all)) else EMPTY.(allOf := List(all)), v)
    ensures Accepts(getters, s, v, steps + 1)
    decreases Budget(depth), 0, 1
  {
    if s.SUnion? {
      UnionKeeps(getters, s.schemas, depth, v, all);
      var i :| 0 <= i < |s.schemas| && Accepted(getters, s.schemas[i], v);
      steps :| Accepts(getters, s.schemas[i], v, steps);
    } else {
      IntersectKeeps(getters, s.schemas, depth, v, all);
      steps := OptionsTogether(getters, s.schemas, v, |s.schemas|);
    }
  }

  lemma {:induction false} UnionKeeps(getters: Getters, schemas: seq<Source>, depth: nat, v: Json, all: seq<Schema>)
    requires depth <= MAX_DEPTH && (forall i | 0 <= i < |schemas| :: Kept(getters, schemas[i], depth + 1))
    requires all == ConvertAll(getters, schemas, depth + 1) && Valid(EMPTY.(oneOf := List(all)), v)
    ensures exists i | 0 <= i < |schemas| :: Accepted(getters, schemas[i], v)
    decreases Budget(depth), 0, 0
  {
    var i := OneOfTakes(all, v);
    NestedKeeps(getters, schemas[i], depth + 1, v, all[i]);
  }

  lemma {:induction false} IntersectKeeps(getters: Getters, schemas: seq<Source>, depth: nat, v: Json, all: seq<Schema>)
    requires depth <= MAX_DEPTH && (forall i | 0 <= i < |schemas| :: Kept(getters, schemas[i], depth + 1))
    requires all == ConvertAll(getters, schemas, depth + 1) && Valid(EMPTY.(allOf := List(all)), v)
    ensures forall i | 0 <= i < |schemas| :: Accepted(getters, schemas[i], v)
    decreases Budget(depth), 0, 0
  {
    AllOfExactly(all, v);
    forall i | 0 <= i < |schemas|
      ensures Accepted(getters, schemas[i], v)
    {
      NestedKeeps(getters, schemas[i], depth + 1, v, all[i]);
    }
  }

  lemma {:induction false} ArrayKeeps(getters: Getters, item: Source, depth: nat, v: Json, converted: Schema)
    requires depth <= MAX_DEPTH && Kept(getters, item, depth + 1) && converted == Convert(getters, item, depth + 1)
    requires Valid(EMPTY.(typ := One(TArray), items := Some(converted)), v)
    ensures v.JArr? && forall i | 0 <= i < |v.items| :: Accepted(getters, item, v.items[i])
    decreases Budget(depth), 0, 0
  {
    assert HasType(v, TArray);
    forall i | 0 <= i < |v.items|
      ensures Accepted(getters, item, v.items[i])
    {
      NestedKeeps(getters, item, depth + 1, v.items[i], converted);
    }
  }

  lemma {:induction false} RecordKeeps(getters: Getters, value: Source, depth: nat, v: Json, converted: Schema)
    requires depth <= MAX_DEPTH && Kept(getters, value, depth + 1) && converted == Convert(getters, value, depth + 1)
    requires Valid(EMPTY.(typ := One(TObject), additionalProperties := Some(converted)), v)
    ensures v.JObj? && forall key | key in v.fields :: Accepted(getters, value, v.fields[key])
    decreases Budget(depth), 0, 0
  {
    assert HasType(v, TObject);
    forall key | key in v.fields
      ensures Accepted(getters, value, v.fields[key])
    {
      NestedKeeps(getters, value, depth + 1, v.fields[key], converted);
    }
  }

  lemma {:induction false} NestedKeeps(getters: Getters, s: Source, depth: nat, v: Json, converted: Schema)
    requires Kept(getters, s, depth) && converted == Convert(getters, s, depth) && Valid(converted, v)
    ensures Accepted(getters, s, v)
    decreases Budget(depth), 3
  {
    var steps := ConvertKeeps(getters, s, depth, v);
  }

  predicate EntryIsValid(getters: Getters, entry: Entry, fields: map<string, Json>, depth: nat) {
    if entry.key in fields then Valid(Convert(getters, entry.schema, depth), fields[entry.key]) else IsOptional(entry.schema)
  }

  lemma {:induction false} OnlyEntry(entries: seq<Entry>, i: nat)
    requires i < |entries| && KeysDiffer(entries)
    ensures LastEntry(entries, entries[i].key) == Some(entries[i])
  {
    if i < |entries| - 1 { OnlyEntry(entries[..|entries| - 1], i); }
  }

  /** What an emitted object schema says of one entry. */
  /** What an emitted object schema says of one entry. */
  lemma {:induction false} EntryOfValid(
    getters: Getters, entries: seq<Entry>, depth: nat, v: Json, table: map<string, Schema>, required: seq<string>, i: nat
  )
    requires i < |entries| && KeysDiffer(entries) && table == PropertyTable(getters, entries, depth) && required == RequiredKeys(entries)
    requires Valid(EMPTY.(typ := One(TObject), properties := Properties(table), required := required), v)
    ensures v.JObj? && EntryIsValid(getters, entries[i], v.fields, depth)
  {
    ObjectOfValid(table, required, v, entries[i].key);
    TableByLastEntry(getters, entries, depth, entries[i].key);
    OnlyEntry(entries, i);
  }

  lemma {:induction false} ObjectOfValid(table: map<string, Schema>, required: seq<string>, v: Json, key: string)
    requires Valid(EMPTY.(typ := One(TObject), properties := Properties(table), required := required), v)
    ensures v.JObj? && (key in required ==> key in v.fields)
    ensures v.JObj? && (key in table && key in v.fields ==> Valid(table[key], v.fields[key]))
  {
    var s := EMPTY.(typ := One(TObject), properties := Properties(table), required := required);
    assert HasType(v, TObject);
    if key in table && key in v.fields { assert Valid(s.properties.table[key], v.fields[key]); }
  }

  lemma {:induction false} ObjectKeeps(getters: Getters, entries: seq<Entry>, depth: nat, v: Json, table: map<string, Schema>)
    requires depth <= MAX_DEPTH && KeysDiffer(entries) && forall i | 0 <= i < |entries| :: Kept(getters, entries[i].schema, depth + 1)
    requires table == PropertyTable(getters, entries, depth + 1)
    requires Valid(EMPTY.(typ := One(TObject), properties := Properties(table), required := RequiredKeys(entries)), v)
    ensures v.JObj? && forall i | 0 <= i < |entries| :: EntryAccepted(getters, entries[i], v.fields)
    decreases Budget(depth), 0, 0
  {
    ObjectOfValid(table, RequiredKeys(entries), v, "");
    forall i | 0 <= i < |entries|
      ensures EntryAccepted(getters, entries[i], v.fields)
    {
      EntryOfValid(getters, entries, depth + 1, v, table, RequiredKeys(entries), i);
      if entries[i].key in v.fields {
        NestedKeeps(getters, entries[i].schema, depth + 1, v.fields[entries[i].key], Convert(getters, entries[i].schema, depth + 1));
      }
    }
  }

  lemma {:induction false} EntriesAreAccepted(getters: Getters, kind: ObjectKind, entries: seq<Entry>, v: Json, steps: nat)
    requires v.JObj? && !kind.Strictly? && forall i | 0 <= i < |entries| :: EntryAccepts(getters, entries[i], v.fields, steps)
    ensures Accepts(getters, SObject(kind, entries), v, steps + 1)
  {
    assert AcceptsEntries(getters, kind, entries, v.fields, steps + 1);
  }

  /** On both fragments together the emitted schema and the validator agree on every value. */
  lemma {:induction false} ConvertExactly(getters: Getters, s: Source, depth: nat, v: Json)
    requires Faithful(getters, s, depth) && Kept(getters, s, depth) && NumbersAtMost(v, MAX_SAFE_INTEGER)
    ensures Valid(Convert(getters, s, depth), v) <==> Accepted(getters, s, v)
  {
    if steps :| Accepts(getters, s, v, steps) { ConvertSound(getters, s, depth, v, steps); }
    if Valid(Convert(getters, s, depth), v) { var steps := ConvertKeeps(getters, s, depth, v); }
  }

  // ------------------------------------------------------- where more is advertised

  lemma {:induction false} StrictRejects(entries: seq<Entry>, v: Json, steps: nat)
    requires entries == [] && v == JObj(map["x" := JNull])
    ensures !Accepts(map[], SObject(Strictly, entries), v, steps)
  {
    assert "x" in v.fields;
  }

  /** A strict object without entries: its schema admits any object, the validator only the empty one. */
  lemma {:induction false} StrictObjectAdmitsMore(entries: seq<Entry>, v: Json)
    requires entries == [] && v == JObj(map["x" := JNull])
    ensures Valid(Convert(map[], SObject(Strictly, entries), 0), v) && !Accepted(map[], SObject(Strictly, entries), v)
  {
    assert PropertyTable(map[], entries, 1) == map[] && RequiredKeys(entries) == [];
    PropertiesValid(map[], [], v);
    forall steps
      ensures !Accepts(map[], SObject(Strictly, entries), v, steps)
    {
      StrictRejects(entries, v, steps);
    }
  }

  /** A date is advertised as any text, and no JSON value is a date. */
  lemma {:induction false} DateAdmitsTexts(getters: Getters, depth: nat, v: Json)
    requires depth <= MAX_DEPTH
    ensures Valid(Convert(getters, SDate, depth), v) <==> v.JStr?
    ensures !Accepted(getters, SDate, v)
  {
  }

  /** Further checks, strictness and a missing getter leave no trace in the emitted schema. */
  lemma {:induction false} DroppedExactly(getters: Getters, s: Source, entries: seq<Entry>, kind: ObjectKind, getter: string, depth: nat)
    ensures s.SRefined? ==> Convert(getters, s, depth) == Convert(getters, s.base, depth)
    ensures Convert(getters, SObject(kind, entries), depth) == Convert(getters, SObject(Plainly, entries), depth)
    ensures getter !in getters ==> Convert(getters, SLazy(getter), depth) == EMPTY
  {
  }

  /** An entry may be absent exactly if its schema, further checks aside, is optional or nullish. */
  lemma {:induction false} OptionalExactly(s: Source)
    ensures match s
      case SOptional(_) => IsOptional(s)
      case SNullish(_) => IsOptional(s)
      case SRefined(base, _) => IsOptional(s) <==> IsOptional(base)
      case _ => !IsOptional(s)
  {
  }

  // ------------------------------------------------------------------ the draft

  /** The schema, seen through wrappers above the cut-off, is an object without entries. */
  predicate IsEmptyObject(getters: Getters, s: Source, depth: nat)
    decreases Budget(depth), s
  {
    depth <= MAX_DEPTH && match s
      case SObject(_, entries) => entries == []
      case SOptional(wrapped) => IsEmptyObject(getters, wrapped, depth + 1)
      case SNullish(wrapped) => IsEmptyObject(getters, wrapped, depth + 1)
      case SLazy(getter) => getter in getters && IsEmptyObject(getters, getters[getter], depth + 1)
      case SRefined(base, _) => IsEmptyObject(getters, base, depth)
      case _ => false
  }

  predicate HasNoProperties(s: Schema) {
    s.typ == One(TObject) && s.properties == Properties(map[]) && s.required == []
  }

  lemma {:induction false} NullableHasProperties(s: Schema)
    ensures !HasNoProperties(WithNull(s))
  {
  }

  lemma {:induction false} TableIsEmpty(getters: Getters, entries: seq<Entry>, depth: nat)
    ensures PropertyTable(getters, entries, depth) == map[] <==> entries == []
    ensures entries == [] ==> RequiredKeys(entries) == []
  {
    if entries != [] { TableByLastEntry(getters, entries, depth, entries[|entries| - 1].key); }
  }

  lemma {:induction false} ConvertDeclaresNone(getters: Getters, s: Source, depth: nat)
    ensures !Convert(getters, s, depth).declaresDraft
    decreases Budget(depth), s
  {
    if depth <= MAX_DEPTH {
      match s
      case SOptional(wrapped) => ConvertDeclaresNone(getters, wrapped, depth + 1);
      case SNullish(wrapped) => ConvertDeclaresNone(getters, wrapped, depth + 1);
      case SNullable(wrapped) => ConvertDeclaresNone(getters, wrapped, depth + 1);
      case SLazy(getter) => if getter in getters { ConvertDeclaresNone(getters, getters[getter], depth + 1); }
      case SRefined(base, _) => ConvertDeclaresNone(getters, base, depth);
      case SNumber(pipe) => NumberEmitted(pipe);
      case _ =>
    }
  }

  lemma {:induction false} EmptyObjectExactly(getters: Getters, s: Source, depth: nat)
    ensures HasNoProperties(Convert(getters, s, depth)) <==> IsEmptyObject(getters, s, depth)
    decreases Budget(depth), s
  {
    if depth <= MAX_DEPTH {
      if s.SOptional? || s.SNullish? {
        EmptyObjectExactly(getters, s.wrapped, depth + 1);
      } else if s.SLazy? {
        if s.getter in getters { EmptyObjectExactly(getters, getters[s.getter], depth + 1); }
      } else if s.SRefined? {
        EmptyObjectExactly(getters, s.base, depth);
      } else {
        EmptyUnwrapped(getters, s, depth);
      }
    }
  }

  lemma {:induction false} EmptyUnwrapped(getters: Getters, s: Source, depth: nat)
    requires depth <= MAX_DEPTH && (s.SNullable? || !IsWrapper(s))
    ensures HasNoProperties(Convert(getters, s, depth)) <==> s.SObject? && s.entries == []
  {
    if s.SNullable? {
      NullableHasProperties(Convert(getters, s.wrapped, depth + 1));
    } else if s.SObject? {
      ObjectIsEmpty(getters, s, depth);
    } else if s.SNumber? {
      NumberEmitted(s.pipe);
    } else {
      OthersHaveNone(getters, s, depth);
    }
  }

  lemma {:induction false} ObjectIsEmpty(getters: Getters, s: Source, depth: nat)
    requires depth <= MAX_DEPTH && s.SObject?
    ensures HasNoProperties(Convert(getters, s, depth)) <==> s.entries == []
  {
    var table := PropertyTable(getters, s.entries, depth + 1);
    TableIsEmpty(getters, s.entries, depth + 1);
    assert Convert(getters, s, depth).properties == Properties(table);
    assert Convert(getters, s, depth).required == RequiredKeys(s.entries);
  }

  lemma {:induction false} OthersHaveNone(getters: Getters, s: Source, depth: nat)
    requires depth <= MAX_DEPTH && !IsWrapper(s) && !s.SObject? && !s.SNumber?
    ensures Convert(getters, s, depth).properties.NoProperties?
  {
  }

  /** The draft is declared of every schema but an object without entries, and nothing else is added. */
  lemma {:induction false} DraftExactly(getters: Getters, s: Source)
    ensures ToJsonSchema(getters, s).declaresDraft <==> !IsEmptyObject(getters, s, 0)
    ensures ToJsonSchema(getters, s).(declaresDraft := false) == Convert(getters, s, 0)
  {
    EmptyObjectExactly(getters, s, 0);
    ConvertDeclaresNone(getters, s, 0);
  }
}
