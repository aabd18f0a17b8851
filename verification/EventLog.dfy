/**
 * The append-only event log. Its rows change only through SQL statements, which
 * triggers and foreign keys guard; a purge is the one way to remove events, and
 * only after naming their aggregates in a gate table that it empties again.
 */
module EventLog {
  import opened Numbers
  import opened Wrappers
  import Uuid

  datatype Event = Event(
    position: nat,
    id: string,
    realmId: string,
    aggregateType: string,
    aggregateId: string,
    aggregateVersion: int,
    commandIndex: int,
    correlationId: string,
    eventType: string,
    occurredAt: int,
    payload: string,
    metadata: string,
    actorId: Option<string>,
    causationId: Option<string>)

  /** A row of event_user_subjects, keyed by the event's position. */
  datatype Subject = Subject(realmId: string, userId: string)

  datatype State = State(events: seq<Event>, subjects: map<nat, Subject>, gate: set<string>, nextPosition: nat)

  // ------------------------------------------------------------------ the log

  function Positions(events: seq<Event>): set<nat> {
    set i | 0 <= i < |events| :: events[i].position
  }

  /** The events that remain when the given aggregates are gone. */
  function Without(events: seq<Event>, gone: set<string>): (rest: seq<Event>)
    ensures |rest| <= |events|
  {
    if events == [] then []
    else
      var last := events[|events| - 1];
      Without(events[..|events| - 1], gone) + if last.aggregateId in gone then [] else [last]
  }

  /** ON DELETE CASCADE from events to their subjects. */
  function Cascaded(subjects: map<nat, Subject>, events: seq<Event>): map<nat, Subject> {
    map position | position in subjects && position in Positions(events) :: subjects[position]
  }

  function WithoutUser(subjects: map<nat, Subject>, userId: string): map<nat, Subject> {
    map position | position in subjects && subjects[position].userId != userId :: subjects[position]
  }

  /** The aggregates of events that name the user. */
  function NamingAggregates(events: seq<Event>, subjects: map<nat, Subject>, userId: string): (ids: set<string>)
  {
    set i | 0 <= i < |events| && events[i].position in subjects && subjects[events[i].position].userId == userId ::
      events[i].aggregateId
  }

  lemma {:induction false} WithoutMember(events: seq<Event>, gone: set<string>, e: Event)
    ensures e in Without(events, gone) <==> e in events && e.aggregateId !in gone
  {
    if events != [] {
      var before, last := events[..|events| - 1], events[|events| - 1];
      WithoutMember(before, gone, e);
      assert events == before + [last];
    }
  }

  lemma {:induction false} WithoutTwice(events: seq<Event>, gone: set<string>, more: set<string>)
    ensures Without(Without(events, gone), more) == Without(events, gone + more)
  {
    if events != [] {
      var before, last := events[..|events| - 1], events[|events| - 1];
      WithoutTwice(before, gone, more);
      var kept := Without(before, gone);
      assert kept + [] == kept && (kept + [last])[..|kept|] == kept;
    }
  }

  lemma {:induction false} WithoutSame(events: seq<Event>, gone: set<string>, other: set<string>)
    requires forall e | e in events :: e.aggregateId in gone <==> e.aggregateId in other
    ensures Without(events, gone) == Without(events, other)
  {
    if events != [] {
      assert events[|events| - 1] in events;
      WithoutSame(events[..|events| - 1], gone, other);
    }
  }

  // ------------------------------------------------------------------ the rules

  ghost predicate Ordered(events: seq<Event>) {
    forall i, j | 0 <= i < j < |events| :: events[i].position < events[j].position
  }

  ghost predicate IdsDiffer(events: seq<Event>) {
    forall i, j | 0 <= i < j < |events| :: events[i].id != events[j].id
  }

  /** What the keys and checks of the tables keep, whatever the gate holds. */
  ghost predicate Sound(s: State) {
    && Ordered(s.events) && IdsDiffer(s.events)
    && (forall e | e in s.events :: e.position < s.nextPosition && e.aggregateId != "")
    && s.subjects.Keys <= Positions(s.events)
  }

  /** What should hold at every commit: the gate is empty as well. */
  ghost predicate Committed(s: State) {
    Sound(s) && s.gate == {}
  }

  // ------------------------------------------------------------------ appending

  datatype EventInput = EventInput(
    realmId: string,
    aggregateType: string,
    aggregateId: string,
    aggregateVersion: int,
    commandIndex: int,
    correlationId: string,
    eventType: string,
    id: Option<string>,
    eventId: Option<string>,
    occurredAt: Option<int>,
    payload: Option<string>,   // the encoded JSON, or None when the value is not JSON
    metadata: Option<string>,
    actorId: Option<string>,
    causationId: Option<string>)

  /** The clock and the generated identifier a call would use; generation can fail. */
  datatype Runtime = Runtime(now: int, newId: Option<string>)

  /** The row to insert, or the error of the first check that fails. */
  function EventPrepare(input: EventInput, runtime: Runtime, position: nat): Result<Event> {
    var occurredAt := if input.occurredAt.Some? then input.occurredAt.value else runtime.now;
    var id := if input.id.Some? then input.id else if input.eventId.Some? then input.eventId else runtime.newId;
    if input.realmId == "" || input.aggregateType == "" || input.aggregateId == ""
    then Err("Event realm and aggregate identity are required.")
    else if input.eventType == "" || input.correlationId == ""
    then Err("Event type and correlation identity are required.")
    else if input.commandIndex < 0 || input.commandIndex > MAX_SAFE_INTEGER
    then Err("The event command index must be a non-negative integer.")
    else if input.aggregateVersion < 1 || input.aggregateVersion > MAX_SAFE_INTEGER
    then Err("The event aggregate version must be a positive integer.")
    else if occurredAt < 0 || occurredAt > MAX_SAFE_INTEGER then Err("The event timestamp must be a non-negative integer.")
    else if id.None? then Err("The event could not be appended.")
    else if input.id.Some? && input.eventId.Some? && input.id != input.eventId then Err("The event identifiers must match.")
    else if !Uuid.IsCanonicalEventId(id.value) then Err("The event ID must be a lowercase UUIDv7.")
    else if input.payload.None? || input.metadata.None? then Err("Storage values must be valid JSON.")
    else Ok(Event(position, id.value, input.realmId, input.aggregateType, input.aggregateId, input.aggregateVersion,
                  input.commandIndex, input.correlationId, input.eventType, occurredAt, input.payload.value,
                  input.metadata.value, input.actorId, input.causationId))
  }

  predicate IdIsTaken(events: seq<Event>, id: string) {
    exists i | 0 <= i < |events| :: events[i].id == id
  }

  predicate HasIdentity(input: EventInput) {
    input.realmId != "" && input.aggregateType != "" && input.aggregateId != ""
  }

  predicate HasType(input: EventInput) {
    input.eventType != "" && input.correlationId != ""
  }

  predicate HasTime(input: EventInput, runtime: Runtime) {
    0 <= (match input.occurredAt case Some(time) => time case None => runtime.now) <= 9007199254740991
  }

  /** What the log demands of an event: its texts, its numbers, its time, its identifier and its JSON. */
  predicate IsAcceptable(input: EventInput, runtime: Runtime) {
    && HasIdentity(input) && HasType(input)
    && 0 <= input.commandIndex <= 9007199254740991 && 1 <= input.aggregateVersion <= 9007199254740991
    && HasTime(input, runtime)
    && (match input.id
        case Some(id) => Uuid.IsCanonicalEventId(id) && (input.eventId.Some? ==> input.eventId.value == id)
        case None => match input.eventId
          case Some(id) => Uuid.IsCanonicalEventId(id)
          case None => runtime.newId.Some? && Uuid.IsCanonicalEventId(runtime.newId.value))
    && input.payload.Some? && input.metadata.Some?
  }

  /** An event is accepted exactly if it is acceptable, and then each column holds what it should. */
  lemma {:induction false} PreparedExactly(input: EventInput, runtime: Runtime, position: nat)
    ensures EventPrepare(input, runtime, position).Ok? <==> IsAcceptable(input, runtime)
    ensures IsAcceptable(input, runtime) ==>
      var e := EventPrepare(input, runtime, position).data;
      && e.position == position && e.realmId == input.realmId
      && e.aggregateType == input.aggregateType && e.aggregateId == input.aggregateId
      && e.aggregateVersion == input.aggregateVersion && e.commandIndex == input.commandIndex
      && e.correlationId == input.correlationId && e.eventType == input.eventType
      && Some(e.payload) == input.payload && Some(e.metadata) == input.metadata
      && e.actorId == input.actorId && e.causationId == input.causationId
      && (input.occurredAt.Some? ==> e.occurredAt == input.occurredAt.value)
      && (input.occurredAt.None? ==> e.occurredAt == runtime.now)
      && (input.id.Some? ==> e.id == input.id.value)
      && (input.id.None? && input.eventId.Some? ==> e.id == input.eventId.value)
      && (input.id.None? && input.eventId.None? ==> runtime.newId == Some(e.id))
  {
  }

  /** The first check on the fields that fails names the error. */
  lemma {:induction false} FirstFailedCheckDecides(input: EventInput, runtime: Runtime, position: nat)
    ensures var result := EventPrepare(input, runtime, position);
      if !HasIdentity(input) then result == Err("Event realm and aggregate identity are required.")
      else if !HasType(input) then result == Err("Event type and correlation identity are required.")
      else if !(0 <= input.commandIndex <= 9007199254740991)
      then result == Err("The event command index must be a non-negative integer.")
      else if !(1 <= input.aggregateVersion <= 9007199254740991)
      then result == Err("The event aggregate version must be a positive integer.")
      else !HasTime(input, runtime) ==> result == Err("The event timestamp must be a non-negative integer.")
  {
  }

  /** Past these, two identifiers have to match before their form is looked at, and that before the JSON. */
  lemma {:induction false} IdentifierBeforeJson(input: EventInput, runtime: Runtime, position: nat)
    requires HasIdentity(input) && HasType(input) && HasTime(input, runtime) && input.id.Some?
    requires 0 <= input.commandIndex <= 9007199254740991 && 1 <= input.aggregateVersion <= 9007199254740991
    requires !IsAcceptable(input, runtime)
    ensures EventPrepare(input, runtime, position) == Err(
              if input.eventId.Some? && input.eventId != input.id then "The event identifiers must match."
              else if !Uuid.IsCanonicalEventId(input.id.value) then "The event ID must be a lowercase UUIDv7."
              else "Storage values must be valid JSON.")
  {
  }

  // ------------------------------------------------------------------- purging

  /** Everything a purge removes: the given aggregates and users, and every aggregate naming a user. */
  function PurgedAggregates(s: State, aggregates: set<string>, users: set<string>): set<string> {
    aggregates + users
    + set i | 0 <= i < |s.events| && s.events[i].position in s.subjects && s.subjects[s.events[i].position].userId in users ::
        s.events[i].aggregateId
  }

  function PurgedState(s: State, aggregates: set<string>, users: set<string>): State {
    var events := Without(s.events, PurgedAggregates(s, aggregates, users));
    State(events,
          map position | position in s.subjects && position in Positions(events) && s.subjects[position].userId !in users ::
            s.subjects[position],
          {}, s.nextPosition)
  }

  /** A purge of nothing leaves even the gate alone. */
  function Purged(s: State, aggregates: set<string>, users: set<string>): State {
    if aggregates == {} && users == {} then s else PurgedState(s, aggregates, users)
  }

  lemma {:induction false} PurgedFromCommitted(s: State, aggregates: set<string>, users: set<string>)
    requires Committed(s)
    ensures Purged(s, aggregates, users) == PurgedState(s, aggregates, users)
  {
    PurgeOfNothing(s);
  }

  /** `[...new Set(ids.filter((id) => id.length > 0))]` */
  function Distinct(ids: seq<string>): (distinct: seq<string>)
    ensures forall id :: id in distinct <==> id in ids && id != ""
    ensures NoRepeats(distinct)
  {
    if ids == [] then []
    else
      var before, last := Distinct(ids[..|ids| - 1]), ids[|ids| - 1];
      assert ids == ids[..|ids| - 1] + [last];
      if last == "" || last in before then before else before + [last]
  }

  ghost predicate NoRepeats(ids: seq<string>) {
    forall i, j | 0 <= i < j < |ids| :: ids[i] != ids[j]
  }

  function SetOf(ids: seq<string>): set<string> {
    set i | 0 <= i < |ids| :: ids[i]
  }

  // --------------------------------------------------------- the purge, as sets

  lemma {:induction false} PositionsOfWithout(events: seq<Event>, gone: set<string>, position: nat)
    requires Ordered(events)
    ensures position in Positions(Without(events, gone))
       <==> exists i | 0 <= i < |events| :: events[i].position == position && events[i].aggregateId !in gone
  {
    if position in Positions(Without(events, gone)) {
      var i :| 0 <= i < |Without(events, gone)| && Without(events, gone)[i].position == position;
      WithoutMember(events, gone, Without(events, gone)[i]);
    }
    if i :| 0 <= i < |events| && events[i].position == position && events[i].aggregateId !in gone {
      WithoutMember(events, gone, events[i]);
      var j :| 0 <= j < |Without(events, gone)| && Without(events, gone)[j] == events[i];
    }
  }

  /** Without users a purge is the deletion of the given aggregates. */
  lemma {:induction false} PurgeOfAggregates(was: State, aggregates: set<string>)
    ensures var done := PurgedState(was, aggregates, {});
      && done.events == Without(was.events, aggregates)
      && done.subjects == Cascaded(was.subjects, done.events)
  {
    assert PurgedAggregates(was, aggregates, {}) == aggregates;
  }

  predicate Names(s: State, i: int, userId: string, id: string)
    requires 0 <= i < |s.events|
  {
    var e := s.events[i];
    e.position in s.subjects && s.subjects[e.position].userId == userId && e.aggregateId == id
  }

  /** An aggregate that outlives a purge names the user afterwards exactly if it did before. */
  lemma {:induction false} StillNames(was: State, aggregates: set<string>, users: set<string>, userId: string, id: string)
    requires Ordered(was.events) && userId !in users && id !in PurgedAggregates(was, aggregates, users)
    ensures var done := PurgedState(was, aggregates, users);
            (exists i | 0 <= i < |done.events| :: Names(done, i, userId, id))
            <==> (exists i | 0 <= i < |was.events| :: Names(was, i, userId, id))
  {
    var done, gone := PurgedState(was, aggregates, users), PurgedAggregates(was, aggregates, users);
    if i :| 0 <= i < |done.events| && Names(done, i, userId, id) {
      WithoutMember(was.events, gone, done.events[i]);
      var j :| 0 <= j < |was.events| && was.events[j] == done.events[i];
      assert Names(was, j, userId, id);
    }
    if i :| 0 <= i < |was.events| && Names(was, i, userId, id) {
      WithoutMember(was.events, gone, was.events[i]);
      var j :| 0 <= j < |done.events| && done.events[j] == was.events[i];
      assert Names(done, j, userId, id);
    }
  }

  lemma {:induction false} NamingByIndex(s: State, userId: string, id: string)
    ensures id in NamingAggregates(s.events, s.subjects, userId) <==> exists i | 0 <= i < |s.events| :: Names(s, i, userId, id)
  {
    if i :| 0 <= i < |s.events| && Names(s, i, userId, id) {
      assert s.events[i].aggregateId in NamingAggregates(s.events, s.subjects, userId);
    }
    if id in NamingAggregates(s.events, s.subjects, userId) {
      var i :| 0 <= i < |s.events| && s.events[i].position in s.subjects
               && s.subjects[s.events[i].position].userId == userId && s.events[i].aggregateId == id;
      assert Names(s, i, userId, id);
    }
  }

  lemma {:induction false} OneMoreUser(s: State, aggregates: set<string>, users: set<string>, userId: string)
    ensures PurgedAggregates(s, aggregates, users + {userId})
         == PurgedAggregates(s, aggregates, users) + NamingAggregates(s.events, s.subjects, userId) + {userId}
  {
  }

  lemma {:induction false} UserAddsItsAggregates(
    was: State, aggregates: set<string>, users: set<string>, userId: string, e: Event
  )
    requires Ordered(was.events) && was.subjects.Keys <= Positions(was.events) && userId !in users
    requires e in was.events
    ensures var done := PurgedState(was, aggregates, users);
      e.aggregateId in PurgedAggregates(was, aggregates, users) + NamingAggregates(done.events, done.subjects, userId) + {userId}
      <==> e.aggregateId in PurgedAggregates(was, aggregates, users + {userId})
  {
    var done := PurgedState(was, aggregates, users);
    OneMoreUser(was, aggregates, users, userId);
    if e.aggregateId !in PurgedAggregates(was, aggregates, users) {
      NamingByIndex(was, userId, e.aggregateId);
      NamingByIndex(done, userId, e.aggregateId);
      StillNames(was, aggregates, users, userId, e.aggregateId);
    }
  }

  lemma {:induction false} PurgeUserEvents(was: State, aggregates: set<string>, users: set<string>, userId: string)
    requires Ordered(was.events) && was.subjects.Keys <= Positions(was.events) && userId !in users
    ensures var done := PurgedState(was, aggregates, users);
            Without(done.events, NamingAggregates(done.events, done.subjects, userId) + {userId}) ==
            Without(was.events, PurgedAggregates(was, aggregates, users + {userId}))
  {
    var done, gone := PurgedState(was, aggregates, users), PurgedAggregates(was, aggregates, users);
    var named := NamingAggregates(done.events, done.subjects, userId);
    var all := PurgedAggregates(was, aggregates, users + {userId});
    WithoutTwice(was.events, gone, named + {userId});
    assert gone + (named + {userId}) == gone + named + {userId};
    forall e | e in was.events
      ensures e.aggregateId in gone + named + {userId} <==> e.aggregateId in all
    {
      UserAddsItsAggregates(was, aggregates, users, userId, e);
    }
    WithoutSame(was.events, gone + named + {userId}, all);
  }

  lemma {:induction false} PositionsShrink(events: seq<Event>, gone: set<string>, more: set<string>)
    requires Ordered(events) && gone <= more
    ensures Positions(Without(events, more)) <= Positions(Without(events, gone))
  {
    forall position | position in Positions(Without(events, more))
      ensures position in Positions(Without(events, gone))
    {
      PositionsOfWithout(events, more, position);
      PositionsOfWithout(events, gone, position);
    }
  }

  lemma {:induction false} PurgeUserSubjects(
    was: State, done: State, next: State, aggregates: set<string>, users: set<string>, userId: string
  )
    requires done == PurgedState(was, aggregates, users) && next == PurgedState(was, aggregates, users + {userId})
    requires Positions(next.events) <= Positions(done.events)
    ensures Cascaded(WithoutUser(done.subjects, userId), next.events) == next.subjects
  {
  }

  /** Deleting one more user's aggregates and subject rows extends a purge by that user. */
  lemma {:induction false} PurgeUserStep(was: State, aggregates: set<string>, users: set<string>, userId: string)
    requires Ordered(was.events) && was.subjects.Keys <= Positions(was.events) && userId !in users
    ensures var done, next := PurgedState(was, aggregates, users), PurgedState(was, aggregates, users + {userId});
      && Without(done.events, NamingAggregates(done.events, done.subjects, userId) + {userId}) == next.events
      && Cascaded(WithoutUser(done.subjects, userId), next.events) == next.subjects
  {
    PurgeUserEvents(was, aggregates, users, userId);
    PositionsShrink(was.events, PurgedAggregates(was, aggregates, users), PurgedAggregates(was, aggregates, users + {userId}));
    PurgeUserSubjects(was, PurgedState(was, aggregates, users), PurgedState(was, aggregates, users + {userId}), aggregates, users, userId);
  }

  lemma {:induction false} WithoutNothing(events: seq<Event>)
    ensures Without(events, {}) == events
  {
    if events != [] {
      WithoutNothing(events[..|events| - 1]);
      assert events == events[..|events| - 1] + [events[|events| - 1]];
    }
  }

  lemma {:induction false} PurgeOfNothing(s: State)
    requires Committed(s)
    ensures PurgedState(s, {}, {}) == s
  {
    WithoutNothing(s.events);
    assert PurgedAggregates(s, {}, {}) == {};
  }

  lemma {:induction false} CascadeTwice(subjects: map<nat, Subject>, events: seq<Event>, gone: set<string>)
    requires Ordered(events)
    ensures Cascaded(Cascaded(subjects, events), Without(events, gone)) == Cascaded(subjects, Without(events, gone))
  {
    WithoutNothing(events);
    PositionsShrink(events, {}, gone);
  }

  lemma {:induction false} WithoutOrdered(events: seq<Event>, gone: set<string>)
    requires Ordered(events)
    ensures Ordered(Without(events, gone))
  {
    if events != [] {
      var before := events[..|events| - 1];
      WithoutOrdered(before, gone);
      forall i | 0 <= i < |Without(before, gone)|
        ensures Without(before, gone)[i].position < events[|events| - 1].position
      {
        WithoutMember(before, gone, Without(before, gone)[i]);
      }
    }
  }

  // ------------------------------------------------------------------ commands

  /** The statements a transaction may issue against the log. */
  datatype Command =
    | Append(input: EventInput, runtime: Runtime)
    | NameUser(position: nat, subject: Subject)
    | Purge(aggregateIds: seq<string>, userIds: seq<string>)
    | RawUpdate(position: nat)
    | RawDelete(position: nat)
    | DeleteUser(userId: string)
    | Fail

  predicate HasPosition(events: seq<Event>, position: nat) {
    exists i | 0 <= i < |events| :: events[i].position == position
  }

  /** The delete trigger: some addressed event's aggregate is not in the gate. */
  predicate DeleteAborts(s: State, position: nat) {
    exists i | 0 <= i < |s.events| :: s.events[i].position == position && s.events[i].aggregateId !in s.gate
  }

  function WithoutPosition(events: seq<Event>, position: nat): seq<Event> {
    if events == [] then []
    else
      var last := events[|events| - 1];
      WithoutPosition(events[..|events| - 1], position) + if last.position == position then [] else [last]
  }

  /** The tables after a command that succeeds; None when a check, a trigger or a key refuses it. */
  function Step(s: State, c: Command): Option<State> {
    match c
    case Append(input, runtime) =>
      var prepared := EventPrepare(input, runtime, s.nextPosition);
      if prepared.Err? || IdIsTaken(s.events, prepared.data.id) then None
      else Some(s.(events := s.events + [prepared.data], nextPosition := s.nextPosition + 1))
    case NameUser(position, subject) =>
      if position in s.subjects || !HasPosition(s.events, position) then None
      else Some(s.(subjects := s.subjects[position := subject]))
    case Purge(aggregateIds, userIds) => Some(Purged(s, NonEmpty(aggregateIds), NonEmpty(userIds)))
    case RawUpdate(position) => if HasPosition(s.events, position) then None else Some(s)
    case RawDelete(position) =>
      if DeleteAborts(s, position) then None
      else
        var events := WithoutPosition(s.events, position);
        Some(s.(events := events, subjects := Cascaded(s.subjects, events)))
    case DeleteUser(userId) => Some(s.(subjects := WithoutUser(s.subjects, userId)))
    case Fail => None
  }

  /** An append is refused exactly if the event is not acceptable or its id is taken, and otherwise adds one row at the end. */
  lemma {:induction false} AppendExactly(s: State, input: EventInput, runtime: Runtime)
    ensures var c := Append(input, runtime);
      if IsAcceptable(input, runtime) && forall e | e in s.events :: e.id != EventPrepare(input, runtime, s.nextPosition).data.id
      then Step(s, c) == Some(State(s.events + [EventPrepare(input, runtime, s.nextPosition).data], s.subjects, s.gate, s.nextPosition + 1))
      else Step(s, c) == None
  {
    PreparedExactly(input, runtime, s.nextPosition);
    if IsAcceptable(input, runtime) {
      var id := EventPrepare(input, runtime, s.nextPosition).data.id;
      if i :| 0 <= i < |s.events| && s.events[i].id == id { assert s.events[i] in s.events; }
    }
  }

  /** A subject row is added exactly for an event that is there and has none. */
  lemma {:induction false} NameUserExactly(s: State, position: nat, subject: Subject)
    ensures Step(s, NameUser(position, subject)).Some? <==>
            position !in s.subjects && exists e :: e in s.events && e.position == position
    ensures Step(s, NameUser(position, subject)).Some? ==>
            Step(s, NameUser(position, subject)).value == State(s.events, s.subjects[position := subject], s.gate, s.nextPosition)
  {
    if i :| 0 <= i < |s.events| && s.events[i].position == position { assert s.events[i] in s.events; }
  }

  /** No event that is there can be updated; deleting a user takes exactly that user's subject rows. */
  lemma {:induction false} RawUpdateAndDeleteUserExactly(s: State, position: nat, userId: string)
    ensures Step(s, RawUpdate(position)) ==
            if exists e :: e in s.events && e.position == position then None else Some(s)
    ensures exists kept ::
      && Step(s, DeleteUser(userId)) == Some(State(s.events, kept, s.gate, s.nextPosition))
      && forall p, subject :: (p in kept && kept[p] == subject) <==> p in s.subjects && s.subjects[p] == subject && subject.userId != userId
  {
    if i :| 0 <= i < |s.events| && s.events[i].position == position { assert s.events[i] in s.events; }
    var kept := Step(s, DeleteUser(userId)).value.subjects;
    assert Step(s, DeleteUser(userId)) == Some(State(s.events, kept, s.gate, s.nextPosition));
  }

  /** A raw delete is refused exactly if it meets an event that the gate does not name, and otherwise takes what it addresses. */
  lemma {:induction false} RawDeleteExactly(s: State, position: nat)
    ensures Step(s, RawDelete(position)).None? <==> exists e :: e in s.events && e.position == position && e.aggregateId !in s.gate
    ensures Step(s, RawDelete(position)).Some? ==>
      var t := Step(s, RawDelete(position)).value;
      && t.gate == s.gate && t.nextPosition == s.nextPosition
      && (forall e :: e in t.events <==> e in s.events && e.position != position)
      && t.subjects.Keys == s.subjects.Keys * Positions(t.events)
      && forall p | p in t.subjects :: t.subjects[p] == s.subjects[p]
  {
    if i :| 0 <= i < |s.events| && s.events[i].position == position && s.events[i].aggregateId !in s.gate {
      assert s.events[i] in s.events;
    }
    if Step(s, RawDelete(position)).Some? {
      forall e
        ensures e in WithoutPosition(s.events, position) <==> e in s.events && e.position != position
      {
        WithoutPositionMember(s.events, position, e);
      }
    }
  }

  lemma {:induction false} WithoutAbsentPosition(events: seq<Event>, position: nat)
    requires !HasPosition(events, position)
    ensures WithoutPosition(events, position) == events
  {
    if events != [] {
      assert events[|events| - 1].position != position;
      WithoutAbsentPosition(events[..|events| - 1], position);
    }
  }

  /** With the gate empty the triggers leave no way to touch an event. */
  lemma {:induction false} ClosedGateDeletesNothing(s: State, position: nat)
    requires Committed(s)
    ensures Step(s, RawDelete(position)) == if HasPosition(s.events, position) then None else Some(s)
  {
    ClosedGateAborts(s, position);
    if !HasPosition(s.events, position) {
      WithoutAbsentPosition(s.events, position);
      CascadeOfAll(s);
    }
  }

  lemma {:induction false} ClosedGateAborts(s: State, position: nat)
    requires s.gate == {}
    ensures DeleteAborts(s, position) <==> HasPosition(s.events, position)
  {
  }

  lemma {:induction false} CascadeOfAll(s: State)
    requires s.subjects.Keys <= Positions(s.events)
    ensures Cascaded(s.subjects, s.events) == s.subjects
  {
  }

  lemma {:induction false} WithoutIdsDistinct(events: seq<Event>, gone: set<string>)
    requires IdsDiffer(events)
    ensures IdsDiffer(Without(events, gone))
  {
    if events != [] {
      var before := events[..|events| - 1];
      WithoutIdsDistinct(before, gone);
      forall i | 0 <= i < |Without(before, gone)|
        ensures Without(before, gone)[i].id != events[|events| - 1].id
      {
        WithoutMember(before, gone, Without(before, gone)[i]);
      }
    }
  }

  lemma {:induction false} WithoutKeepsSound(s: State, gone: set<string>, t: State)
    requires Sound(s) && t.nextPosition == s.nextPosition && t.events == Without(s.events, gone)
    requires t.subjects.Keys <= Positions(t.events)
    ensures Sound(t)
  {
    WithoutOrdered(s.events, gone);
    WithoutIdsDistinct(s.events, gone);
    forall e | e in t.events
      ensures e.position < t.nextPosition && e.aggregateId != ""
    {
      WithoutMember(s.events, gone, e);
    }
  }

  lemma {:induction false} AppendKeepsSound(s: State, e: Event)
    requires Sound(s) && e.position == s.nextPosition && e.aggregateId != "" && !IdIsTaken(s.events, e.id)
    ensures Sound(s.(events := s.events + [e], nextPosition := s.nextPosition + 1))
  {
    forall position | position in s.subjects
      ensures position in Positions(s.events + [e])
    {
      var i :| 0 <= i < |s.events| && s.events[i].position == position;
      assert (s.events + [e])[i].position == position;
    }
  }

  lemma {:induction false} WithoutPositionMember(events: seq<Event>, position: nat, e: Event)
    ensures e in WithoutPosition(events, position) <==> e in events && e.position != position
  {
    if events != [] {
      var before, last := events[..|events| - 1], events[|events| - 1];
      WithoutPositionMember(before, position, e);
      assert events == before + [last];
    }
  }

  lemma {:induction false} WithoutPositionKeeps(events: seq<Event>, position: nat)
    requires Ordered(events) && IdsDiffer(events)
    ensures Ordered(WithoutPosition(events, position)) && IdsDiffer(WithoutPosition(events, position))
  {
    if events != [] {
      var n := |events| - 1;
      var kept := WithoutPosition(events[..n], position);
      WithoutPositionKeeps(events[..n], position);
      forall i | 0 <= i < |kept|
        ensures kept[i].position < events[n].position && kept[i].id != events[n].id
      {
        WithoutPositionMember(events[..n], position, kept[i]);
        var j :| 0 <= j < n && events[..n][j] == kept[i];
        assert events[j] == kept[i];
      }
    }
  }

  lemma {:induction false} RawDeleteKeepsSound(s: State, position: nat)
    requires Sound(s) && Step(s, RawDelete(position)).Some?
    ensures Sound(Step(s, RawDelete(position)).value)
  {
    WithoutPositionKeeps(s.events, position);
    forall e | e in WithoutPosition(s.events, position)
      ensures e in s.events
    {
      WithoutPositionMember(s.events, position, e);
    }
  }

  lemma {:induction false} StepKeepsSound(s: State, c: Command)
    requires Sound(s) && Step(s, c).Some?
    ensures Sound(Step(s, c).value)
  {
    match c
    case Append(input, runtime) => AppendKeepsSound(s, EventPrepare(input, runtime, s.nextPosition).data);
    case Purge(aggregateIds, userIds) => PurgeKeepsSound(s, NonEmpty(aggregateIds), NonEmpty(userIds));
    case RawDelete(position) => RawDeleteKeepsSound(s, position);
    case _ =>
  }

  lemma {:induction false} PurgeKeepsSound(s: State, aggregates: set<string>, users: set<string>)
    requires Sound(s)
    ensures Sound(Purged(s, aggregates, users))
  {
    WithoutKeepsSound(s, PurgedAggregates(s, aggregates, users), PurgedState(s, aggregates, users));
  }

  /** Every statement that goes through keeps the tables committable. */
  lemma {:induction false} StepKeepsCommitted(s: State, c: Command)
    requires Committed(s) && Step(s, c).Some?
    ensures Committed(Step(s, c).value)
  {
    StepKeepsSound(s, c);
  }

  // -------------------------------------------------------------------- id lists

  /** One more DELETE in a pass that has removed `gone` from `all`. */
  lemma {:induction false} DeleteStep(all: seq<Event>, subjects: map<nat, Subject>, gone: set<string>, id: string)
    requires Ordered(all)
    ensures Without(Without(all, gone), {id}) == Without(all, gone + {id})
    ensures Cascaded(Cascaded(subjects, Without(all, gone)), Without(all, gone + {id})) == Cascaded(subjects, Without(all, gone + {id}))
  {
    WithoutTwice(all, gone, {id});
    WithoutOrdered(all, gone);
    CascadeTwice(subjects, Without(all, gone), {id});
  }

  lemma {:induction false} MemberOfSetOf(ids: seq<string>, id: string)
    ensures id in ids <==> id in SetOf(ids)
  {
  }

  lemma {:induction false} NonEmptySnoc(ids: seq<string>, k: nat)
    requires k < |ids|
    ensures NonEmpty(ids[..k + 1]) == if ids[k] == "" then NonEmpty(ids[..k]) else NonEmpty(ids[..k]) + {ids[k]}
    ensures NoRepeats(ids) ==> ids[k] !in NonEmpty(ids[..k])
  {
    forall id | id in NonEmpty(ids[..k])
      ensures id in NonEmpty(ids[..k + 1])
    {
      var i :| 0 <= i < k && ids[..k][i] != "" && ids[..k][i] == id;
      assert ids[..k + 1][i] == id;
    }
    if ids[k] != "" { assert ids[..k + 1][k] in NonEmpty(ids[..k + 1]); }
  }

  lemma {:induction false} NonEmptyIsSetOf(ids: seq<string>)
    requires "" !in SetOf(ids)
    ensures NonEmpty(ids) == SetOf(ids)
  {
  }

  function NonEmpty(ids: seq<string>): set<string> {
    set i | 0 <= i < |ids| && ids[i] != "" :: ids[i]
  }

  lemma {:induction false} DistinctIsNonEmpty(ids: seq<string>)
    ensures NonEmpty(Distinct(ids)) == NonEmpty(ids)
  {
    forall id | id in NonEmpty(Distinct(ids))
      ensures id in NonEmpty(ids)
    {
      assert id in Distinct(ids);
    }
    forall id | id in NonEmpty(ids)
      ensures id in NonEmpty(Distinct(ids))
    {
      assert id in Distinct(ids);
    }
  }

  lemma {:induction false} DistinctIsEmpty(ids: seq<string>)
    ensures Distinct(ids) == [] <==> NonEmpty(ids) == {}
    ensures forall i | 0 <= i < |Distinct(ids)| :: Distinct(ids)[i] != ""
  {
    DistinctIsNonEmpty(ids);
    if Distinct(ids) != [] { assert Distinct(ids)[0] in Distinct(ids) && Distinct(ids)[0] in NonEmpty(ids); }
    forall i | 0 <= i < |Distinct(ids)|
      ensures Distinct(ids)[i] != ""
    {
      assert Distinct(ids)[i] in Distinct(ids);
    }
  }

  lemma {:induction false} NamingAreNotEmpty(was: State, aggregates: set<string>, users: set<string>, userId: string)
    requires forall e | e in was.events :: e.aggregateId != ""
    ensures var done := PurgedState(was, aggregates, users); "" !in NamingAggregates(done.events, done.subjects, userId)
  {
    var done := PurgedState(was, aggregates, users);
    forall i | 0 <= i < |done.events|
      ensures done.events[i].aggregateId != ""
    {
      WithoutMember(was.events, PurgedAggregates(was, aggregates, users), done.events[i]);
    }
  }

  lemma {:induction false} NamingSnoc(events: seq<Event>, e: Event, subjects: map<nat, Subject>, userId: string)
    ensures NamingAggregates(events + [e], subjects, userId)
         == NamingAggregates(events, subjects, userId)
            + if e.position in subjects && subjects[e.position].userId == userId then {e.aggregateId} else {}
  {
    var longer := events + [e];
    forall id | id in NamingAggregates(events, subjects, userId)
      ensures id in NamingAggregates(longer, subjects, userId)
    {
      var i :| 0 <= i < |events| && events[i].position in subjects && subjects[events[i].position].userId == userId
               && events[i].aggregateId == id;
      assert longer[i] == events[i];
    }
    assert longer[|events|] == e;
  }

  lemma {:induction false} SetOfSnoc(ids: seq<string>, id: string)
    ensures SetOf(ids + [id]) == SetOf(ids) + {id}
  {
    forall x | x in SetOf(ids)
      ensures x in SetOf(ids + [id])
    {
      var i :| 0 <= i < |ids| && ids[i] == x;
      assert (ids + [id])[i] == x;
    }
    assert (ids + [id])[|ids|] == id;
  }
}
