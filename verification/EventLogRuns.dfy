/**
 * What the event log guarantees: exactly what a purge removes, and that over any
 * run of transactions nothing else ever removes, changes or renumbers an event.
 */
module EventLogRuns {
  import opened Wrappers
  import opened EventLog
  import opened EventPurge
  import opened EventDatabase

  // ------------------------------------------------------------ purges, exactly

  /**
   * A purge leaves exactly the events of other aggregates; no subject row dangles or names a
   * purged user, and every surviving event keeps its row.
   */
  lemma {:induction false} PurgeExactly(s: State, aggregates: set<string>, users: set<string>)
    requires Committed(s)
    ensures var t := PurgedState(s, aggregates, users);
      && (forall e :: e in t.events <==> e in s.events && e.aggregateId !in PurgedAggregates(s, aggregates, users))
      && t.subjects.Keys <= Positions(t.events)
      && (forall position | position in t.subjects :: t.subjects[position].userId !in users)
      && (forall position | position in Positions(t.events) && position in s.subjects ::
            position in t.subjects && t.subjects[position] == s.subjects[position])
  {
    var gone := PurgedAggregates(s, aggregates, users);
    var t := PurgedState(s, aggregates, users);
    forall e
      ensures e in t.events <==> e in s.events && e.aggregateId !in gone
    {
      WithoutMember(s.events, gone, e);
    }
    forall position | position in Positions(t.events) && position in s.subjects
      ensures s.subjects[position].userId !in users
    {
      PositionsOfWithout(s.events, gone, position);
    }
  }

  predicate NamesOneOf(subjects: map<nat, Subject>, e: Event, users: set<string>) {
    e.position in subjects && subjects[e.position].userId in users
  }

  lemma {:induction false} NamingEventIsPurged(s: State, aggregates: set<string>, users: set<string>, e: Event)
    requires e in s.events && NamesOneOf(s.subjects, e, users)
    ensures e.aggregateId in PurgedAggregates(s, aggregates, users)
  {
    var i :| 0 <= i < |s.events| && s.events[i] == e;
  }

  lemma {:induction false} PurgedByName(s: State, aggregates: set<string>, users: set<string>, id: string) returns (e: Event)
    requires id in PurgedAggregates(s, aggregates, users) && id !in aggregates + users
    ensures e in s.events && NamesOneOf(s.subjects, e, users) && e.aggregateId == id
  {
    var i :| 0 <= i < |s.events| && NamesOneOf(s.subjects, s.events[i], users) && s.events[i].aggregateId == id;
    e := s.events[i];
  }

  lemma {:induction false} SecondPurgeRemovesNoMore(
    s: State, a1: set<string>, u1: set<string>, a2: set<string>, u2: set<string>, id: string
  )
    requires Committed(s) && id in PurgedAggregates(PurgedState(s, a1, u1), a2, u2)
    ensures id in PurgedAggregates(s, a1 + a2, u1 + u2)
  {
    if id !in a2 + u2 {
      var e := PurgedByName(PurgedState(s, a1, u1), a2, u2, id);
      WithoutMember(s.events, PurgedAggregates(s, a1, u1), e);
      NamingEventIsPurged(s, a1 + a2, u1 + u2, e);
    }
  }

  lemma {:induction false} SecondPurgeRemovesTheRest(
    s: State, a1: set<string>, u1: set<string>, a2: set<string>, u2: set<string>, id: string
  )
    requires Committed(s) && id in PurgedAggregates(s, a1 + a2, u1 + u2) && id !in PurgedAggregates(s, a1, u1)
    ensures id in PurgedAggregates(PurgedState(s, a1, u1), a2, u2)
  {
    if id !in a2 + u2 {
      var e := PurgedByName(s, a1 + a2, u1 + u2, id);
      var t := PurgedState(s, a1, u1);
      WithoutMember(s.events, PurgedAggregates(s, a1, u1), e);
      if NamesOneOf(s.subjects, e, u1) { NamingEventIsPurged(s, a1, u1, e); }
      assert e.position in Positions(t.events);
      NamingEventIsPurged(t, a2, u2, e);
    }
  }

  lemma {:induction false} FirstPurgeIsIncluded(s: State, a1: set<string>, u1: set<string>, a2: set<string>, u2: set<string>)
    ensures PurgedAggregates(s, a1, u1) <= PurgedAggregates(s, a1 + a2, u1 + u2)
  {
  }

  /** Two purges in a row are one purge of both, so neither order nor batching of ids matters. */
  lemma {:induction false} PurgesCompose(s: State, a1: set<string>, u1: set<string>, a2: set<string>, u2: set<string>)
    requires Committed(s)
    ensures PurgedState(PurgedState(s, a1, u1), a2, u2) == PurgedState(s, a1 + a2, u1 + u2)
  {
    var t, gone := PurgedState(s, a1, u1), PurgedAggregates(s, a1, u1);
    var more, all := PurgedAggregates(t, a2, u2), PurgedAggregates(s, a1 + a2, u1 + u2);
    FirstPurgeIsIncluded(s, a1, u1, a2, u2);
    forall e | e in s.events
      ensures e.aggregateId in gone + more <==> e.aggregateId in all
    {
      if e.aggregateId in more { SecondPurgeRemovesNoMore(s, a1, u1, a2, u2, e.aggregateId); }
      if e.aggregateId in all && e.aggregateId !in gone { SecondPurgeRemovesTheRest(s, a1, u1, a2, u2, e.aggregateId); }
    }
    WithoutTwice(s.events, gone, more);
    WithoutSame(s.events, gone + more, all);
    PurgedSubjects(s, a1, u1, a2, u2);
  }

  lemma {:induction false} PurgedSubjects(s: State, a1: set<string>, u1: set<string>, a2: set<string>, u2: set<string>)
    requires Committed(s)
    requires PurgedState(PurgedState(s, a1, u1), a2, u2).events == PurgedState(s, a1 + a2, u1 + u2).events
    ensures PurgedState(PurgedState(s, a1, u1), a2, u2).subjects == PurgedState(s, a1 + a2, u1 + u2).subjects
  {
    var t := PurgedState(s, a1, u1);
    WithoutNothing(t.events);
    WithoutOrdered(s.events, PurgedAggregates(s, a1, u1));
    PositionsShrink(t.events, {}, PurgedAggregates(t, a2, u2));
    SubjectsTwice(s, t, PurgedState(t, a2, u2), PurgedState(s, a1 + a2, u1 + u2), a1, u1, a2, u2);
  }

  lemma {:induction false} SubjectsTwice(
    s: State, t: State, w: State, z: State, a1: set<string>, u1: set<string>, a2: set<string>, u2: set<string>
  )
    requires t == PurgedState(s, a1, u1) && w == PurgedState(t, a2, u2) && z == PurgedState(s, a1 + a2, u1 + u2)
    requires w.events == z.events && Positions(w.events) <= Positions(t.events)
    ensures w.subjects == z.subjects
  {
  }

  // ---------------------------------------------------------- one transaction

  /** What never happens to a log between two commits. */
  ghost predicate Extends(s: State, t: State) {
    s.nextPosition <= t.nextPosition
    && forall e | e in t.events && e.position < s.nextPosition :: e in s.events
  }

  predicate HasPurge(attempts: seq<Attempt>) {
    exists i | 0 <= i < |attempts| :: attempts[i].command.Purge?
  }

  /** The command is a purge whose ids cover the aggregate, given what the log holds. */
  predicate Covers(s: State, c: Command, id: string) {
    c.Purge? && id in PurgedAggregates(s, NonEmpty(c.aggregateIds), NonEmpty(c.userIds))
  }

  lemma {:induction false} PurgedKeeps(s: State, aggregates: set<string>, users: set<string>, e: Event)
    ensures e in Purged(s, aggregates, users).events ==> e in s.events
    ensures e in s.events && e !in Purged(s, aggregates, users).events ==> e.aggregateId in PurgedAggregates(s, aggregates, users)
  {
    WithoutMember(s.events, PurgedAggregates(s, aggregates, users), e);
  }

  /** A step adds events at new positions only, and without a purge it removes only what the gate names. */
  lemma {:induction false} StepEvents(s: State, c: Command, e: Event)
    requires Sound(s) && Step(s, c).Some?
    ensures e in Step(s, c).value.events ==> e in s.events || e.position >= s.nextPosition
    ensures e in s.events && e !in Step(s, c).value.events ==> e.aggregateId in s.gate || Covers(s, c, e.aggregateId)
    ensures s.nextPosition <= Step(s, c).value.nextPosition && Step(s, c).value.gate <= s.gate
  {
    match c
    case Purge(aggregateIds, userIds) => PurgedKeeps(s, NonEmpty(aggregateIds), NonEmpty(userIds), e);
    case RawDelete(position) =>
      WithoutPositionMember(s.events, position, e);
      if e in s.events && e.position == position { var i :| 0 <= i < |s.events| && s.events[i] == e; }
    case _ =>
  }

  lemma {:induction false} MoveEvents(s: State, a: Attempt, u: State, e: Event)
    requires Sound(s) && Moves(s, a, u)
    ensures e in u.events ==> e in s.events || e.position >= s.nextPosition
    ensures e in s.events && e !in u.events ==> e.aggregateId in s.gate || Covers(s, a.command, e.aggregateId)
    ensures s.nextPosition <= u.nextPosition
  {
    if Step(s, a.command) == Some(u) {
      StepEvents(s, a.command, e);
    } else if a.command.Purge? {
      MoveOfPurge(s, a, u);
    }
  }

  lemma {:induction false} MoveOfPurge(s: State, a: Attempt, u: State)
    requires Sound(s) && Moves(s, a, u) && Step(s, a.command) != Some(u) && a.command.Purge?
    ensures Thinned(s, u) && forall id | id in u.gate :: id in s.gate || Covers(s, a.command, id)
  {
    var ws := PurgeWrites(s, a.command.aggregateIds, a.command.userIds);
    var n :| 0 <= n < |ws| && u == WrittenUpTo(s, ws, n);
    StoppedPurgeIsCovered(s, a.command.aggregateIds, a.command.userIds, n);
  }

  lemma {:induction false} MoveNames(s: State, a: Attempt, u: State, id: string)
    requires Sound(s) && Moves(s, a, u) && id in u.gate && id !in s.gate
    ensures Covers(s, a.command, id) && a.tolerated
  {
    if Step(s, a.command) != Some(u) && a.command.Purge? { MoveOfPurge(s, a, u); }
  }

  lemma {:induction false} PurgeInRest(attempts: seq<Attempt>)
    requires attempts != []
    ensures HasPurge(attempts[1..]) ==> HasPurge(attempts)
    ensures SwallowsPurge(attempts[1..]) ==> SwallowsPurge(attempts)
  {
    var rest := attempts[1..];
    if i :| 0 <= i < |rest| && rest[i].command.Purge? { assert attempts[i + 1].command.Purge?; }
    if i :| 0 <= i < |rest| && rest[i].tolerated && rest[i].command.Purge? { assert attempts[i + 1] == rest[i]; }
  }

  /** However failures are tolerated, a transaction keeps the rules of the tables and all old positions. */
  lemma {:induction false} TransactionExtends(s: State, attempts: seq<Attempt>, t: State)
    requires Sound(s) && Reaches(s, attempts, t)
    ensures Sound(t) && Extends(s, t)
    decreases |attempts|
  {
    if attempts != [] {
      var u :| Moves(s, attempts[0], u) && Reaches(u, attempts[1..], t);
      MoveKeepsSound(s, attempts[0], u);
      TransactionExtends(u, attempts[1..], t);
      forall e | e in t.events && e.position < s.nextPosition
        ensures e in s.events
      {
        MoveEvents(s, attempts[0], u, e);
      }
      assert s.nextPosition <= u.nextPosition by { MoveKeepsPositions(s, attempts[0], u); }
    }
  }

  lemma {:induction false} MoveKeepsPositions(s: State, a: Attempt, u: State)
    requires Sound(s) && Moves(s, a, u)
    ensures s.nextPosition <= u.nextPosition
  {
    if Step(s, a.command) != Some(u) && a.command.Purge? { MoveOfPurge(s, a, u); }
  }

  // ------------------------------------------------- what opens the gate, what removes

  /** On the way from `s` to `t`, in state `u`, the transaction attempted a purge whose ids cover the aggregate. */
  ghost predicate PurgedAt(s: State, attempts: seq<Attempt>, t: State, i: int, u: State, id: string) {
    0 <= i < |attempts| && Reaches(s, attempts[..i], u) && Reaches(u, attempts[i..], t) && Covers(u, attempts[i].command, id)
  }

  lemma {:induction false} PurgedFirst(s: State, attempts: seq<Attempt>, t: State, id: string)
    requires attempts != [] && Reaches(s, attempts, t) && Covers(s, attempts[0].command, id)
    ensures PurgedAt(s, attempts, t, 0, s, id)
  {
    assert attempts[..0] == [] && attempts[0..] == attempts;
  }

  lemma {:induction false} PurgedLater(s: State, attempts: seq<Attempt>, t: State, first: State, i: int, u: State, id: string)
    requires attempts != [] && Moves(s, attempts[0], first) && PurgedAt(first, attempts[1..], t, i, u, id)
    ensures PurgedAt(s, attempts, t, i + 1, u, id) && attempts[i + 1] == attempts[1..][i]
  {
    var rest := attempts[1..];
    var way := attempts[..i + 1];
    assert way[0] == attempts[0] && way[1..] == rest[..i] && attempts[i + 1..] == rest[i..];
    assert Reaches(s, way, u);
  }

  /** What a transaction leaves in the gate, a purge that it swallowed covers. */
  lemma {:induction false} TransactionNames(s: State, attempts: seq<Attempt>, t: State, id: string) returns (i: nat, u: State)
    requires Sound(s) && Reaches(s, attempts, t) && id in t.gate && id !in s.gate
    ensures PurgedAt(s, attempts, t, i, u, id) && attempts[i].tolerated
    decreases |attempts|
  {
    var first :| Moves(s, attempts[0], first) && Reaches(first, attempts[1..], t);
    if id in first.gate {
      i, u := 0, s;
      MoveNames(s, attempts[0], first, id);
      PurgedFirst(s, attempts, t, id);
    } else {
      MoveKeepsSound(s, attempts[0], first);
      i, u := TransactionNames(first, attempts[1..], t, id);
      PurgedLater(s, attempts, t, first, i, u, id);
      i := i + 1;
    }
  }

  /** What a transaction removes was open to removal from the start, or one of its purges covers it while it was there. */
  lemma {:induction false} TransactionRemoves(s: State, attempts: seq<Attempt>, t: State, e: Event) returns (i: nat, u: State)
    requires Sound(s) && Reaches(s, attempts, t) && e in s.events && e !in t.events && e.aggregateId !in s.gate
    ensures PurgedAt(s, attempts, t, i, u, e.aggregateId) && e in u.events
    decreases |attempts|
  {
    var first :| Moves(s, attempts[0], first) && Reaches(first, attempts[1..], t);
    MoveEvents(s, attempts[0], first, e);
    if e !in first.events || e.aggregateId in first.gate {
      if e in first.events { MoveNames(s, attempts[0], first, e.aggregateId); }
      i, u := 0, s;
      PurgedFirst(s, attempts, t, e.aggregateId);
    } else {
      MoveKeepsSound(s, attempts[0], first);
      i, u := TransactionRemoves(first, attempts[1..], t, e);
      PurgedLater(s, attempts, t, first, i, u, e.aggregateId);
      i := i + 1;
    }
  }

  /** A transaction that swallows no failed purge leaves the gate shut, and one without a purge only appends. */
  lemma {:induction false} TransactionKeepsGateShut(s: State, attempts: seq<Attempt>, t: State)
    requires Committed(s) && Reaches(s, attempts, t)
    ensures !SwallowsPurge(attempts) ==> Committed(t)
    ensures !HasPurge(attempts) ==> Committed(t) && s.events <= t.events
  {
    TransactionExtends(s, attempts, t);
    if id :| id in t.gate {
      var i, u := TransactionNames(s, attempts, t, id);
    }
    if !HasPurge(attempts) { PurgeFreeAppends(s, attempts, t); }
  }

  lemma {:induction false} PurgeFreeAppends(s: State, attempts: seq<Attempt>, t: State)
    requires Committed(s) && Reaches(s, attempts, t) && !HasPurge(attempts)
    ensures s.events <= t.events
    decreases |attempts|
  {
    if attempts != [] {
      var u :| Moves(s, attempts[0], u) && Reaches(u, attempts[1..], t);
      PurgeInRest(attempts);
      assert !attempts[0].command.Purge?;
      if Step(s, attempts[0].command) == Some(u) {
        StepKeepsCommitted(s, attempts[0].command);
        StepAppends(s, attempts[0].command);
      }
      PurgeFreeAppends(u, attempts[1..], t);
    }
  }

  lemma {:induction false} StepAppends(s: State, c: Command)
    requires Committed(s) && Step(s, c).Some? && !c.Purge?
    ensures s.events <= Step(s, c).value.events
  {
    match c
    case RawDelete(position) => ClosedGateDeletesNothing(s, position);
    case _ =>
  }

  // ------------------------------------------------------------------- all runs

  /** States at successive transaction ends: each transaction commits or leaves no trace. */
  ghost predicate IsRun(states: seq<State>, transactions: seq<seq<Attempt>>) {
    |states| == |transactions| + 1
    && forall k | 0 <= k < |transactions| ::
         states[k + 1] == states[k] || Reaches(states[k], transactions[k], states[k + 1])
  }

  /** No transaction goes on after a failed purge. */
  predicate NoneSwallows(transactions: seq<seq<Attempt>>) {
    forall k | 0 <= k < |transactions| :: !SwallowsPurge(transactions[k])
  }

  /** At every commit point of every run the tables are sound, and no event appears at an old position. */
  lemma {:induction false} RunExtends(states: seq<State>, transactions: seq<seq<Attempt>>, i: nat, j: nat)
    requires IsRun(states, transactions) && Committed(states[0]) && i <= j < |states|
    ensures Sound(states[i]) && Sound(states[j]) && Extends(states[i], states[j])
    ensures NoneSwallows(transactions) ==> Committed(states[i]) && Committed(states[j])
    decreases j
  {
    if j > 0 {
      RunExtends(states, transactions, if i < j then i else j - 1, j - 1);
      if states[j] != states[j - 1] {
        TransactionExtends(states[j - 1], transactions[j - 1], states[j]);
        if NoneSwallows(transactions) { TransactionKeepsGateShut(states[j - 1], transactions[j - 1], states[j]); }
      }
    }
  }

  /** A position names one event for ever: over any run it is never changed and never given away again. */
  lemma {:induction false} PositionsAreForEver(
    states: seq<State>, transactions: seq<seq<Attempt>>, i: nat, j: nat, e: Event, f: Event
  )
    requires IsRun(states, transactions) && Committed(states[0]) && i <= j < |states|
    requires e in states[i].events && f in states[j].events && e.position == f.position
    ensures e == f
  {
    RunExtends(states, transactions, i, j);
    assert f in states[i].events;
    OneEventPerPosition(states[i], e);
    var l :| 0 <= l < |states[i].events| && states[i].events[l] == f;
  }

  lemma {:induction false} OneEventPerPosition(s: State, e: Event)
    requires Sound(s) && e in s.events
    ensures forall i | 0 <= i < |s.events| && s.events[i].position == e.position :: s.events[i] == e
  {
    var k :| 0 <= k < |s.events| && s.events[k] == e;
  }

  /** A transaction of the run committed, and on its way attempted a purge that covers the aggregate. */
  ghost predicate PurgedDuring(states: seq<State>, transactions: seq<seq<Attempt>>, k: int, i: int, u: State, id: string) {
    0 <= k < |transactions| && k + 1 < |states| && PurgedAt(states[k], transactions[k], states[k + 1], i, u, id)
  }

  /** What stands in the gate, some purge swallowed before covers. */
  lemma {:induction false} OpenGateWasSwallowed(states: seq<State>, transactions: seq<seq<Attempt>>, j: nat, id: string)
      returns (k: nat, i: nat, u: State)
    requires IsRun(states, transactions) && Committed(states[0]) && j < |states| && id in states[j].gate
    ensures k < j && PurgedDuring(states, transactions, k, i, u, id) && transactions[k][i].tolerated
    ensures forall m | k < m <= j :: id in states[m].gate
  {
    k := j - 1;
    if id in states[k].gate {
      k, i, u := OpenGateWasSwallowed(states, transactions, k, id);
    } else {
      RunExtends(states, transactions, 0, k);
      assert states[k + 1] != states[k];
      i, u := TransactionNames(states[k], transactions[k], states[k + 1], id);
    }
  }

  /** The transaction in which an event went. */
  lemma {:induction false} LostDuring(states: seq<State>, i: nat, j: nat, e: Event) returns (k: nat)
    requires i <= j < |states| && e in states[i].events && e !in states[j].events
    ensures i <= k < j && e in states[k].events && e !in states[k + 1].events
    decreases j
  {
    k := j - 1;
    if e !in states[k].events { k := LostDuring(states, i, k, e); }
  }

  /** A purge that covers the event was carried out or got part of the way while the event was there. */
  ghost predicate WasPurged(states: seq<State>, transactions: seq<seq<Attempt>>, i: nat, j: nat, e: Event) {
    exists k, n, u :: i <= k < j && PurgedDuring(states, transactions, k, n, u, e.aggregateId) && e in u.events
  }

  /** A failed purge that covers the event's aggregate was swallowed before. */
  ghost predicate WasExposed(states: seq<State>, transactions: seq<seq<Attempt>>, i: nat, e: Event) {
    exists k, n, u :: k < i && PurgedDuring(states, transactions, k, n, u, e.aggregateId) && transactions[k][n].tolerated
  }

  /**
   * Over any run, failed purges swallowed or not: an event that is gone was covered by the ids of a
   * purge in a committed transaction in between, or of one swallowed earlier that left the gate open.
   */
  lemma {:induction false} LostEventWasCovered(states: seq<State>, transactions: seq<seq<Attempt>>, i: nat, j: nat, e: Event)
    requires IsRun(states, transactions) && Committed(states[0]) && i <= j < |states|
    requires e in states[i].events && e !in states[j].events
    ensures WasPurged(states, transactions, i, j, e) || WasExposed(states, transactions, i, e)
  {
    var k := LostDuring(states, i, j, e);
    RunExtends(states, transactions, i, k);
    if e.aggregateId !in states[k].gate {
      var n, u := TransactionRemoves(states[k], transactions[k], states[k + 1], e);
      assert PurgedDuring(states, transactions, k, n, u, e.aggregateId);
    } else {
      var m, n, u := OpenGateWasSwallowed(states, transactions, k, e.aggregateId);
      if i <= m { StillThere(states, transactions, i, m, n, u, k, e); }
    }
  }

  /** An event that is there before and after is there in between. */
  lemma {:induction false} StillThere(
    states: seq<State>, transactions: seq<seq<Attempt>>, i: nat, m: nat, n: nat, u: State, k: nat, e: Event
  )
    requires IsRun(states, transactions) && Committed(states[0]) && i <= m < k < |states|
    requires PurgedDuring(states, transactions, m, n, u, e.aggregateId) && e in states[i].events && e in states[k].events
    ensures e in u.events
  {
    RunExtends(states, transactions, i, m);
    RunExtends(states, transactions, m + 1, k);
    TransactionExtends(states[m], transactions[m][..n], u);
    TransactionExtends(u, transactions[m][n..], states[m + 1]);
  }

  /** Where no failed purge is swallowed, an event that is gone was covered by a purge that was carried out in between. */
  lemma {:induction false} OnlyPurgesRemove(states: seq<State>, transactions: seq<seq<Attempt>>, i: nat, j: nat, e: Event)
    requires IsRun(states, transactions) && NoneSwallows(transactions) && Committed(states[0]) && i <= j < |states|
    requires e in states[i].events && e !in states[j].events
    ensures WasPurged(states, transactions, i, j, e)
  {
    LostEventWasCovered(states, transactions, i, j, e);
  }

  // ------------------------------------------------- why a failed purge must be fatal

  /** After a swallowed purge, carried out or stopped, a transaction without any purge can remove the event. */
  ghost predicate CanLoseLater(s: State, purge: Command, e: Event) {
    exists u, later, t ::
      Reaches(s, [Attempt(purge, true)], u) && e in u.events && !HasPurge(later) && Reaches(u, later, t) && e !in t.events
  }

  lemma {:induction false} ReachesOne(s: State, a: Attempt, t: State)
    ensures Reaches(s, [a], t) <==> Moves(s, a, t)
  {
    var one := [a];
    assert one[0] == a && one[1..] == [];
    if Moves(s, a, t) { assert Reaches(t, one[1..], t); }
    if u :| Moves(s, one[0], u) && Reaches(u, one[1..], t) { assert u == t; }
  }

  lemma {:induction false} OpenGateDeletes(s: State, e: Event) returns (t: State)
    requires Sound(s) && e in s.events && e.aggregateId in s.gate
    ensures Reaches(s, [Attempt(RawDelete(e.position), false)], t) && e !in t.events
  {
    OneEventPerPosition(s, e);
    t := Step(s, RawDelete(e.position)).value;
    WithoutPositionMember(s.events, e.position, e);
    ReachesOne(s, Attempt(RawDelete(e.position), false), t);
  }

  /**
   * A caller that swallowed a failed purge would expose exactly the events that the purge's ids
   * cover: those, and no others, a later transaction without a purge could then remove.
   */
  lemma {:induction false} SwallowedPurgeExposesExactly(s: State, aggregateIds: seq<string>, userIds: seq<string>, e: Event)
    requires Committed(s) && e in s.events
    ensures CanLoseLater(s, Purge(aggregateIds, userIds), e)
       <==> e.aggregateId in PurgedAggregates(s, NonEmpty(aggregateIds), NonEmpty(userIds))
  {
    var purge := Purge(aggregateIds, userIds);
    if CanLoseLater(s, purge, e) {
      var u, later: seq<Attempt>, t :| Reaches(s, [Attempt(purge, true)], u) && e in u.events && !HasPurge(later)
                         && Reaches(u, later, t) && e !in t.events;
      ReachesOne(s, Attempt(purge, true), u);
      MoveKeepsSound(s, Attempt(purge, true), u);
      if e.aggregateId !in u.gate { var i, w := TransactionRemoves(u, later, t, e); }
      MoveNames(s, Attempt(purge, true), u, e.aggregateId);
    }
    if e.aggregateId in PurgedAggregates(s, NonEmpty(aggregateIds), NonEmpty(userIds)) {
      var n := CoveredEventIsExposed(s, aggregateIds, userIds, e);
      var u := WrittenUpTo(s, PurgeWrites(s, aggregateIds, userIds), n);
      assert StoppedPurge(s, purge, u);
      ReachesOne(s, Attempt(purge, true), u);
      MoveKeepsSound(s, Attempt(purge, true), u);
      var t := OpenGateDeletes(u, e);
      assert !HasPurge([Attempt(RawDelete(e.position), false)]);
    }
  }

  /** So any event can be lost after a swallowed purge of its own aggregate. */
  lemma {:induction false} SwallowedPurgeLosesEvents(s: State, e: Event)
    requires Committed(s) && e in s.events
    ensures CanLoseLater(s, Purge([e.aggregateId], []), e)
  {
    assert [e.aggregateId][0] in NonEmpty([e.aggregateId]);
    SwallowedPurgeExposesExactly(s, [e.aggregateId], [], e);
  }

  /** And a purge of nothing exposes nothing. */
  lemma {:induction false} PurgeOfNothingExposesNothing(s: State, e: Event)
    requires Committed(s) && e in s.events
    ensures !CanLoseLater(s, Purge([], []), e)
  {
    SwallowedPurgeExposesExactly(s, [], [], e);
    assert PurgedAggregates(s, NonEmpty([]), NonEmpty([])) == {};
  }
}
