/**
 * The database as a class whose methods carry out one statement or loop at a time, and the
 * transactions that call them.
 */
module EventDatabase {
  import opened Wrappers
  import opened EventLog
  import opened EventPurge

  // ---------------------------------------------------------------- transactions

  /** A command, and whether the transaction goes on when it fails. */
  datatype Attempt = Attempt(command: Command, tolerated: bool)

  /** The states one attempt can lead to when the transaction goes on: a failed purge has got part of the way. */
  ghost predicate Moves(s: State, a: Attempt, u: State) {
    || Step(s, a.command) == Some(u)
    || (a.tolerated && if a.command.Purge? then StoppedPurge(s, a.command, u) else u == s)
  }

  /** A purge whose first statements were carried out and whose next one was refused. */
  ghost predicate StoppedPurge(s: State, c: Command, u: State)
    requires c.Purge?
  {
    var ws := PurgeWrites(s, c.aggregateIds, c.userIds);
    exists n | 0 <= n < |ws| :: u == WrittenUpTo(s, ws, n)
  }

  /** The states a transaction can commit in: what has failed was tolerated. */
  ghost predicate Reaches(s: State, attempts: seq<Attempt>, t: State)
    decreases |attempts|
  {
    if attempts == [] then s == t
    else exists u :: Moves(s, attempts[0], u) && Reaches(u, attempts[1..], t)
  }

  /** How many statements the database has to carry out for a command to succeed. */
  function Statements(s: State, c: Command): nat {
    if c.Purge? then |PurgeWrites(s, c.aggregateIds, c.userIds)| else 1
  }

  /** No command is refused by a check, and the database carries out all their statements. */
  predicate CanRun(s: State, attempts: seq<Attempt>, budget: nat)
    decreases |attempts|
  {
    attempts == [] ||
    var c := attempts[0].command;
    Step(s, c).Some? && Statements(s, c) <= budget && CanRun(Step(s, c).value, attempts[1..], budget - Statements(s, c))
  }

  /** The tables after commands of which none is refused. */
  function AfterAll(s: State, attempts: seq<Attempt>): State
    decreases |attempts|
  {
    if attempts == [] then s
    else match Step(s, attempts[0].command)
      case Some(next) => AfterAll(next, attempts[1..])
      case None => s
  }

  /** The transaction would go on after a failed purge. No caller does. */
  predicate SwallowsPurge(attempts: seq<Attempt>) {
    exists i | 0 <= i < |attempts| :: attempts[i].tolerated && attempts[i].command.Purge?
  }

  // -------------------------------------------------------------- the database

  class Database {
    var events: seq<Event>
    var subjects: map<nat, Subject>
    var gate: set<string>
    var nextPosition: nat
    /** How many more statements the database carries out before it refuses one. After that it may carry out any number. */
    var budget: nat

    ghost function Snapshot(): State
      reads this
    {
      State(events, subjects, gate, nextPosition)
    }

    /** One statement: carried out while the budget lasts, and then refused once. */
    method Issue() returns (ok: bool)
      modifies this`budget
      ensures ok <==> old(budget) > 0
      ensures ok ==> budget == old(budget) - 1
    {
      ok := budget > 0;
      if ok {
        budget := budget - 1;
      } else {
        budget := *;
      }
    }

    method CreateGate() returns (ok: bool)
      modifies this`budget
      ensures Ran(old(Snapshot()), old(budget), [Write(Look, "")], Snapshot(), budget, ok)
    {
      ok := Issue();
      RanOne(old(Snapshot()), old(budget), Write(Look, ""), Snapshot(), budget, ok);
    }

    method GateInsert(id: string) returns (ok: bool)
      modifies this`gate, this`budget
      ensures gate == if ok then old(gate) + {id} else old(gate)
      ensures Ran(old(Snapshot()), old(budget), [Write(Name, id)], Snapshot(), budget, ok)
    {
      ok := Issue();
      if ok { gate := gate + {id}; }
      RanOne(old(Snapshot()), old(budget), Write(Name, id), Snapshot(), budget, ok);
    }

    method GateClear() returns (ok: bool)
      modifies this`gate, this`budget
      ensures gate == if ok then {} else old(gate)
      ensures Ran(old(Snapshot()), old(budget), [Write(Clear, "")], Snapshot(), budget, ok)
    {
      ok := Issue();
      if ok { gate := {}; }
      RanOne(old(Snapshot()), old(budget), Write(Clear, ""), Snapshot(), budget, ok);
    }

    method SubjectsDelete(userId: string) returns (ok: bool)
      modifies this`subjects, this`budget
      ensures subjects == if ok then WithoutUser(old(subjects), userId) else old(subjects)
      ensures Ran(old(Snapshot()), old(budget), [Write(Forget, userId)], Snapshot(), budget, ok)
    {
      ok := Issue();
      if ok { subjects := WithoutUser(subjects, userId); }
      RanOne(old(Snapshot()), old(budget), Write(Forget, userId), Snapshot(), budget, ok);
    }

    /** DELETE FROM events WHERE aggregate_id = id; the trigger aborts it unless the id is in the gate. */
    method EventsDelete(id: string) returns (removed: Option<nat>)
      modifies this`events, this`subjects, this`budget
      ensures removed.Some? <==> old(budget) > 0 && (id in gate || forall e | e in old(events) :: e.aggregateId != id)
      ensures removed.None? ==> events == old(events) && subjects == old(subjects)
      ensures removed.Some? ==> events == Without(old(events), {id}) && subjects == Cascaded(old(subjects), events)
      ensures removed.Some? ==> removed.value == |old(events)| - |events|
      ensures id in gate ==> Ran(old(Snapshot()), old(budget), [Write(Remove, id)], Snapshot(), budget, removed.Some?)
    {
      var ok := Issue();
      if ok && (id in gate || !exists i | 0 <= i < |events| :: events[i].aggregateId == id) {
        var rest := Without(events, {id});
        removed := Some(|events| - |rest|);
        events, subjects := rest, Cascaded(subjects, rest);
      } else {
        removed := None;
      }
      if id in gate { RanOne(old(Snapshot()), old(budget), Write(Remove, id), Snapshot(), budget, removed.Some?); }
    }

    /** SELECT DISTINCT aggregate_id ... WHERE user_id = userId */
    method ForeignAggregatesSelect(userId: string) returns (ids: Option<seq<string>>)
      modifies this`budget
      ensures ids.Some? ==> ids.value == ForeignAggregates(events, subjects, userId)
      ensures Ran(old(Snapshot()), old(budget), [Write(Look, "")], Snapshot(), budget, ids.Some?)
    {
      var ok := Issue();
      RanOne(old(Snapshot()), old(budget), Write(Look, ""), Snapshot(), budget, ok);
      ids := if ok then Some(ForeignAggregates(events, subjects, userId)) else None;
    }

    /** Register every non-empty id in the gate. */
    method GateInsertAll(ids: seq<string>) returns (ok: bool)
      modifies this`gate, this`budget
      ensures Ran(old(Snapshot()), old(budget), Each(Name, ids), Snapshot(), budget, ok)
    {
      ghost var was, start := Snapshot(), budget;
      for k := 0 to |ids|
        invariant Ran(was, start, EachOf(Name, ids, k), Snapshot(), budget, true)
      {
        if ids[k] != "" {
          ghost var before, left := Snapshot(), budget;
          ok := GateInsert(ids[k]);
          RanNext(was, start, Name, ids, k, before, left, Snapshot(), budget, ok);
          if !ok { return; }
        }
      }
      ok := true;
    }

    /** Delete the events of every non-empty id, counting them. */
    method EventsDeleteAll(ids: seq<string>) returns (removed: Option<nat>)
      requires NonEmpty(ids) <= gate
      modifies this`events, this`subjects, this`budget
      ensures removed.Some? ==> removed.value == |old(events)| - |events|
      ensures Ran(old(Snapshot()), old(budget), Each(Remove, ids), Snapshot(), budget, removed.Some?)
    {
      ghost var was, start := Snapshot(), budget;
      var deleted := 0;
      for k := 0 to |ids|
        invariant deleted == |old(events)| - |events|
        invariant Ran(was, start, EachOf(Remove, ids, k), Snapshot(), budget, true)
      {
        if ids[k] != "" {
          assert ids[k] in NonEmpty(ids);
          ghost var before, left := Snapshot(), budget;
          var one := EventsDelete(ids[k]);
          RanNext(was, start, Remove, ids, k, before, left, Snapshot(), budget, one.Some?);
          if one.None? { return None; }
          deleted := deleted + one.value;
        }
      }
      return Some(deleted);
    }

    /** What the purge's loop does for one user before it deletes any event. */
    method PurgePrepare(userId: string) returns (foreign: Option<seq<string>>)
      modifies this`subjects, this`gate, this`budget
      ensures foreign.Some? ==> foreign.value == ForeignAggregates(events, old(subjects), userId)
      ensures Ran(old(Snapshot()), old(budget), PrepareWrites(userId, ForeignAggregates(events, old(subjects), userId)),
                  Snapshot(), budget, foreign.Some?)
    {
      ghost var was, start, ids := Snapshot(), budget, ForeignAggregates(events, subjects, userId);
      ghost var name, look, each, forget := [Write(Name, userId)], [Write(Look, "")], Each(Name, ids), [Write(Forget, userId)];
      assert name + look == [Write(Name, userId), Write(Look, "")];
      var ok := GateInsert(userId);
      if !ok {
        RanShort(was, start, name, Snapshot(), budget, PrepareWrites(userId, ids));
        return None;
      }
      ghost var s, left := Snapshot(), budget;
      foreign := ForeignAggregatesSelect(userId);
      RanOn(was, start, name, s, left, look, Snapshot(), budget, foreign.Some?);
      if foreign.None? {
        RanShort(was, start, name + look, Snapshot(), budget, PrepareWrites(userId, ids));
        return None;
      }
      s, left := Snapshot(), budget;
      ok := GateInsertAll(foreign.value);
      RanOn(was, start, name + look, s, left, each, Snapshot(), budget, ok);
      if !ok {
        RanShort(was, start, name + look + each, Snapshot(), budget, PrepareWrites(userId, ids));
        return None;
      }
      s, left := Snapshot(), budget;
      ok := SubjectsDelete(userId);
      RanOn(was, start, name + look + each, s, left, forget, Snapshot(), budget, ok);
      if !ok { return None; }
    }

    /** The body of the purge's loop over users. */
    method PurgeUser(userId: string) returns (removed: Option<nat>)
      modifies this`events, this`subjects, this`gate, this`budget
      ensures removed.Some? ==> removed.value == |old(events)| - |events|
      ensures Ran(old(Snapshot()), old(budget), UserWrites(old(Snapshot()), userId), Snapshot(), budget, removed.Some?)
    {
      ghost var was, start, ids := Snapshot(), budget, ForeignAggregates(events, subjects, userId);
      ghost var prepare, each, own := PrepareWrites(userId, ids), Each(Remove, ids), [Write(Remove, userId)];
      var foreign := PurgePrepare(userId);
      if foreign.None? {
        RanShort(was, start, prepare, Snapshot(), budget, UserWrites(was, userId));
        return None;
      }
      PrepareWritten(was, userId, ids);
      ghost var s, left := Snapshot(), budget;
      var others := EventsDeleteAll(foreign.value);
      RanOn(was, start, prepare, s, left, each, Snapshot(), budget, others.Some?);
      if others.None? {
        RanShort(was, start, prepare + each, Snapshot(), budget, UserWrites(was, userId));
        return None;
      }
      s, left := Snapshot(), budget;
      removed := EventsDelete(userId);
      RanOn(was, start, prepare + each, s, left, own, Snapshot(), budget, removed.Some?);
      if removed.Some? { removed := Some(others.value + removed.value); }
    }

    /**
     * Deletes whole aggregates and every event that names one of the users, through the gate. An
     * error leaves what the statements before the refused one have done.
     */
    method EventsPurge(aggregateIds: seq<string>, userIds: seq<string>) returns (result: Result<nat>)
      requires Sound(Snapshot())
      modifies this`events, this`subjects, this`gate, this`budget
      ensures result.Ok? ==> Snapshot() == Purged(old(Snapshot()), NonEmpty(aggregateIds), NonEmpty(userIds))
      ensures result.Ok? ==> result.data == |old(events)| - |events|
      ensures result.Err? ==> result == Err("The events could not be purged.")
      ensures Ran(old(Snapshot()), old(budget), PurgeWrites(old(Snapshot()), aggregateIds, userIds), Snapshot(), budget, result.Ok?)
      ensures result.Err? ==> Thinned(old(Snapshot()), Snapshot())
      ensures result.Err? ==> gate <= old(gate) + PurgedAggregates(old(Snapshot()), NonEmpty(aggregateIds), NonEmpty(userIds))
      ensures result.Err? && old(gate) == {} ==> (gate == {} <==> old(budget) < 2)
    {
      ghost var was, start := Snapshot(), budget;
      var aggregates, users := Distinct(aggregateIds), Distinct(userIds);
      PurgeWritten(was, aggregateIds, userIds);
      if aggregates == [] && users == [] {
        return Ok(0);
      }
      result := PurgeDistinct(aggregates, users);
      if result.Err? {
        StoppedPurgeIsCovered(was, aggregateIds, userIds, start);
        if was.gate == {} { StoppedPurgeLeavesGateOpen(was, aggregateIds, userIds, start); }
      }
    }

    /** The purge of ids that are neither empty nor repeated. */
    method PurgeDistinct(aggregates: seq<string>, users: seq<string>) returns (result: Result<nat>)
      modifies this`events, this`subjects, this`gate, this`budget
      ensures result.Ok? ==> result.data == |old(events)| - |events|
      ensures result.Err? ==> result == Err("The events could not be purged.")
      ensures Ran(old(Snapshot()), old(budget), ContentsWrites(old(Snapshot()), aggregates, users) + [Write(Clear, "")],
                  Snapshot(), budget, result.Ok?)
    {
      ghost var was, start, contents := Snapshot(), budget, ContentsWrites(Snapshot(), aggregates, users);
      var failure := Err("The events could not be purged.");
      var deleted := PurgeContents(aggregates, users);
      if deleted.None? {
        RanShort(was, start, contents, Snapshot(), budget, contents + [Write(Clear, "")]);
        return failure;
      }
      ghost var s, left := Snapshot(), budget;
      var ok := GateClear();
      RanOn(was, start, contents, s, left, [Write(Clear, "")], Snapshot(), budget, ok);
      return if ok then Ok(deleted.value) else failure;
    }

    /** All of a purge but the emptying of the gate. */
    method PurgeContents(aggregates: seq<string>, users: seq<string>) returns (deleted: Option<nat>)
      modifies this`events, this`subjects, this`gate, this`budget
      ensures deleted.Some? ==> deleted.value == |old(events)| - |events|
      ensures Ran(old(Snapshot()), old(budget), ContentsWrites(old(Snapshot()), aggregates, users), Snapshot(), budget, deleted.Some?)
    {
      ghost var was, start, first := Snapshot(), budget, AggregatesWrites(aggregates);
      ghost var more := UsersWrites(WrittenAll(was, first), users, |users|);
      deleted := PurgeAggregates(aggregates);
      if deleted.None? {
        RanShort(was, start, first, Snapshot(), budget, first + more);
        return;
      }
      ghost var s, left := Snapshot(), budget;
      var rest := PurgeUsers(users);
      RanOn(was, start, first, s, left, more, Snapshot(), budget, rest.Some?);
      return if rest.Some? then Some(deleted.value + rest.value) else None;
    }

    /** The given aggregates: all of them into the gate, then their events out of the log. */
    method PurgeAggregates(aggregates: seq<string>) returns (removed: Option<nat>)
      modifies this`events, this`subjects, this`gate, this`budget
      ensures removed.Some? ==> removed.value == |old(events)| - |events|
      ensures Ran(old(Snapshot()), old(budget), AggregatesWrites(aggregates), Snapshot(), budget, removed.Some?)
    {
      ghost var was, start := Snapshot(), budget;
      ghost var look, naming, removing := [Write(Look, "")], Each(Name, aggregates), Each(Remove, aggregates);
      var ok := CreateGate();
      if !ok {
        RanShort(was, start, look, Snapshot(), budget, AggregatesWrites(aggregates));
        return None;
      }
      ghost var s, left := Snapshot(), budget;
      ok := GateInsertAll(aggregates);
      RanOn(was, start, look, s, left, naming, Snapshot(), budget, ok);
      if !ok {
        RanShort(was, start, look + naming, Snapshot(), budget, AggregatesWrites(aggregates));
        return None;
      }
      AllNames(s, aggregates);
      s, left := Snapshot(), budget;
      removed := EventsDeleteAll(aggregates);
      RanOn(was, start, look + naming, s, left, removing, Snapshot(), budget, removed.Some?);
    }

    method PurgeUsers(users: seq<string>) returns (deleted: Option<nat>)
      modifies this`events, this`subjects, this`gate, this`budget
      ensures deleted.Some? ==> deleted.value == |old(events)| - |events|
      ensures Ran(old(Snapshot()), old(budget), UsersWrites(old(Snapshot()), users, |users|), Snapshot(), budget, deleted.Some?)
    {
      ghost var was, start := Snapshot(), budget;
      var sum := 0;
      for k := 0 to |users|
        invariant sum == |old(events)| - |events|
        invariant Ran(was, start, UsersWrites(was, users, k), Snapshot(), budget, true)
      {
        ghost var before, s, left := UsersWrites(was, users, k), Snapshot(), budget;
        var removed := PurgeUser(users[k]);
        RanOn(was, start, before, s, left, UserWrites(s, users[k]), Snapshot(), budget, removed.Some?);
        if removed.None? {
          UsersBegin(was, users, k + 1, |users|, UsersWrites(was, users, k + 1));
          RanShort(was, start, UsersWrites(was, users, k + 1), Snapshot(), budget, UsersWrites(was, users, |users|));
          return None;
        }
        sum := sum + removed.value;
      }
      return Some(sum);
    }

    /** Validates, then inserts one event at the next position. */
    method EventAppend(input: EventInput, runtime: Runtime) returns (result: Result<Event>)
      modifies this`events, this`nextPosition, this`budget
      ensures result.Ok? ==> EventPrepare(input, runtime, old(nextPosition)) == result
      ensures result.Ok? ==> !IdIsTaken(old(events), result.data.id)
      ensures result.Ok? ==> events == old(events) + [result.data] && nextPosition == old(nextPosition) + 1
      ensures result.Err? ==> events == old(events) && nextPosition == old(nextPosition)
      ensures result.Err? ==>
        var prepared := EventPrepare(input, runtime, old(nextPosition));
        if prepared.Err? then result == prepared
        else (IdIsTaken(old(events), prepared.data.id) || old(budget) == 0) && result == Err("The event could not be appended.")
      ensures result.Ok? ==> budget == old(budget) - 1
    {
      result := EventPrepare(input, runtime, nextPosition);
      if result.Err? { return; }
      var ok := Issue();
      if !ok || IdIsTaken(events, result.data.id) {
        return Err("The event could not be appended.");
      }
      events, nextPosition := events + [result.data], nextPosition + 1;
    }

    /** One command of a transaction; only a failed purge leaves anything behind. */
    method Execute(c: Command) returns (ok: bool)
      requires Sound(Snapshot())
      modifies this
      ensures ok <==> Step(old(Snapshot()), c).Some? && Statements(old(Snapshot()), c) <= old(budget)
      ensures ok ==> Step(old(Snapshot()), c) == Some(Snapshot()) && budget == old(budget) - Statements(old(Snapshot()), c)
      ensures !ok ==> if c.Purge? then StoppedPurge(old(Snapshot()), c, Snapshot()) else Snapshot() == old(Snapshot())
    {
      match c {
        case Append(input, runtime) =>
          var appended := EventAppend(input, runtime);
          ok := appended.Ok?;
        case Purge(aggregateIds, userIds) =>
          var purged := EventsPurge(aggregateIds, userIds);
          ok := purged.Ok?;
        case Fail => ok := false;
        case _ =>
          var next := Step(State(events, subjects, gate, nextPosition), c);
          ok := Issue();
          if !ok || next.None? { return false; }
          events, subjects, gate, nextPosition :=
            next.value.events, next.value.subjects, next.value.gate, next.value.nextPosition;
      }
    }

    /**
     * Runs the attempts in one transaction: the first failure that is not tolerated rolls everything
     * back. It commits whenever no command is refused, and whenever every failure is tolerated.
     */
    method TransactionRun(attempts: seq<Attempt>) returns (ok: bool)
      requires Sound(Snapshot())
      modifies this
      ensures ok ==> Reaches(old(Snapshot()), attempts, Snapshot())
      ensures !ok ==> Snapshot() == old(Snapshot())
      ensures CanRun(old(Snapshot()), attempts, old(budget)) ==> ok && Snapshot() == AfterAll(old(Snapshot()), attempts)
      ensures (forall i | 0 <= i < |attempts| :: attempts[i].tolerated) ==> ok
    {
      ghost var start := budget;
      var saved := State(events, subjects, gate, nextPosition);
      for i := 0 to |attempts|
        invariant Sound(Snapshot())
        invariant forall t :: Reaches(Snapshot(), attempts[i..], t) ==> Reaches(saved, attempts, t)
        invariant CanRun(saved, attempts, start) ==>
                    CanRun(Snapshot(), attempts[i..], budget) && AfterAll(Snapshot(), attempts[i..]) == AfterAll(saved, attempts)
      {
        assert attempts[i..][0] == attempts[i] && attempts[i..][1..] == attempts[i + 1..];
        ghost var before := Snapshot();
        ok := Execute(attempts[i].command);
        if !ok && !attempts[i].tolerated {
          events, subjects, gate, nextPosition := saved.events, saved.subjects, saved.gate, saved.nextPosition;
          return false;
        }
        MoveKeepsSound(before, attempts[i], Snapshot());
        forall t | Reaches(Snapshot(), attempts[i + 1..], t)
          ensures Reaches(saved, attempts, t)
        {
          MoveReaches(before, attempts[i..], Snapshot(), attempts[i + 1..], t);
        }
      }
      ok := true;
    }
  }

  lemma {:induction false} MoveKeepsSound(s: State, a: Attempt, u: State)
    requires Sound(s) && Moves(s, a, u)
    ensures Sound(u)
  {
    if Step(s, a.command) == Some(u) {
      StepKeepsSound(s, a.command);
    } else if a.command.Purge? {
      var ws := PurgeWrites(s, a.command.aggregateIds, a.command.userIds);
      var n :| 0 <= n < |ws| && u == WrittenUpTo(s, ws, n);
      StoppedPurgeIsCovered(s, a.command.aggregateIds, a.command.userIds, n);
      ThinnedKeepsSound(s, u);
    }
  }

  lemma {:induction false} MoveReaches(s: State, attempts: seq<Attempt>, u: State, rest: seq<Attempt>, t: State)
    requires attempts != [] && rest == attempts[1..] && Moves(s, attempts[0], u) && Reaches(u, rest, t)
    ensures Reaches(s, attempts, t)
  {
  }
}
