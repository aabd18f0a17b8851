/**
 * A purge as the statements it issues, one after another. All of them together do what a purge
 * means; the first ones alone, when the next is refused, leave the gate open.
 */
module EventPurge {
  import opened EventLog

  // ---------------------------------------------------------------- the statements

  /** `Look` is a statement that writes no row: the CREATE TABLE of the gate, and a SELECT. */
  datatype Verb = Look | Name | Forget | Remove | Clear

  datatype Write = Write(verb: Verb, id: string)

  /** What a statement does when the database carries it out. */
  function Written(s: State, w: Write): State {
    match w.verb
    case Look => s
    case Name => s.(gate := s.gate + {w.id})
    case Forget => s.(subjects := WithoutUser(s.subjects, w.id))
    case Remove => Removed(s, {w.id})
    case Clear => s.(gate := {})
  }

  function Removed(s: State, gone: set<string>): State {
    var events := Without(s.events, gone);
    s.(events := events, subjects := Cascaded(s.subjects, events))
  }

  function WrittenUpTo(s: State, ws: seq<Write>, n: nat): State
    requires n <= |ws|
  {
    if n == 0 then s else Written(WrittenUpTo(s, ws, n - 1), ws[n - 1])
  }

  function WrittenAll(s: State, ws: seq<Write>): State {
    WrittenUpTo(s, ws, |ws|)
  }

  /** One statement for each of the first n ids that is not empty. */
  function EachOf(verb: Verb, ids: seq<string>, n: nat): seq<Write>
    requires n <= |ids|
  {
    if n == 0 then []
    else if ids[n - 1] == "" then EachOf(verb, ids, n - 1)
    else EachOf(verb, ids, n - 1) + [Write(verb, ids[n - 1])]
  }

  function Each(verb: Verb, ids: seq<string>): seq<Write> {
    EachOf(verb, ids, |ids|)
  }

  /** SELECT DISTINCT aggregate_id ... WHERE user_id = userId, over the first n events. */
  function ForeignUpTo(events: seq<Event>, subjects: map<nat, Subject>, userId: string, n: nat): seq<string>
    requires n <= |events|
  {
    if n == 0 then []
    else
      var before, e := ForeignUpTo(events, subjects, userId, n - 1), events[n - 1];
      if e.position in subjects && subjects[e.position].userId == userId && e.aggregateId !in before
      then before + [e.aggregateId] else before
  }

  function ForeignAggregates(events: seq<Event>, subjects: map<nat, Subject>, userId: string): seq<string> {
    ForeignUpTo(events, subjects, userId, |events|)
  }

  function PrepareWrites(userId: string, foreign: seq<string>): seq<Write> {
    [Write(Name, userId), Write(Look, "")] + Each(Name, foreign) + [Write(Forget, userId)]
  }

  /** The body of the loop over users. */
  function UserWrites(s: State, userId: string): seq<Write> {
    var foreign := ForeignAggregates(s.events, s.subjects, userId);
    PrepareWrites(userId, foreign) + Each(Remove, foreign) + [Write(Remove, userId)]
  }

  /** The loop over users, as far as the first n of them. */
  function UsersWrites(s: State, users: seq<string>, n: nat): seq<Write>
    requires n <= |users|
  {
    if n == 0 then []
    else
      var before := UsersWrites(s, users, n - 1);
      before + UserWrites(WrittenAll(s, before), users[n - 1])
  }

  function AggregatesWrites(aggregates: seq<string>): seq<Write> {
    [Write(Look, "")] + Each(Name, aggregates) + Each(Remove, aggregates)
  }

  /** All of a purge but the emptying of the gate. */
  function ContentsWrites(s: State, aggregates: seq<string>, users: seq<string>): seq<Write> {
    AggregatesWrites(aggregates) + UsersWrites(WrittenAll(s, AggregatesWrites(aggregates)), users, |users|)
  }

  /** The statements of a purge that starts in `s`; those for a user depend on what the earlier ones left. */
  function PurgeWrites(s: State, aggregateIds: seq<string>, userIds: seq<string>): seq<Write> {
    var aggregates, users := Distinct(aggregateIds), Distinct(userIds);
    if aggregates == [] && users == [] then [] else ContentsWrites(s, aggregates, users) + [Write(Clear, "")]
  }

  lemma {:induction false} WrittenBegin(s: State, ws: seq<Write>, all: seq<Write>, n: nat)
    requires ws <= all && n <= |ws|
    ensures WrittenUpTo(s, all, n) == WrittenUpTo(s, ws, n)
  {
    if n > 0 { WrittenBegin(s, ws, all, n - 1); }
  }

  lemma {:induction false} WrittenOn(s: State, ws: seq<Write>, more: seq<Write>, n: nat)
    requires n <= |more|
    ensures WrittenUpTo(s, ws + more, |ws| + n) == WrittenUpTo(WrittenAll(s, ws), more, n)
  {
    if n == 0 {
      WrittenBegin(s, ws, ws + more, |ws|);
    } else {
      WrittenOn(s, ws, more, n - 1);
    }
  }

  lemma {:induction false} WrittenSnoc(s: State, ws: seq<Write>, w: Write)
    ensures WrittenAll(s, ws + [w]) == Written(WrittenAll(s, ws), w)
  {
    WrittenBegin(s, ws, ws + [w], |ws|);
  }

  lemma {:induction false} WrittenConcat(s: State, ws: seq<Write>, more: seq<Write>)
    ensures WrittenAll(s, ws + more) == WrittenAll(WrittenAll(s, ws), more)
  {
    WrittenOn(s, ws, more, |more|);
  }

  /** From `s`, with `budget` statements before a refusal, the statements `ws` lead to `t`; `ok` when none was refused. */
  ghost predicate Ran(s: State, budget: nat, ws: seq<Write>, t: State, left: nat, ok: bool) {
    && ok == (|ws| <= budget)
    && t == WrittenUpTo(s, ws, if ok then |ws| else budget)
    && (ok ==> left == budget - |ws|)
  }

  lemma {:induction false} RanOn(
    s: State, budget: nat, ws: seq<Write>, t: State, left: nat, more: seq<Write>, u: State, last: nat, ok: bool
  )
    requires Ran(s, budget, ws, t, left, true) && Ran(t, left, more, u, last, ok)
    ensures Ran(s, budget, ws + more, u, last, ok)
  {
    WrittenOn(s, ws, more, if ok then |more| else left);
  }

  lemma {:induction false} RanShort(s: State, budget: nat, ws: seq<Write>, t: State, left: nat, all: seq<Write>)
    requires Ran(s, budget, ws, t, left, false) && ws <= all
    ensures Ran(s, budget, all, t, left, false)
  {
    WrittenBegin(s, ws, all, budget);
  }

  lemma {:induction false} RanOne(s: State, budget: nat, w: Write, t: State, left: nat, ok: bool)
    requires ok == (budget > 0) && t == (if ok then Written(s, w) else s) && (ok ==> left == budget - 1)
    ensures Ran(s, budget, [w], t, left, ok)
  {
    WrittenSnoc(s, [], w);
    assert [] + [w] == [w];
  }

  lemma {:induction false} EachBegin(verb: Verb, ids: seq<string>, k: nat, n: nat)
    requires k <= n <= |ids|
    ensures EachOf(verb, ids, k) <= EachOf(verb, ids, n)
  {
    if k < n { EachBegin(verb, ids, k, n - 1); }
  }

  /** The next statement of a loop over ids: the loop goes on, or the purge ends here. */
  lemma {:induction false} RanNext(
    s: State, budget: nat, verb: Verb, ids: seq<string>, k: nat, t: State, left: nat, u: State, last: nat, ok: bool
  )
    requires k < |ids| && ids[k] != ""
    requires Ran(s, budget, EachOf(verb, ids, k), t, left, true) && Ran(t, left, [Write(verb, ids[k])], u, last, ok)
    ensures if ok then Ran(s, budget, EachOf(verb, ids, k + 1), u, last, true) else Ran(s, budget, Each(verb, ids), u, last, false)
  {
    RanOn(s, budget, EachOf(verb, ids, k), t, left, [Write(verb, ids[k])], u, last, ok);
    if !ok {
      EachBegin(verb, ids, k + 1, |ids|);
      RanShort(s, budget, EachOf(verb, ids, k + 1), u, last, Each(verb, ids));
    }
  }

  lemma {:induction false} UsersBegin(s: State, users: seq<string>, k: nat, n: nat, ws: seq<Write>)
    requires k <= n <= |users| && ws == UsersWrites(s, users, k)
    ensures ws <= UsersWrites(s, users, n)
  {
    if k < n {
      UsersBegin(s, users, k, n - 1, ws);
      var more := UsersLast(s, users, n);
    }
  }

  lemma {:induction false} UsersLast(s: State, users: seq<string>, n: nat) returns (more: seq<Write>)
    requires 0 < n <= |users|
    ensures UsersWrites(s, users, n) == UsersWrites(s, users, n - 1) + more
    ensures more == UserWrites(WrittenAll(s, UsersWrites(s, users, n - 1)), users[n - 1])
  {
    more := UserWrites(WrittenAll(s, UsersWrites(s, users, n - 1)), users[n - 1]);
  }

  // ----------------------------------------------- all of a purge is its meaning on sets

  lemma {:induction false} NamedOnce(s: State, ws: seq<Write>, named: set<string>, id: string)
    requires WrittenAll(s, ws) == s.(gate := s.gate + named)
    ensures WrittenAll(s, ws + [Write(Name, id)]) == s.(gate := s.gate + (named + {id}))
  {
    WrittenSnoc(s, ws, Write(Name, id));
    assert s.gate + named + {id} == s.gate + (named + {id});
  }

  lemma {:induction false} EachNames(s: State, ids: seq<string>, n: nat)
    requires n <= |ids|
    ensures WrittenAll(s, EachOf(Name, ids, n)) == s.(gate := s.gate + NonEmpty(ids[..n]))
  {
    if n == 0 {
      assert s.gate + NonEmpty(ids[..n]) == s.gate;
    } else {
      EachNames(s, ids, n - 1);
      NonEmptySnoc(ids, n - 1);
      if ids[n - 1] != "" { NamedOnce(s, EachOf(Name, ids, n - 1), NonEmpty(ids[..n - 1]), ids[n - 1]); }
    }
  }

  lemma {:induction false} RemovedOnce(s: State, ws: seq<Write>, gone: set<string>, id: string)
    requires Ordered(s.events) && WrittenAll(s, ws) == Removed(s, gone)
    ensures WrittenAll(s, ws + [Write(Remove, id)]) == Removed(s, gone + {id})
  {
    WrittenSnoc(s, ws, Write(Remove, id));
    RemovedTwice(s, gone, id);
  }

  lemma {:induction false} RemovedTwice(s: State, gone: set<string>, id: string)
    requires Ordered(s.events)
    ensures Removed(Removed(s, gone), {id}) == Removed(s, gone + {id})
  {
    DeleteStep(s.events, s.subjects, gone, id);
  }

  lemma {:induction false} RemovedNone(s: State)
    requires s.subjects.Keys <= Positions(s.events)
    ensures Removed(s, {}) == s
  {
    WithoutNothing(s.events);
    CascadeOfAll(s);
  }

  lemma {:induction false} EachRemoves(s: State, ids: seq<string>, n: nat)
    requires Ordered(s.events) && s.subjects.Keys <= Positions(s.events) && n <= |ids|
    ensures WrittenAll(s, EachOf(Remove, ids, n)) == Removed(s, NonEmpty(ids[..n]))
  {
    if n == 0 {
      RemovedNone(s);
      assert NonEmpty(ids[..n]) == {};
    } else {
      var before, gone := EachOf(Remove, ids, n - 1), NonEmpty(ids[..n - 1]);
      EachRemoves(s, ids, n - 1);
      NonEmptySnoc(ids, n - 1);
      if ids[n - 1] != "" {
        RemovedOnce(s, before, gone, ids[n - 1]);
        assert EachOf(Remove, ids, n) == before + [Write(Remove, ids[n - 1])] && NonEmpty(ids[..n]) == gone + {ids[n - 1]};
      }
    }
  }

  lemma {:induction false} AllNames(s: State, ids: seq<string>)
    ensures WrittenAll(s, Each(Name, ids)) == s.(gate := s.gate + NonEmpty(ids))
  {
    EachNames(s, ids, |ids|);
    assert ids[..|ids|] == ids;
  }

  lemma {:induction false} AllRemoves(s: State, ids: seq<string>)
    requires Ordered(s.events) && s.subjects.Keys <= Positions(s.events)
    ensures WrittenAll(s, Each(Remove, ids)) == Removed(s, NonEmpty(ids))
  {
    EachRemoves(s, ids, |ids|);
    assert ids[..|ids|] == ids;
  }

  lemma {:induction false} ForeignUpToNaming(events: seq<Event>, subjects: map<nat, Subject>, userId: string, n: nat)
    requires n <= |events|
    ensures SetOf(ForeignUpTo(events, subjects, userId, n)) == NamingAggregates(events[..n], subjects, userId)
  {
    if n > 0 {
      var found, e := ForeignUpTo(events, subjects, userId, n - 1), events[n - 1];
      ForeignUpToNaming(events, subjects, userId, n - 1);
      assert events[..n] == events[..n - 1] + [e];
      NamingSnoc(events[..n - 1], e, subjects, userId);
      SetOfSnoc(found, e.aggregateId);
      MemberOfSetOf(found, e.aggregateId);
    }
  }

  lemma {:induction false} ForeignAreNaming(events: seq<Event>, subjects: map<nat, Subject>, userId: string)
    ensures SetOf(ForeignAggregates(events, subjects, userId)) == NamingAggregates(events, subjects, userId)
  {
    ForeignUpToNaming(events, subjects, userId, |events|);
    assert events[..|events|] == events;
  }

  lemma {:induction false} PrepareWritten(s: State, userId: string, foreign: seq<string>)
    ensures WrittenAll(s, PrepareWrites(userId, foreign))
         == s.(gate := s.gate + {userId} + NonEmpty(foreign), subjects := WithoutUser(s.subjects, userId))
  {
    var two := [Write(Name, userId), Write(Look, "")];
    assert two == [] + [Write(Name, userId)] + [Write(Look, "")];
    WrittenSnoc(s, [], Write(Name, userId));
    WrittenSnoc(s, [] + [Write(Name, userId)], Write(Look, ""));
    WrittenConcat(s, two, Each(Name, foreign));
    AllNames(s.(gate := s.gate + {userId}), foreign);
    WrittenSnoc(s, two + Each(Name, foreign), Write(Forget, userId));
  }

  lemma {:induction false} UserWritten(s: State, userId: string)
    requires Ordered(s.events) && s.subjects.Keys <= Positions(s.events)
    requires "" !in NamingAggregates(s.events, s.subjects, userId)
    ensures var t, gone := WrittenAll(s, UserWrites(s, userId)), NamingAggregates(s.events, s.subjects, userId) + {userId};
      && t.events == Without(s.events, gone)
      && t.subjects == Cascaded(WithoutUser(s.subjects, userId), t.events)
      && t.nextPosition == s.nextPosition
  {
    var foreign := ForeignAggregates(s.events, s.subjects, userId);
    var prepared := WrittenAll(s, PrepareWrites(userId, foreign));
    PrepareWritten(s, userId, foreign);
    ForeignAreNaming(s.events, s.subjects, userId);
    NonEmptyIsSetOf(foreign);
    WrittenConcat(s, PrepareWrites(userId, foreign), Each(Remove, foreign) + [Write(Remove, userId)]);
    assert UserWrites(s, userId) == PrepareWrites(userId, foreign) + (Each(Remove, foreign) + [Write(Remove, userId)]);
    AllRemoves(prepared, foreign);
    RemovedOnce(prepared, Each(Remove, foreign), NonEmpty(foreign), userId);
  }

  lemma {:induction false} NextUserWritten(
    was: State, s: State, before: seq<Write>, more: seq<Write>, aggregates: set<string>, gone: set<string>, userId: string
  )
    requires Sound(was) && userId !in gone && userId != "" && IsPurgedTo(WrittenAll(s, before), was, aggregates, gone)
    requires more == UserWrites(WrittenAll(s, before), userId)
    ensures IsPurgedTo(WrittenAll(s, before + more), was, aggregates, gone + {userId})
  {
    PurgeUserStep(was, aggregates, gone, userId);
    NamingAreNotEmpty(was, aggregates, gone, userId);
    WithoutOrdered(was.events, PurgedAggregates(was, aggregates, gone));
    UserWritten(WrittenAll(s, before), userId);
    WrittenConcat(s, before, more);
  }

  lemma {:induction false} UsersWritten(
    was: State, s: State, aggregates: set<string>, users: seq<string>, n: nat, ws: seq<Write>, gone: set<string>
  )
    requires Sound(was) && NoRepeats(users) && "" !in users && n <= |users| && s.nextPosition == was.nextPosition
    requires IsPurgedTo(s, was, aggregates, {}) && ws == UsersWrites(s, users, n) && gone == NonEmpty(users[..n])
    ensures IsPurgedTo(WrittenAll(s, ws), was, aggregates, gone)
  {
    if n == 0 {
      assert gone == {};
    } else {
      var before, less := UsersWrites(s, users, n - 1), NonEmpty(users[..n - 1]);
      var more := UsersLast(s, users, n);
      UsersWritten(was, s, aggregates, users, n - 1, before, less);
      NextUserIsNew(users, n);
      NextUserWritten(was, s, before, more, aggregates, less, users[n - 1]);
    }
  }

  lemma {:induction false} NextUserIsNew(users: seq<string>, n: nat)
    requires 0 < n <= |users| && NoRepeats(users) && "" !in users
    ensures users[n - 1] != "" && users[n - 1] !in NonEmpty(users[..n - 1])
    ensures NonEmpty(users[..n]) == NonEmpty(users[..n - 1]) + {users[n - 1]}
  {
    NonEmptySnoc(users, n - 1);
    assert users[n - 1] in users;
  }

  /** All tables but the gate are those of the purge. */
  ghost predicate IsPurgedTo(t: State, was: State, aggregates: set<string>, users: set<string>) {
    var done := PurgedState(was, aggregates, users);
    t.events == done.events && t.subjects == done.subjects && t.nextPosition == done.nextPosition
  }

  lemma {:induction false} AggregatesWritten(s: State, aggregates: seq<string>)
    requires Sound(s)
    ensures var named := s.(gate := s.gate + NonEmpty(aggregates));
            WrittenAll(s, AggregatesWrites(aggregates)) == Removed(named, NonEmpty(aggregates))
  {
    var named := s.(gate := s.gate + NonEmpty(aggregates));
    WrittenSnoc(s, [], Write(Look, ""));
    assert [] + [Write(Look, "")] == [Write(Look, "")];
    WrittenConcat(s, [Write(Look, "")], Each(Name, aggregates));
    AllNames(s, aggregates);
    WrittenConcat(s, [Write(Look, "")] + Each(Name, aggregates), Each(Remove, aggregates));
    AllRemoves(named, aggregates);
  }

  lemma {:induction false} ContentsWritten(s: State, aggregates: seq<string>, users: seq<string>)
    requires Sound(s) && NoRepeats(users) && "" !in users
    ensures IsPurgedTo(WrittenAll(s, ContentsWrites(s, aggregates, users)), s, NonEmpty(aggregates), NonEmpty(users))
  {
    var t := WrittenAll(s, AggregatesWrites(aggregates));
    AggregatesWritten(s, aggregates);
    PurgeOfAggregates(s, NonEmpty(aggregates));
    assert users[..|users|] == users;
    UsersWritten(s, t, NonEmpty(aggregates), users, |users|, UsersWrites(t, users, |users|), NonEmpty(users));
    WrittenConcat(s, AggregatesWrites(aggregates), UsersWrites(t, users, |users|));
  }

  /** A purge whose statements all go through does what it means, though it queries a log it has already shortened. */
  lemma {:induction false} PurgeWritten(s: State, aggregateIds: seq<string>, userIds: seq<string>)
    requires Sound(s)
    ensures WrittenAll(s, PurgeWrites(s, aggregateIds, userIds)) == Purged(s, NonEmpty(aggregateIds), NonEmpty(userIds))
  {
    var aggregates, users := Distinct(aggregateIds), Distinct(userIds);
    DistinctIsNonEmpty(aggregateIds);
    DistinctIsNonEmpty(userIds);
    DistinctIsEmpty(aggregateIds);
    DistinctIsEmpty(userIds);
    if aggregates != [] || users != [] {
      ContentsWritten(s, aggregates, users);
      WrittenSnoc(s, ContentsWrites(s, aggregates, users), Write(Clear, ""));
    }
  }

  // ------------------------------------------------------- a purge that is refused

  /** Whole aggregates named in the gate are gone; all other events are as they were. */
  ghost predicate LostOnlyNamed(was: seq<Event>, now: seq<Event>, gate: set<string>) {
    && (Ordered(was) ==> Ordered(now))
    && (forall e | e in now :: e in was)
    && (forall e | e in was && e !in now :: e.aggregateId in gate)
    && (forall e, f | e in was && e !in now && f in now :: e.aggregateId != f.aggregateId)
  }

  /**
   * What a purge that does not get through may have done: named aggregates in the gate, removed
   * events of aggregates named there, and removed subject rows.
   */
  ghost predicate Thinned(was: State, now: State) {
    && now.nextPosition == was.nextPosition && was.gate <= now.gate
    && LostOnlyNamed(was.events, now.events, now.gate)
    && now.subjects.Keys <= Positions(now.events)
    && forall position | position in now.subjects ::
         position in was.subjects && now.subjects[position] == was.subjects[position]
  }

  /** The ids that the first n statements put into the gate. */
  function NamedUpTo(ws: seq<Write>, n: nat): set<string>
    requires n <= |ws|
  {
    set i | 0 <= i < n && ws[i].verb.Name? :: ws[i].id
  }

  function Named(ws: seq<Write>): set<string> {
    NamedUpTo(ws, |ws|)
  }

  /** Every DELETE comes after its aggregate has been named, and the gate is never emptied. */
  ghost predicate Guarded(ws: seq<Write>) {
    forall k | 0 <= k < |ws| :: !ws[k].verb.Clear? && (ws[k].verb.Remove? ==> ws[k].id in NamedUpTo(ws, k))
  }

  lemma {:induction false} NamedBegin(ws: seq<Write>, all: seq<Write>, n: nat)
    requires ws <= all && n <= |ws|
    ensures NamedUpTo(all, n) == NamedUpTo(ws, n)
  {
    assert forall i | 0 <= i < n :: all[i] == ws[i];
  }

  lemma {:induction false} NamedOn(ws: seq<Write>, more: seq<Write>, n: nat)
    requires n <= |more|
    ensures NamedUpTo(ws + more, |ws| + n) == Named(ws) + NamedUpTo(more, n)
  {
    var all := ws + more;
    forall id | id in Named(ws) + NamedUpTo(more, n)
      ensures id in NamedUpTo(all, |ws| + n)
    {
      if id in Named(ws) {
        var i :| 0 <= i < |ws| && ws[i].verb.Name? && ws[i].id == id;
        assert all[i] == ws[i];
      } else {
        var i :| 0 <= i < n && more[i].verb.Name? && more[i].id == id;
        assert all[|ws| + i] == more[i];
      }
    }
  }

  lemma {:induction false} NamedConcat(ws: seq<Write>, more: seq<Write>)
    ensures Named(ws + more) == Named(ws) + Named(more)
  {
    NamedOn(ws, more, |more|);
  }

  /** DELETEs may follow of ids that are named by then. */
  lemma {:induction false} GuardedConcat(ws: seq<Write>, more: seq<Write>)
    requires Guarded(ws)
    requires forall k | 0 <= k < |more| ::
               !more[k].verb.Clear? && (more[k].verb.Remove? ==> more[k].id in Named(ws) + NamedUpTo(more, k))
    ensures Guarded(ws + more)
  {
    var all := ws + more;
    forall k | 0 <= k < |all|
      ensures !all[k].verb.Clear? && (all[k].verb.Remove? ==> all[k].id in NamedUpTo(all, k))
    {
      if k < |ws| {
        NamedBegin(ws, all, k);
      } else {
        NamedOn(ws, more, k - |ws|);
      }
    }
  }

  lemma {:induction false} NamedOne(w: Write)
    ensures Named([w]) == if w.verb.Name? then {w.id} else {}
  {
    assert [w][0] == w;
  }

  lemma {:induction false} EachFacts(verb: Verb, ids: seq<string>, n: nat)
    requires n <= |ids|
    ensures forall k | 0 <= k < |EachOf(verb, ids, n)| ::
              EachOf(verb, ids, n)[k].verb == verb && EachOf(verb, ids, n)[k].id in NonEmpty(ids)
    ensures Named(EachOf(verb, ids, n)) == if verb.Name? then NonEmpty(ids[..n]) else {}
  {
    if n > 0 {
      EachFacts(verb, ids, n - 1);
      NonEmptySnoc(ids, n - 1);
      NamedConcat(EachOf(verb, ids, n - 1), [Write(verb, ids[n - 1])]);
      NamedOne(Write(verb, ids[n - 1]));
    }
  }

  lemma {:induction false} AllFacts(ids: seq<string>)
    ensures Named(Each(Name, ids)) == NonEmpty(ids) && Named(Each(Remove, ids)) == {}
    ensures forall w | w in Each(Name, ids) :: w.verb.Name?
    ensures forall w | w in Each(Remove, ids) :: w.verb.Remove? && w.id in NonEmpty(ids)
  {
    EachFacts(Name, ids, |ids|);
    EachFacts(Remove, ids, |ids|);
    assert ids[..|ids|] == ids;
  }

  lemma {:induction false} UserGuarded(s: State, userId: string)
    ensures Guarded(UserWrites(s, userId))
    ensures Named(UserWrites(s, userId)) == {userId} + NonEmpty(ForeignAggregates(s.events, s.subjects, userId))
  {
    var foreign := ForeignAggregates(s.events, s.subjects, userId);
    var two, prepare := [Write(Name, userId), Write(Look, "")], PrepareWrites(userId, foreign);
    AllFacts(foreign);
    assert two[0].verb == Name && Named(two) == {userId};
    NamedConcat(two, Each(Name, foreign));
    NamedConcat(two + Each(Name, foreign), [Write(Forget, userId)]);
    assert Named(prepare) == {userId} + NonEmpty(foreign);
    NamedConcat(prepare, Each(Remove, foreign));
    GuardedConcat(prepare, Each(Remove, foreign));
    NamedConcat(prepare + Each(Remove, foreign), [Write(Remove, userId)]);
    GuardedConcat(prepare + Each(Remove, foreign), [Write(Remove, userId)]);
  }

  lemma {:induction false} UsersGuarded(s: State, users: seq<string>, n: nat)
    requires n <= |users|
    ensures Guarded(UsersWrites(s, users, n))
  {
    if n > 0 {
      var before := UsersWrites(s, users, n - 1);
      UsersGuarded(s, users, n - 1);
      UserGuarded(WrittenAll(s, before), users[n - 1]);
      GuardedConcat(before, UserWrites(WrittenAll(s, before), users[n - 1]));
    }
  }

  lemma {:induction false} AggregatesGuarded(aggregates: seq<string>)
    ensures Guarded(AggregatesWrites(aggregates)) && Named(AggregatesWrites(aggregates)) == NonEmpty(aggregates)
  {
    var naming := [Write(Look, "")] + Each(Name, aggregates);
    AllFacts(aggregates);
    NamedConcat([Write(Look, "")], Each(Name, aggregates));
    NamedConcat(naming, Each(Remove, aggregates));
    GuardedConcat(naming, Each(Remove, aggregates));
  }

  lemma {:induction false} ContentsGuarded(s: State, aggregates: seq<string>, users: seq<string>)
    ensures Guarded(ContentsWrites(s, aggregates, users))
  {
    var t := WrittenAll(s, AggregatesWrites(aggregates));
    AggregatesGuarded(aggregates);
    UsersGuarded(t, users, |users|);
    GuardedConcat(AggregatesWrites(aggregates), UsersWrites(t, users, |users|));
  }

  /** Statements that stay guarded take away whole named aggregates and nothing else. */
  lemma {:induction false} GuardedThins(s: State, ws: seq<Write>, n: nat)
    requires Guarded(ws) && n <= |ws| && s.subjects.Keys <= Positions(s.events)
    ensures Thinned(s, WrittenUpTo(s, ws, n)) && WrittenUpTo(s, ws, n).gate == s.gate + NamedUpTo(ws, n)
  {
    if n > 0 {
      var u, w := WrittenUpTo(s, ws, n - 1), ws[n - 1];
      GuardedThins(s, ws, n - 1);
      OneThins(u, w);
      ThinnedTwice(s, u, Written(u, w));
      assert NamedUpTo(ws, n) == NamedUpTo(ws, n - 1) + if w.verb.Name? then {w.id} else {};
    }
  }

  lemma {:induction false} OneThins(s: State, w: Write)
    requires !w.verb.Clear? && (w.verb.Remove? ==> w.id in s.gate) && s.subjects.Keys <= Positions(s.events)
    ensures Thinned(s, Written(s, w)) && Written(s, w).gate == s.gate + if w.verb.Name? then {w.id} else {}
  {
    if w.verb.Remove? {
      forall e
        ensures e in Written(s, w).events <==> e in s.events && e.aggregateId != w.id
      {
        WithoutMember(s.events, {w.id}, e);
      }
      if Ordered(s.events) { WithoutOrdered(s.events, {w.id}); }
    }
  }

  lemma {:induction false} ThinnedTwice(a: State, b: State, c: State)
    requires Thinned(a, b) && Thinned(b, c)
    ensures Thinned(a, c)
  {
  }

  /** What the shortened log of a stopped purge still names, the purge covers from the start. */
  lemma {:induction false} ForeignAreCovered(s: State, t: State, aggregates: set<string>, users: set<string>, userId: string)
    requires Sound(s) && Thinned(s, t) && userId in users
    ensures NonEmpty(ForeignAggregates(t.events, t.subjects, userId)) <= PurgedAggregates(s, aggregates, users)
  {
    var foreign := ForeignAggregates(t.events, t.subjects, userId);
    ForeignAreNaming(t.events, t.subjects, userId);
    forall id | id in NonEmpty(foreign)
      ensures id in PurgedAggregates(s, aggregates, users)
    {
      assert id in SetOf(foreign);
      NamingByIndex(t, userId, id);
      var i :| 0 <= i < |t.events| && Names(t, i, userId, id);
      assert t.events[i] in s.events;
      NamingIsCovered(s, aggregates, users, t.events[i]);
    }
  }

  lemma {:induction false} NamingIsCovered(s: State, aggregates: set<string>, users: set<string>, e: Event)
    requires e in s.events && e.position in s.subjects && s.subjects[e.position].userId in users
    ensures e.aggregateId in PurgedAggregates(s, aggregates, users)
  {
    var i :| 0 <= i < |s.events| && s.events[i] == e;
  }

  lemma {:induction false} UsersCovered(
    s: State, t: State, aggregates: set<string>, users: seq<string>, n: nat, ws: seq<Write>, all: set<string>
  )
    requires Sound(s) && Thinned(s, t) && n <= |users| && forall id | id in users :: id in all
    requires ws == UsersWrites(t, users, n)
    ensures Guarded(ws) && Named(ws) <= PurgedAggregates(s, aggregates, all)
  {
    if n > 0 {
      var before := UsersWrites(t, users, n - 1);
      var more := UsersLast(t, users, n);
      assert users[n - 1] in all;
      UsersCovered(s, t, aggregates, users, n - 1, before, all);
      NextUserCovered(s, t, before, more, aggregates, all, users[n - 1]);
    }
  }

  lemma {:induction false} NextUserCovered(
    s: State, t: State, before: seq<Write>, more: seq<Write>, aggregates: set<string>, all: set<string>, userId: string
  )
    requires Sound(s) && Thinned(s, t) && userId in all && Guarded(before)
    requires more == UserWrites(WrittenAll(t, before), userId) && Named(before) <= PurgedAggregates(s, aggregates, all)
    ensures Guarded(before + more) && Named(before + more) <= PurgedAggregates(s, aggregates, all)
  {
    var u := WrittenAll(t, before);
    GuardedThins(t, before, |before|);
    ThinnedTwice(s, t, u);
    UserGuarded(u, userId);
    ForeignAreCovered(s, u, aggregates, all, userId);
    NamedConcat(before, more);
    GuardedConcat(before, more);
  }

  lemma {:induction false} ContentsCovered(s: State, aggregates: seq<string>, users: seq<string>)
    requires Sound(s) && "" !in users
    ensures Named(ContentsWrites(s, aggregates, users)) <= PurgedAggregates(s, NonEmpty(aggregates), NonEmpty(users))
  {
    var first := AggregatesWrites(aggregates);
    var t := WrittenAll(s, first);
    AggregatesGuarded(aggregates);
    GuardedThins(s, first, |first|);
    UsersCovered(s, t, NonEmpty(aggregates), users, |users|, UsersWrites(t, users, |users|), NonEmpty(users));
    NamedConcat(first, UsersWrites(t, users, |users|));
  }

  /** What a purge has done after n statements, all but the last of them being guarded. */
  lemma {:induction false} StoppedThins(s: State, aggregateIds: seq<string>, userIds: seq<string>, n: nat)
    requires Sound(s) && n < |PurgeWrites(s, aggregateIds, userIds)|
    ensures var ws, t := PurgeWrites(s, aggregateIds, userIds), WrittenUpTo(s, PurgeWrites(s, aggregateIds, userIds), n);
      && Thinned(s, t) && t.gate == s.gate + NamedUpTo(ws, n)
      && (ws[n].verb.Remove? ==> ws[n].id in t.gate)
      && NamedUpTo(ws, n) <= Named(ContentsWrites(s, Distinct(aggregateIds), Distinct(userIds)))
  {
    var ws, all := PurgeWrites(s, aggregateIds, userIds), ContentsWrites(s, Distinct(aggregateIds), Distinct(userIds));
    ContentsGuarded(s, Distinct(aggregateIds), Distinct(userIds));
    GuardedThins(s, all, n);
    WrittenBegin(s, all, ws, n);
    NamedBegin(all, ws, n);
  }

  /**
   * A purge stopped after n statements has removed only whole aggregates that it has named, and
   * has named only aggregates that it covers.
   */
  lemma {:induction false} StoppedPurgeIsCovered(s: State, aggregateIds: seq<string>, userIds: seq<string>, n: nat)
    requires Sound(s) && n < |PurgeWrites(s, aggregateIds, userIds)|
    ensures var t := WrittenUpTo(s, PurgeWrites(s, aggregateIds, userIds), n);
      && Thinned(s, t)
      && t.gate <= s.gate + PurgedAggregates(s, NonEmpty(aggregateIds), NonEmpty(userIds))
  {
    StoppedThins(s, aggregateIds, userIds, n);
    DistinctIsNonEmpty(aggregateIds);
    DistinctIsNonEmpty(userIds);
    ContentsCovered(s, Distinct(aggregateIds), Distinct(userIds));
  }

  /** The gate is left open exactly if two statements went through: the CREATE TABLE and the first INSERT. */
  lemma {:induction false} StoppedPurgeLeavesGateOpen(s: State, aggregateIds: seq<string>, userIds: seq<string>, n: nat)
    requires Committed(s) && n < |PurgeWrites(s, aggregateIds, userIds)|
    ensures WrittenUpTo(s, PurgeWrites(s, aggregateIds, userIds), n).gate != {} <==> n >= 2
  {
    var ws := PurgeWrites(s, aggregateIds, userIds);
    StoppedThins(s, aggregateIds, userIds, n);
    SecondWriteNames(s, aggregateIds, userIds);
    if n >= 2 { assert ws[1].id in NamedUpTo(ws, n); }
  }

  lemma {:induction false} SecondWriteNames(s: State, aggregateIds: seq<string>, userIds: seq<string>)
    requires Distinct(aggregateIds) != [] || Distinct(userIds) != []
    ensures var ws := PurgeWrites(s, aggregateIds, userIds); |ws| > 2 && ws[0].verb.Look? && ws[1].verb.Name?
  {
    var aggregates, users := Distinct(aggregateIds), Distinct(userIds);
    DistinctIsEmpty(aggregateIds);
    DistinctIsEmpty(userIds);
    if aggregates != [] {
      FirstOfEach(aggregates);
    } else {
      var t := WrittenAll(s, AggregatesWrites(aggregates));
      UsersBegin(t, users, 1, |users|, UsersWrites(t, users, 1));
      assert UsersWrites(t, users, 1) == UsersWrites(t, users, 0) + UserWrites(t, users[0]);
      assert UsersWrites(t, users, 1)[0] == Write(Name, users[0]);
      assert AggregatesWrites(aggregates) == [Write(Look, "")];
    }
  }

  lemma {:induction false} FirstOfEach(ids: seq<string>)
    requires ids != [] && ids[0] != ""
    ensures Each(Name, ids) != [] && Each(Name, ids)[0] == Write(Name, ids[0])
  {
    EachBegin(Name, ids, 1, |ids|);
    assert EachOf(Name, ids, 1) == EachOf(Name, ids, 0) + [Write(Name, ids[0])];
  }

  /** The statement that removed an event, if one did, is the DELETE of its aggregate. */
  lemma {:induction false} RemovedBy(s: State, ws: seq<Write>, m: nat, e: Event) returns (n: nat)
    requires m <= |ws| && e in s.events && e !in WrittenUpTo(s, ws, m).events
    ensures n < m && e in WrittenUpTo(s, ws, n).events && ws[n] == Write(Remove, e.aggregateId)
  {
    n := m - 1;
    if e !in WrittenUpTo(s, ws, n).events {
      n := RemovedBy(s, ws, n, e);
    } else {
      WithoutMember(WrittenUpTo(s, ws, n).events, {ws[n].id}, e);
    }
  }

  /** Every event that a purge covers is, at some statement, still there while its aggregate stands in the gate. */
  lemma {:induction false} CoveredEventIsExposed(s: State, aggregateIds: seq<string>, userIds: seq<string>, e: Event) returns (n: nat)
    requires Committed(s) && e in s.events && e.aggregateId in PurgedAggregates(s, NonEmpty(aggregateIds), NonEmpty(userIds))
    ensures n < |PurgeWrites(s, aggregateIds, userIds)|
    ensures var t := WrittenUpTo(s, PurgeWrites(s, aggregateIds, userIds), n); e in t.events && e.aggregateId in t.gate
  {
    var ws := PurgeWrites(s, aggregateIds, userIds);
    PurgeWritten(s, aggregateIds, userIds);
    PurgedFromCommitted(s, NonEmpty(aggregateIds), NonEmpty(userIds));
    WithoutMember(s.events, PurgedAggregates(s, NonEmpty(aggregateIds), NonEmpty(userIds)), e);
    n := RemovedBy(s, ws, |ws|, e);
    StoppedThins(s, aggregateIds, userIds, n);
  }

  lemma {:induction false} ThinnedKeepsSound(was: State, now: State)
    requires Sound(was) && Thinned(was, now)
    ensures Sound(now)
  {
    forall i, j | 0 <= i < j < |now.events|
      ensures now.events[i].id != now.events[j].id
    {
      var k :| 0 <= k < |was.events| && was.events[k] == now.events[i];
      var l :| 0 <= l < |was.events| && was.events[l] == now.events[j];
    }
  }
}
