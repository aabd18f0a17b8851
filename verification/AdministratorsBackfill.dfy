/**
 * The one-shot backfill of realm administrators, run each time the database is
 * opened and guarded by a marker row.
 */
module AdministratorsBackfill {
  import opened Text
  import opened Wrappers

  datatype Organization = Organization(id: string, realmId: string, active: bool, createdAt: int)

  datatype Membership = Membership(realmId: string, organizationId: string, userId: string, roles: string)

  datatype User = User(realmId: string, deleted: bool)

  /** The tables the backfill reads. */
  datatype Tables = Tables(realms: seq<string>, organizations: seq<Organization>, memberships: seq<Membership>,
                           users: map<string, User>)

  datatype Admin = Admin(realmId: string, userId: string)

  // -------------------------------------------------------------------- queries

  predicate Contains(text: string, part: string)
    decreases |text|
  {
    part <= text || (text != "" && Contains(text[1..], part))
  }

  function Lower(c: char): char {
    if 'A' <= c <= 'Z' then (c as int + 32) as char else c
  }

  function Lowered(s: string): string {
    seq(|s|, i requires 0 <= i < |s| => Lower(s[i]))
  }

  const OWNER := "\"owner\""

  /** `LIKE '%"owner"%'`, which ignores the case of ASCII letters. */
  predicate RolesLikeOwner(roles: string) {
    Contains(Lowered(roles), OWNER)
  }

  /** ORDER BY created_at, id */
  predicate Older(a: Organization, b: Organization) {
    a.createdAt < b.createdAt || (a.createdAt == b.createdAt && TextBefore(a.id, b.id))
  }

  /** The realm's oldest active organization: ... ORDER BY ... LIMIT 1 */
  function OldestActive(organizations: seq<Organization>, realmId: string): Option<Organization> {
    if organizations == [] then None
    else
      var before, last := OldestActive(organizations[..|organizations| - 1], realmId), organizations[|organizations| - 1];
      if last.realmId != realmId || !last.active then before
      else if before.None? || Older(last, before.value) then Some(last)
      else before
  }

  /** The join and its conditions; LIKE first, then the exact test in the loop. */
  predicate IsListed(t: Tables, m: Membership, realmId: string, organizationId: string) {
    m.realmId == realmId && m.organizationId == organizationId && RolesLikeOwner(m.roles)
    && m.userId in t.users && t.users[m.userId].realmId == m.realmId && !t.users[m.userId].deleted
  }

  function Members(t: Tables, realmId: string, organizationId: string): (members: seq<Membership>)
    ensures forall m :: m in members <==> m in t.memberships && IsListed(t, m, realmId, organizationId)
  {
    Listed(t, t.memberships, realmId, organizationId)
  }

  function Listed(t: Tables, memberships: seq<Membership>, realmId: string, organizationId: string): (members: seq<Membership>)
    ensures forall m :: m in members <==> m in memberships && IsListed(t, m, realmId, organizationId)
  {
    if memberships == [] then []
    else
      var n := |memberships| - 1;
      assert memberships == memberships[..n] + [memberships[n]];
      Listed(t, memberships[..n], realmId, organizationId)
      + if IsListed(t, memberships[n], realmId, organizationId) then [memberships[n]] else []
  }

  // ------------------------------------------------------------- what it must do

  predicate HasAdmin(admins: set<Admin>, realmId: string) {
    exists a | a in admins :: a.realmId == realmId
  }

  ghost predicate IsLeast(organizations: seq<Organization>, realmId: string, o: Organization) {
    o in organizations && o.realmId == realmId && o.active
    && forall other {:trigger Older(o, other)} | other in organizations && other.realmId == realmId && other.active && other.id != o.id ::
         Older(o, other)
  }

  /** The rule for gaining administration, said without the program's queries. */
  ghost predicate Gains(t: Tables, admins: set<Admin>, a: Admin) {
    a.realmId in t.realms && !HasAdmin(admins, a.realmId)
    && a.userId in t.users && t.users[a.userId] == User(a.realmId, false)
    && exists o, m | o in t.organizations && m in t.memberships ::
         IsLeast(t.organizations, a.realmId, o)
         && m.realmId == a.realmId && m.organizationId == o.id && m.userId == a.userId && Contains(m.roles, OWNER)
  }

  // ---------------------------------------------------------------- the program

  datatype State = State(tables: Tables, admins: set<Admin>, migrated: bool)

  function Owners(members: seq<Membership>, realmId: string): set<Admin> {
    set i | 0 <= i < |members| && Contains(members[i].roles, OWNER) :: Admin(realmId, members[i].userId)
  }

  /** The administrators one realm gains. */
  function AppointedIn(t: Tables, admins: set<Admin>, realmId: string): set<Admin> {
    if HasAdmin(admins, realmId) then {}
    else match OldestActive(t.organizations, realmId)
      case None => {}
      case Some(o) => Owners(Members(t, realmId, o.id), realmId)
  }

  function Appointed(t: Tables, admins: set<Admin>, realms: seq<string>): set<Admin> {
    set i, a | 0 <= i < |realms| && a in AppointedIn(t, admins, realms[i]) :: a
  }

  function Backfilled(s: State): State {
    if s.migrated then s else State(s.tables, s.admins + Appointed(s.tables, s.admins, s.tables.realms), true)
  }

  class Store {
    var tables: Tables
    var admins: set<Admin>
    var migrated: bool

    ghost function Snapshot(): State
      reads this
    {
      State(tables, admins, migrated)
    }

    method Backfill()
      modifies this`admins, this`migrated
      ensures Snapshot() == Backfilled(old(Snapshot()))
    {
      if migrated {
        return;
      }
      ghost var before := admins;
      for i := 0 to |tables.realms|
        invariant admins == before + Appointed(tables, before, tables.realms[..i])
      {
        var realmId := tables.realms[i];
        AppointedSnoc(tables, before, tables.realms[..i], realmId);
        assert tables.realms[..i + 1] == tables.realms[..i] + [realmId];
        if exists a | a in admins :: a.realmId == realmId {
          continue;
        }
        var oldest := OldestActive(tables.organizations, realmId);
        if oldest.None? {
          continue;
        }
        var members := Members(tables, realmId, oldest.value.id);
        ghost var sofar := admins;
        for j := 0 to |members|
          invariant admins == sofar + Owners(members[..j], realmId)
        {
          OwnersSnoc(members, j, realmId);
          if !Contains(members[j].roles, OWNER) {
            continue;
          }
          admins := admins + {Admin(realmId, members[j].userId)};
        }
        assert members[..|members|] == members;
      }
      assert tables.realms[..|tables.realms|] == tables.realms;
      migrated := true;
    }
  }

  lemma {:induction false} OwnersSnoc(members: seq<Membership>, j: nat, realmId: string)
    requires j < |members|
    ensures Owners(members[..j + 1], realmId)
         == Owners(members[..j], realmId) + if Contains(members[j].roles, OWNER) then {Admin(realmId, members[j].userId)} else {}
  {
    var shorter, longer := members[..j], members[..j + 1];
    forall a | a in Owners(shorter, realmId)
      ensures a in Owners(longer, realmId)
    {
      var i :| 0 <= i < j && Contains(shorter[i].roles, OWNER) && a == Admin(realmId, shorter[i].userId);
      assert longer[i] == shorter[i];
    }
    assert longer[j] == members[j];
  }

  lemma {:induction false} AppointedSnoc(t: Tables, admins: set<Admin>, realms: seq<string>, realmId: string)
    ensures Appointed(t, admins, realms + [realmId]) == Appointed(t, admins, realms) + AppointedIn(t, admins, realmId)
    ensures HasAdmin(Appointed(t, admins, realms), realmId) ==> AppointedIn(t, admins, realmId) <= Appointed(t, admins, realms)
  {
    var longer := realms + [realmId];
    forall a | a in Appointed(t, admins, realms)
      ensures a in Appointed(t, admins, longer)
    {
      var i :| 0 <= i < |realms| && a in AppointedIn(t, admins, realms[i]);
      assert longer[i] == realms[i];
    }
    assert longer[|realms|] == realmId;
    if HasAdmin(Appointed(t, admins, realms), realmId) {
      var a :| a in Appointed(t, admins, realms) && a.realmId == realmId;
      var i :| 0 <= i < |realms| && a in AppointedIn(t, admins, realms[i]);
      assert realms[i] == realmId;
    }
  }

  // ------------------------------------------------------------------ the rule

  ghost predicate IdsDiffer(organizations: seq<Organization>) {
    forall i, j | 0 <= i < j < |organizations| :: organizations[i].id != organizations[j].id
  }

  lemma {:induction false} OlderIsTotal(a: Organization, b: Organization)
    ensures a.id != b.id ==> (Older(a, b) <==> !Older(b, a))
  {
    TextOrder(a.id, b.id);
  }

  lemma {:induction false} OlderIsTransitive(a: Organization, b: Organization, c: Organization)
    requires Older(a, b) && Older(b, c)
    ensures Older(a, c)
  {
    if TextBefore(a.id, b.id) && TextBefore(b.id, c.id) { TextTransitive(a.id, b.id, c.id); }
  }

  lemma {:induction false} OldestActiveIsLeast(organizations: seq<Organization>, realmId: string)
    requires IdsDiffer(organizations)
    ensures match OldestActive(organizations, realmId)
      case Some(o) => IsLeast(organizations, realmId, o)
      case None => forall o | o in organizations :: o.realmId != realmId || !o.active
  {
    if organizations != [] {
      var n := |organizations| - 1;
      var before, last := organizations[..n], organizations[n];
      assert organizations == before + [last];
      OldestActiveIsLeast(before, realmId);
      var best := OldestActive(before, realmId);
      if best.Some? && last.realmId == realmId && last.active { OneMoreActive(before, last, realmId, best.value); }
    }
  }

  lemma {:induction false} OneMoreActive(before: seq<Organization>, last: Organization, realmId: string, best: Organization)
    requires IdsDiffer(before + [last]) && IsLeast(before, realmId, best) && last.realmId == realmId && last.active
    ensures IsLeast(before + [last], realmId, if Older(last, best) then last else best)
  {
    SameIdSameRow(before, last, best);
    OlderIsTotal(last, best);
    if Older(last, best) {
      forall other | other in before && other.realmId == realmId && other.active
        ensures Older(last, other)
      {
        if other != best { OlderIsTransitive(last, best, other); }
      }
    }
  }

  lemma {:induction false} SameIdSameRow(before: seq<Organization>, last: Organization, o: Organization)
    requires IdsDiffer(before + [last]) && o in before
    ensures o.id != last.id && forall other | other in before && other.id == o.id :: other == o
  {
    var all := before + [last];
    var i :| 0 <= i < |before| && before[i] == o;
    assert all[i] == o && all[|before|] == last;
    forall other | other in before && other.id == o.id
      ensures other == o
    {
      var j :| 0 <= j < |before| && before[j] == other;
      assert all[j] == other;
    }
  }

  lemma {:induction false} LeastIsUnique(organizations: seq<Organization>, realmId: string, o: Organization, p: Organization)
    requires IdsDiffer(organizations) && IsLeast(organizations, realmId, o) && IsLeast(organizations, realmId, p)
    ensures o == p
  {
    OlderIsTotal(o, p);
    if o.id == p.id {
      var i :| 0 <= i < |organizations| && organizations[i] == o;
      var j :| 0 <= j < |organizations| && organizations[j] == p;
    }
  }

  lemma {:induction false} ContainsLowered(text: string, part: string)
    requires Contains(text, part)
    ensures Contains(Lowered(text), Lowered(part))
    decreases |text|
  {
    if part <= text {
      assert Lowered(part) <= Lowered(text);
    } else {
      ContainsLowered(text[1..], part);
      assert Lowered(text)[1..] == Lowered(text[1..]);
    }
  }

  lemma {:induction false} OwnersAreLiked(roles: string)
    requires Contains(roles, OWNER)
    ensures RolesLikeOwner(roles)
  {
    ContainsLowered(roles, OWNER);
    assert Lowered(OWNER) == OWNER;
  }

  lemma {:induction false} AppointedInExactly(t: Tables, admins: set<Admin>, a: Admin)
    requires IdsDiffer(t.organizations) && a.realmId in t.realms
    ensures a in AppointedIn(t, admins, a.realmId) <==> Gains(t, admins, a)
  {
    OldestActiveIsLeast(t.organizations, a.realmId);
    if a in AppointedIn(t, admins, a.realmId) {
      var o := OldestActive(t.organizations, a.realmId).value;
      var members := Members(t, a.realmId, o.id);
      var i :| 0 <= i < |members| && Contains(members[i].roles, OWNER) && a == Admin(a.realmId, members[i].userId);
      assert members[i] in members;
    }
    if Gains(t, admins, a) {
      var o, m :| o in t.organizations && m in t.memberships && IsLeast(t.organizations, a.realmId, o)
                  && m.realmId == a.realmId && m.organizationId == o.id && m.userId == a.userId && Contains(m.roles, OWNER);
      LeastIsUnique(t.organizations, a.realmId, o, OldestActive(t.organizations, a.realmId).value);
      OwnersAreLiked(m.roles);
      var members := Members(t, a.realmId, o.id);
      assert m in members;
      var i :| 0 <= i < |members| && members[i] == m;
    }
  }

  /** The loop over realms meets the rule: exactly the owners of each unadministered realm's oldest organization gain. */
  lemma {:induction false} BackfillExactly(s: State, a: Admin)
    requires IdsDiffer(s.tables.organizations) && !s.migrated
    ensures a in Backfilled(s).admins <==> a in s.admins || Gains(s.tables, s.admins, a)
  {
    var t := s.tables;
    if a in Appointed(t, s.admins, t.realms) {
      var i :| 0 <= i < |t.realms| && a in AppointedIn(t, s.admins, t.realms[i]);
      assert a.realmId == t.realms[i];
      AppointedInExactly(t, s.admins, a);
    }
    if Gains(t, s.admins, a) {
      AppointedInExactly(t, s.admins, a);
      var i :| 0 <= i < |t.realms| && t.realms[i] == a.realmId;
      assert a in AppointedIn(t, s.admins, t.realms[i]);
    }
  }

  // ------------------------------------------------------------------ reopening

  /** What happens to the database over time: it is opened, or its tables change in any way. */
  datatype Happening = Open | Change(tables: Tables, admins: set<Admin>)

  function After(s: State, h: Happening): State {
    match h
    case Open => Backfilled(s)
    case Change(tables, admins) => State(tables, admins, s.migrated)
  }

  function AfterAll(s: State, history: seq<Happening>): State
    decreases |history|
  {
    if history == [] then s else AfterAll(After(s, history[0]), history[1..])
  }

  function WithoutOpens(history: seq<Happening>): seq<Happening> {
    if history == [] then [] else (if history[0].Open? then [] else [history[0]]) + WithoutOpens(history[1..])
  }

  lemma {:induction false} LaterOpensDoNothing(s: State, history: seq<Happening>)
    requires s.migrated
    ensures AfterAll(s, history) == AfterAll(s, WithoutOpens(history))
    decreases |history|
  {
    if history != [] {
      var rest := WithoutOpens(history[1..]);
      LaterOpensDoNothing(After(s, history[0]), history[1..]);
      if !history[0].Open? { assert ([history[0]] + rest)[1..] == rest; } else { assert [] + rest == rest; }
    }
  }

  /** One opening decides for good: later ones, between any changes, even ones that empty a realm, add nothing. */
  lemma {:induction false} OpenedOnce(s: State, history: seq<Happening>)
    ensures AfterAll(s, [Open] + history) == AfterAll(Backfilled(s), WithoutOpens(history))
  {
    assert ([Open] + history)[1..] == history;
    LaterOpensDoNothing(Backfilled(s), history);
  }

  // -------------------------------------------------------------- interruptions

  lemma {:induction false} AppointedBelongs(t: Tables, admins: set<Admin>, realms: seq<string>, a: Admin)
    requires a in Appointed(t, admins, realms)
    ensures a.realmId in realms && a in AppointedIn(t, admins, a.realmId) && !HasAdmin(admins, a.realmId)
  {
    var i :| 0 <= i < |realms| && a in AppointedIn(t, admins, realms[i]);
    assert a.realmId == realms[i];
  }

  /** No realm has gained some of its administrators but not all. */
  ghost predicate NoRealmHalfDone(t: Tables, admins: set<Admin>, done: set<Admin>) {
    forall a, b | a in done && b in AppointedIn(t, admins, a.realmId) :: b in done
  }

  /**
   * The inserts are not one transaction. After an interruption that has inserted `done`, the next
   * opening completes the backfill exactly when no realm was left half done.
   */
  lemma {:induction false} RerunExactly(t: Tables, admins: set<Admin>, done: set<Admin>)
    requires done <= Appointed(t, admins, t.realms)
    ensures Backfilled(State(t, admins + done, false)) == Backfilled(State(t, admins, false))
       <==> NoRealmHalfDone(t, admins, done)
  {
    var full, rerun := Appointed(t, admins, t.realms), Appointed(t, admins + done, t.realms);
    forall a | a in rerun
      ensures a in full
    {
      AppointedBelongs(t, admins + done, t.realms, a);
      RealmAppoints(t, admins, a);
    }
    forall a | a in full
      ensures a in rerun <==> !HasAdmin(done, a.realmId)
    {
      AppointedBelongs(t, admins, t.realms, a);
      if a in rerun { AppointedBelongs(t, admins + done, t.realms, a); }
      if !HasAdmin(done, a.realmId) {
        assert !HasAdmin(admins + done, a.realmId);
        RealmAppoints(t, admins + done, a);
      }
    }
    if NoRealmHalfDone(t, admins, done) {
      forall a | a in full && a !in rerun
        ensures a in done
      {
        var b :| b in done && b.realmId == a.realmId;
        AppointedBelongs(t, admins, t.realms, a);
      }
      assert admins + done + rerun == admins + full;
    } else {
      var a, b :| a in done && b in AppointedIn(t, admins, a.realmId) && b !in done;
      AppointedBelongs(t, admins, t.realms, a);
      assert b.realmId == a.realmId && b !in admins;
      RealmAppoints(t, admins, b);
      assert b in admins + full && b !in admins + done + rerun;
    }
  }

  const FIRST := Membership("r", "o", "1", OWNER)
  const SECOND := Membership("r", "o", "2", OWNER)

  /** One realm, one active organization, two owners. */
  const TWO_OWNERS := Tables(["r"], [Organization("o", "r", true, 0)], [FIRST, SECOND],
                             map["1" := User("r", false), "2" := User("r", false)])

  lemma {:induction false} TwoOwnersGain(m: Membership)
    requires m == FIRST || m == SECOND
    ensures Admin("r", m.userId) in AppointedIn(TWO_OWNERS, {}, "r")
  {
    var t := TWO_OWNERS;
    var o := t.organizations[0];
    assert t.organizations[..0] == [] && OldestActive(t.organizations, "r") == Some(o);
    OwnersAreLiked(OWNER);
    assert m == t.memberships[if m == FIRST then 0 else 1];
    assert IsListed(t, m, "r", "o");
    var members := Members(t, "r", "o");
    assert m in members;
    var i :| 0 <= i < |members| && members[i] == m;
  }

  /** Interrupted after the first of two inserts, the backfill is never completed: the second owner stays out. */
  lemma {:induction false} InterruptionLeavesHalf()
    ensures var first, second := Admin("r", "1"), Admin("r", "2");
      && {first} <= Appointed(TWO_OWNERS, {}, TWO_OWNERS.realms)
      && second in Backfilled(State(TWO_OWNERS, {}, false)).admins
      && second !in Backfilled(State(TWO_OWNERS, {first}, false)).admins
  {
    var first, second := Admin("r", "1"), Admin("r", "2");
    TwoOwnersGain(FIRST);
    TwoOwnersGain(SECOND);
    RealmAppoints(TWO_OWNERS, {}, first);
    RealmAppoints(TWO_OWNERS, {}, second);
    if second in Appointed(TWO_OWNERS, {first}, TWO_OWNERS.realms) {
      AppointedBelongs(TWO_OWNERS, {first}, TWO_OWNERS.realms, second);
    }
  }

  lemma {:induction false} RealmAppoints(t: Tables, admins: set<Admin>, a: Admin)
    requires a.realmId in t.realms && a in AppointedIn(t, admins, a.realmId)
    ensures a in Appointed(t, admins, t.realms)
  {
    var i :| 0 <= i < |t.realms| && t.realms[i] == a.realmId;
  }

  // ------------------------------------------------ the rule, down to texts and times

  /** One text includes another exactly if it is something, the other and something more. */
  lemma {:induction false} ContainsExactly(text: string, part: string)
    ensures Contains(text, part) <==> exists front, back :: text == front + part + back
  {
    if Contains(text, part) {
      var front, back := Around(text, part);
      assert text == front + part + back;
    }
    if front, back :| text == front + part + back { InBetween(text, front, part, back); }
  }

  lemma {:induction false} Around(text: string, part: string) returns (front: string, back: string)
    requires Contains(text, part)
    ensures text == front + part + back
    decreases |text|
  {
    if part <= text {
      front, back := "", text[|part|..];
    } else {
      front, back := Around(text[1..], part);
      assert text == [text[0]] + text[1..] && [text[0]] + (front + part + back) == ([text[0]] + front) + part + back;
      front := [text[0]] + front;
    }
  }

  lemma {:induction false} InBetween(text: string, front: string, part: string, back: string)
    requires text == front + part + back
    ensures Contains(text, part)
  {
    if front == "" {
      assert part <= text;
    } else {
      assert text[1..] == front[1..] + part + back;
      InBetween(text[1..], front[1..], part, back);
    }
  }

  /** The roles name the owner role: its name stands in them in double quotes. */
  ghost predicate NamesOwner(roles: string) {
    exists front, back :: roles == front + ['"', 'o', 'w', 'n', 'e', 'r', '"'] + back
  }

  /** Created before, or at the same time and with the id that comes first character by character. */
  predicate CreatedBefore(a: Organization, b: Organization) {
    a.createdAt < b.createdAt || (a.createdAt == b.createdAt && TextBefore(a.id, b.id))
  }

  ghost predicate IsOldestActive(organizations: seq<Organization>, realmId: string, o: Organization) {
    o in organizations && o.realmId == realmId && o.active
    && forall p {:trigger CreatedBefore(o, p)} | p in organizations && p.realmId == realmId && p.active && p != o :: CreatedBefore(o, p)
  }

  /** Who gains: an owner, not deleted, of the oldest active organization of a realm without administrators. */
  lemma {:induction false} GainsExactly(t: Tables, admins: set<Admin>, a: Admin)
    requires IdsDiffer(t.organizations)
    ensures Gains(t, admins, a) <==>
      && a.realmId in t.realms && (forall b | b in admins :: b.realmId != a.realmId)
      && a.userId in t.users && t.users[a.userId].realmId == a.realmId && !t.users[a.userId].deleted
      && exists o, m | o in t.organizations && m in t.memberships ::
           IsOldestActive(t.organizations, a.realmId, o)
           && m.realmId == a.realmId && m.organizationId == o.id && m.userId == a.userId && NamesOwner(m.roles)
  {
    forall o | o in t.organizations
      ensures IsLeast(t.organizations, a.realmId, o) <==> IsOldestActive(t.organizations, a.realmId, o)
    {
      LeastIsOldest(t.organizations, a.realmId, o);
    }
    assert OWNER == ['"', 'o', 'w', 'n', 'e', 'r', '"'];
    forall m | m in t.memberships
      ensures Contains(m.roles, OWNER) <==> NamesOwner(m.roles)
    {
      ContainsExactly(m.roles, OWNER);
    }
  }

  lemma {:induction false} LeastIsOldest(organizations: seq<Organization>, realmId: string, o: Organization)
    requires IdsDiffer(organizations) && o in organizations
    ensures IsLeast(organizations, realmId, o) <==> IsOldestActive(organizations, realmId, o)
  {
    var i :| 0 <= i < |organizations| && organizations[i] == o;
    forall p | p in organizations
      ensures p.id == o.id <==> p == o
      ensures Older(o, p) <==> CreatedBefore(o, p)
    {
      var j :| 0 <= j < |organizations| && organizations[j] == p;
    }
  }
}
