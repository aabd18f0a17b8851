/**
 * Usernames and verified addresses as sign-in identifiers. Triggers and unique
 * indexes on `users` and `user_emails` check each statement locally; the lemmas
 * show that together they keep identifiers unambiguous in every reachable state.
 */
module Identifiers {
  datatype User = User(realmId: string, userName: string, email: string, emailVerified: bool)

  /** A row of user_emails. */
  datatype Email = Email(realmId: string, userId: string, email: string, verified: bool, primary: bool)

  datatype Directory = Directory(users: map<string, User>, emails: map<string, Email>)

  // ----------------------------------------------------------------- lower(trim(x))

  function Trim(s: string): string {
    if s == "" then ""
    else if s[0] == ' ' then Trim(s[1..])
    else if s[|s| - 1] == ' ' then Trim(s[..|s| - 1])
    else s
  }

  function Lower(s: string): string {
    if s == "" then ""
    else [if 'A' <= s[0] <= 'Z' then (s[0] as int + 32) as char else s[0]] + Lower(s[1..])
  }

  function Normal(s: string): string {
    Lower(Trim(s))
  }

  // ------------------------------------------------------- triggers and indexes

  /** users_user_name_verified_email_collision_insert and _update */
  predicate UserCollides(d: Directory, id: string, user: User) {
    (exists e | e in d.emails ::
       d.emails[e].realmId == user.realmId && d.emails[e].userId != id && d.emails[e].verified
       && Normal(d.emails[e].email) == Normal(user.userName))
    || (user.emailVerified && exists other | other in d.users ::
          d.users[other].realmId == user.realmId && other != id
          && Normal(d.users[other].userName) == Normal(user.email))
  }

  /** user_emails_verified_user_name_collision_insert and _update */
  predicate EmailCollides(d: Directory, email: Email) {
    email.verified && exists u | u in d.users ::
      d.users[u].realmId == email.realmId && u != email.userId && Normal(d.users[u].userName) == Normal(email.email)
  }

  /** UNIQUE (realm_id, user_name) and UNIQUE (realm_id, email), for a row replacing `id`. */
  predicate UserIsUnique(d: Directory, id: string, user: User) {
    forall other | other in d.users && other != id && d.users[other].realmId == user.realmId ::
      d.users[other].userName != user.userName && d.users[other].email != user.email
  }

  /** The partial unique indexes of user_emails, for a row replacing `id`. */
  predicate EmailIsUnique(d: Directory, id: string, email: Email) {
    forall other | other in d.emails && other != id && d.emails[other].realmId == email.realmId ::
      && (email.verified && d.emails[other].verified ==> Normal(d.emails[other].email) != Normal(email.email))
      && (email.primary && d.emails[other].primary ==> d.emails[other].userId != email.userId)
  }

  /** The columns the update triggers watch. */
  predicate SameIdentity(a: User, b: User) {
    a.realmId == b.realmId && a.userName == b.userName && a.email == b.email && a.emailVerified == b.emailVerified
  }

  predicate SameAddress(a: Email, b: Email) {
    a.realmId == b.realmId && a.userId == b.userId && a.email == b.email && a.verified == b.verified
  }

  // ------------------------------------------------------------------ statements

  /** `listed`: the update names a watched column, even if it does not change it. */
  datatype Statement =
    | InsertUser(id: string, user: User)
    | UpdateUser(id: string, user: User, listed: bool)
    | DeleteUser(id: string)
    | InsertEmail(id: string, email: Email)
    | UpdateEmail(id: string, email: Email, listed: bool)
    | DeleteEmail(id: string)

  /** A statement that a key, an index or a trigger refuses changes nothing. */
  function Execute(d: Directory, s: Statement): Directory {
    match s
    case InsertUser(id, user) =>
      if id in d.users || !UserIsUnique(d, id, user) || UserCollides(d, id, user) then d
      else d.(users := d.users[id := user])
    case UpdateUser(id, user, listed) =>
      if id !in d.users || !UserIsUnique(d, id, user) then d
      else if (listed || !SameIdentity(d.users[id], user)) && UserCollides(d, id, user) then d
      else d.(users := d.users[id := user])
    case DeleteUser(id) =>
      Directory(d.users - {id}, map e | e in d.emails && d.emails[e].userId != id :: d.emails[e])
    case InsertEmail(id, email) =>
      if id in d.emails || email.userId !in d.users || !EmailIsUnique(d, id, email) || EmailCollides(d, email) then d
      else d.(emails := d.emails[id := email])
    case UpdateEmail(id, email, listed) =>
      if id !in d.emails || email.userId !in d.users || !EmailIsUnique(d, id, email) then d
      else if (listed || !SameAddress(d.emails[id], email)) && EmailCollides(d, email) then d
      else d.(emails := d.emails[id := email])
    case DeleteEmail(id) => d.(emails := d.emails - {id})
  }

  function ExecuteAll(d: Directory, statements: seq<Statement>): Directory
    decreases |statements|
  {
    if statements == [] then d else ExecuteAll(Execute(d, statements[0]), statements[1..])
  }

  // ------------------------------------------------------------------ invariant

  /** No username is another same-realm user's verified address. */
  ghost predicate NamesAvoidAddresses(d: Directory) {
    forall u, e | u in d.users && e in d.emails && d.emails[e].userId != u
                  && d.emails[e].realmId == d.users[u].realmId && d.emails[e].verified ::
      Normal(d.emails[e].email) != Normal(d.users[u].userName)
  }

  ghost predicate NamesDiffer(d: Directory) {
    forall u, v | u in d.users && v in d.users && u != v && d.users[u].realmId == d.users[v].realmId ::
      d.users[u].userName != d.users[v].userName
  }

  ghost predicate AddressesDiffer(d: Directory) {
    forall e, f | e in d.emails && f in d.emails && e != f && d.emails[e].realmId == d.emails[f].realmId
                  && d.emails[e].verified && d.emails[f].verified ::
      Normal(d.emails[e].email) != Normal(d.emails[f].email)
  }

  ghost predicate Consistent(d: Directory) {
    NamesAvoidAddresses(d) && NamesDiffer(d) && AddressesDiffer(d)
  }

  lemma {:induction false} ExecuteKeepsConsistent(d: Directory, s: Statement)
    requires Consistent(d)
    ensures Consistent(Execute(d, s))
  {
  }

  const EMPTY := Directory(map[], map[])

  /** The three rules hold in every state any statements can reach. */
  lemma {:induction false} ReachableIsConsistent(d: Directory, statements: seq<Statement>)
    requires Consistent(d)
    ensures Consistent(ExecuteAll(d, statements))
    decreases |statements|
  {
    if statements != [] {
      ExecuteKeepsConsistent(d, statements[0]);
      ReachableIsConsistent(Execute(d, statements[0]), statements[1..]);
    }
  }

  /** A verified address of the user, compared lowered and trimmed. */
  predicate HoldsAddress(d: Directory, userId: string, realmId: string, identifier: string) {
    exists e | e in d.emails ::
      d.emails[e].realmId == realmId && d.emails[e].userId == userId && d.emails[e].verified
      && Normal(d.emails[e].email) == Normal(identifier)
  }

  /** A user answers to an identifier by exact username or by a verified address. */
  predicate AnswersTo(d: Directory, userId: string, realmId: string, identifier: string) {
    (userId in d.users && d.users[userId].realmId == realmId && d.users[userId].userName == identifier)
    || HoldsAddress(d, userId, realmId, identifier)
  }

  /** From an empty directory, no statements can give two users of a realm the same exact username or verified address. */
  lemma {:induction false} IdentifiersAreUnambiguous(
    statements: seq<Statement>, realmId: string, identifier: string, u: string, v: string
  )
    requires AnswersTo(ExecuteAll(EMPTY, statements), u, realmId, identifier)
    requires AnswersTo(ExecuteAll(EMPTY, statements), v, realmId, identifier)
    ensures u == v
  {
    ReachableIsConsistent(EMPTY, statements);
  }

  // ------------------------------------------------- sign-in, which lowers and trims names

  /** The user a sign-in with the identifier may find: by lowered and trimmed username, or by a verified address. */
  predicate SignsIn(d: Directory, userId: string, realmId: string, identifier: string) {
    (userId in d.users && d.users[userId].realmId == realmId && Normal(d.users[userId].userName) == Normal(identifier))
    || HoldsAddress(d, userId, realmId, identifier)
  }

  ghost predicate SignInIsUnambiguous(d: Directory) {
    forall u, v, realmId, identifier | SignsIn(d, u, realmId, identifier) && SignsIn(d, v, realmId, identifier) :: u == v
  }

  ghost predicate NormalNamesDiffer(d: Directory) {
    forall u, v | u in d.users && v in d.users && u != v && d.users[u].realmId == d.users[v].realmId ::
      Normal(d.users[u].userName) != Normal(d.users[v].userName)
  }

  /**
   * The unique index compares usernames as they are stored, sign-in does not. So sign-in is
   * unambiguous if and only if no two usernames of a realm differ in case or outer spaces only.
   */
  lemma {:induction false} SignInExactly(d: Directory)
    requires Consistent(d)
    ensures SignInIsUnambiguous(d) <==> NormalNamesDiffer(d)
  {
    if SignInIsUnambiguous(d) {
      forall u, v | u in d.users && v in d.users && u != v && d.users[u].realmId == d.users[v].realmId
        ensures Normal(d.users[u].userName) != Normal(d.users[v].userName)
      {
        var realmId, name := d.users[u].realmId, d.users[u].userName;
        assert SignsIn(d, u, realmId, name);
        assert SignsIn(d, v, realmId, name) ==> u == v;
      }
    }
    if NormalNamesDiffer(d) {
      forall u, v, realmId, identifier | SignsIn(d, u, realmId, identifier) && SignsIn(d, v, realmId, identifier)
        ensures u == v
      {
      }
    }
  }

  /** Another user of the realm has the row's username, but for case and outer spaces. */
  predicate NameIsTaken(d: Directory, id: string, user: User) {
    exists v | v in d.users && v != id ::
      d.users[v].realmId == user.realmId && Normal(d.users[v].userName) == Normal(user.userName)
  }

  predicate TakesName(d: Directory, s: Statement) {
    match s
    case InsertUser(id, user) => NameIsTaken(d, id, user)
    case UpdateUser(id, user, _) => NameIsTaken(d, id, user)
    case _ => false
  }

  /** Of all statements, exactly one that is carried out and writes such a username makes sign-in ambiguous. */
  lemma {:induction false} StatementKeepsSignInExactly(d: Directory, s: Statement)
    requires Consistent(d) && SignInIsUnambiguous(d)
    ensures SignInIsUnambiguous(Execute(d, s)) <==> Execute(d, s) == d || !TakesName(d, s)
  {
    var after := Execute(d, s);
    ExecuteKeepsConsistent(d, s);
    SignInExactly(d);
    SignInExactly(after);
    if after != d && (s.InsertUser? || s.UpdateUser?) { WrittenNameDecides(d, s.id, s.user); }
  }

  lemma {:induction false} WrittenNameDecides(d: Directory, id: string, user: User)
    requires NormalNamesDiffer(d)
    ensures NormalNamesDiffer(d.(users := d.users[id := user])) <==> !NameIsTaken(d, id, user)
  {
    var after := d.users[id := user];
    if v :| v in d.users && v != id && d.users[v].realmId == user.realmId && Normal(d.users[v].userName) == Normal(user.userName) {
      assert after[v] == d.users[v] && after[id] == user;
    }
  }

  /** Usernames are written lowered and trimmed, as the repository does before it stores them. */
  predicate WritesNormalName(s: Statement) {
    (s.InsertUser? || s.UpdateUser?) ==> Normal(s.user.userName) == s.user.userName
  }

  ghost predicate NamesAreNormal(d: Directory) {
    forall u | u in d.users :: Normal(d.users[u].userName) == d.users[u].userName
  }

  lemma {:induction false} NormalNamesStay(d: Directory, statements: seq<Statement>)
    requires NamesAreNormal(d) && forall s | s in statements :: WritesNormalName(s)
    ensures NamesAreNormal(ExecuteAll(d, statements))
    decreases |statements|
  {
    if statements != [] {
      assert WritesNormalName(statements[0]);
      NormalNamesStay(Execute(d, statements[0]), statements[1..]);
    }
  }

  /** While usernames are stored so, no statements can make sign-in ambiguous. */
  lemma {:induction false} NormalNamesSignInUnambiguously(statements: seq<Statement>)
    requires forall s | s in statements :: WritesNormalName(s)
    ensures SignInIsUnambiguous(ExecuteAll(EMPTY, statements))
  {
    ReachableIsConsistent(EMPTY, statements);
    NormalNamesStay(EMPTY, statements);
    SignInExactly(ExecuteAll(EMPTY, statements));
  }

  const UPPER := User("r", "Ada", "a@x", false)
  const LOWER := User("r", "ada", "b@x", false)

  lemma {:induction false} TwoStatements(d: Directory, s: Statement, t: Statement)
    ensures ExecuteAll(d, [s, t]) == Execute(Execute(d, s), t)
  {
    var both := [s, t];
    var rest := both[1..];
    assert rest[0] == t && rest[1..] == [];
    assert ExecuteAll(Execute(Execute(d, s), t), rest[1..]) == Execute(Execute(d, s), t);
  }

  /** Two accepted inserts after which "ada" signs in either user: the unique index sees two names. */
  lemma {:induction false} CaseMakesSignInAmbiguous()
    ensures var d := ExecuteAll(EMPTY, [InsertUser("1", UPPER), InsertUser("2", LOWER)]);
            SignsIn(d, "1", "r", "ada") && SignsIn(d, "2", "r", "ada")
  {
    var first, second := InsertUser("1", UPPER), InsertUser("2", LOWER);
    var one := Directory(map["1" := UPPER], map[]);
    TwoStatements(EMPTY, first, second);
    assert Execute(EMPTY, first) == one;
    assert Execute(one, second).users == map["1" := UPPER, "2" := LOWER];
    assert Lower("Ada") == "ada" && Trim("Ada") == "Ada" && Trim("ada") == "ada";
  }

  // -------------------------------------- the address column of users itself

  /** No username is another same-realm user's verified `users.email`. */
  ghost predicate NamesAvoidAccounts(d: Directory) {
    forall u, v | u in d.users && v in d.users && u != v && d.users[u].realmId == d.users[v].realmId && d.users[v].emailVerified ::
      Normal(d.users[v].email) != Normal(d.users[u].userName)
  }

  /** Every verified account address also stands, verified, in user_emails. */
  ghost predicate Mirrored(d: Directory) {
    forall u | u in d.users && d.users[u].emailVerified ::
      exists e | e in d.emails ::
        d.emails[e].userId == u && d.emails[e].realmId == d.users[u].realmId && d.emails[e].verified
        && Normal(d.emails[e].email) == Normal(d.users[u].email)
  }

  /** Some other account of the realm holds the row's username as its verified `users.email`. */
  predicate NameIsAnAccountAddress(d: Directory, id: string, user: User) {
    exists v | v in d.users && v != id ::
      d.users[v].realmId == user.realmId && d.users[v].emailVerified && Normal(d.users[v].email) == Normal(user.userName)
  }

  /** The statement writes such a row. */
  predicate TakesAccountAddress(d: Directory, s: Statement) {
    match s
    case InsertUser(id, user) => NameIsAnAccountAddress(d, id, user)
    case UpdateUser(id, user, _) => NameIsAnAccountAddress(d, id, user)
    case _ => false
  }

  lemma {:induction false} WrittenUserDecides(d: Directory, id: string, user: User)
    requires NamesAvoidAccounts(d) && ((id in d.users && SameIdentity(d.users[id], user)) || !UserCollides(d, id, user))
    ensures NamesAvoidAccounts(d.(users := d.users[id := user])) <==> !NameIsAnAccountAddress(d, id, user)
  {
    var after := d.users[id := user];
    if v :| v in d.users && v != id && d.users[v].realmId == user.realmId && d.users[v].emailVerified
            && Normal(d.users[v].email) == Normal(user.userName) {
      assert after[v] == d.users[v] && after[id] == user;
    }
  }

  /**
   * The triggers look for a new username in user_emails only. So, of all statements, exactly an
   * insert or update that is carried out and takes another account's verified `users.email` as
   * its username breaks the rule for that column.
   */
  lemma {:induction false} StatementKeepsAccountsExactly(d: Directory, s: Statement)
    requires NamesAvoidAccounts(d)
    ensures NamesAvoidAccounts(Execute(d, s)) <==> Execute(d, s) == d || !TakesAccountAddress(d, s)
  {
    match s
    case InsertUser(id, user) => if Execute(d, s) != d { WrittenUserDecides(d, id, user); }
    case UpdateUser(id, user, _) => if Execute(d, s) != d { WrittenUserDecides(d, id, user); }
    case _ =>
  }

  ghost predicate AlwaysAvoids(d: Directory, statements: seq<Statement>)
    decreases |statements|
  {
    NamesAvoidAccounts(d) && (statements == [] || AlwaysAvoids(Execute(d, statements[0]), statements[1..]))
  }

  predicate NeverTakes(d: Directory, statements: seq<Statement>)
    decreases |statements|
  {
    statements == [] ||
    var next := Execute(d, statements[0]);
    (next == d || !TakesAccountAddress(d, statements[0])) && NeverTakes(next, statements[1..])
  }

  /** Over any run the rule holds throughout if and only if no such statement is carried out. */
  lemma {:induction false} RunKeepsAccountsExactly(d: Directory, statements: seq<Statement>)
    requires NamesAvoidAccounts(d)
    ensures AlwaysAvoids(d, statements) <==> NeverTakes(d, statements)
    decreases |statements|
  {
    if statements != [] {
      var next := Execute(d, statements[0]);
      StatementKeepsAccountsExactly(d, statements[0]);
      if NamesAvoidAccounts(next) { RunKeepsAccountsExactly(next, statements[1..]); }
    }
  }

  const ADA := User("r", "ada", "a@x", true)
  const BOB := User("r", "bob", "b@x", false)
  const BOB_AS_ADA := User("r", "a@x", "b@x", false)

  lemma {:induction false} AdaThen(s: Statement, rest: seq<Statement>)
    ensures ExecuteAll(EMPTY, [InsertUser("1", ADA), s] + rest) == ExecuteAll(Execute(Directory(map["1" := ADA], map[]), s), rest)
  {
    var all := [InsertUser("1", ADA), s] + rest;
    assert all[1..][0] == s && all[1..][1..] == rest;
    assert Execute(EMPTY, all[0]) == Directory(map["1" := ADA], map[]);
  }

  /** Two accepted inserts that break the rule for `users.email`: the second takes the first one's address as its name. */
  lemma {:induction false} InsertBreaksAccounts()
    ensures !NamesAvoidAccounts(ExecuteAll(EMPTY, [InsertUser("1", ADA), InsertUser("2", BOB_AS_ADA)]))
  {
    var one := Directory(map["1" := ADA], map[]);
    var s := InsertUser("2", BOB_AS_ADA);
    AdaThen(s, []);
    assert [InsertUser("1", ADA), s] + [] == [InsertUser("1", ADA), s];
    assert Execute(one, s).users == map["1" := ADA, "2" := BOB_AS_ADA];
    assert ExecuteAll(Execute(one, s), []) == Execute(one, s);
    AddressTaken(Execute(one, s));
  }

  lemma {:induction false} AddressTaken(d: Directory)
    requires d.users == map["1" := ADA, "2" := BOB_AS_ADA]
    ensures !NamesAvoidAccounts(d)
  {
    assert Normal(d.users["1"].email) == Normal(d.users["2"].userName);
  }

  /** An update does the same: an account renamed to another one's address. */
  lemma {:induction false} UpdateBreaksAccounts()
    ensures !NamesAvoidAccounts(ExecuteAll(EMPTY, [InsertUser("1", ADA), InsertUser("2", BOB), UpdateUser("2", BOB_AS_ADA, true)]))
  {
    var one := Directory(map["1" := ADA], map[]);
    var two := Directory(map["1" := ADA, "2" := BOB], map[]);
    var insert, update := InsertUser("2", BOB), UpdateUser("2", BOB_AS_ADA, true);
    AdaThen(insert, [update]);
    assert [InsertUser("1", ADA), insert] + [update] == [InsertUser("1", ADA), insert, update];
    assert Execute(one, insert) == two;
    assert Execute(two, update).users == map["1" := ADA, "2" := BOB_AS_ADA];
    assert [update][1..] == [] && ExecuteAll(two, [update]) == Execute(two, update);
    AddressTaken(Execute(two, update));
  }

  /** While accounts are mirrored in user_emails the checked rule implies the unchecked one. */
  lemma {:induction false} MirroredAccountsAreSafe(d: Directory)
    requires Consistent(d) && Mirrored(d)
    ensures NamesAvoidAccounts(d)
  {
    forall u, v | u in d.users && v in d.users && u != v && d.users[u].realmId == d.users[v].realmId && d.users[v].emailVerified
      ensures Normal(d.users[v].email) != Normal(d.users[u].userName)
    {
      var e :| e in d.emails && d.emails[e].userId == v && d.emails[e].realmId == d.users[v].realmId && d.emails[e].verified
               && Normal(d.emails[e].email) == Normal(d.users[v].email);
    }
  }

  // ------------------------------------------------------- which statements go through

  predicate IsBlank(s: string) {
    forall i | 0 <= i < |s| :: s[i] == ' '
  }

  /** Trimming takes the spaces at both ends and nothing else. */
  lemma {:induction false} TrimExactly(s: string) returns (front: string, back: string)
    ensures s == front + Trim(s) + back && IsBlank(front) && IsBlank(back)
    ensures Trim(s) != "" ==> Trim(s)[0] != ' ' && Trim(s)[|Trim(s)| - 1] != ' '
  {
    front, back := "", "";
    if s != "" && s[0] == ' ' {
      front, back := TrimExactly(s[1..]);
      SpaceInFront(s, front, Trim(s[1..]), back);
      front := " " + front;
    } else if s != "" && s[|s| - 1] == ' ' {
      front, back := TrimExactly(s[..|s| - 1]);
      SpaceAtBack(s, front, Trim(s[..|s| - 1]), back);
      back := back + " ";
    }
  }

  lemma {:induction false} SpaceInFront(s: string, front: string, text: string, back: string)
    requires s != "" && s[0] == ' ' && s[1..] == front + text + back && IsBlank(front)
    ensures s == (" " + front) + text + back && IsBlank(" " + front)
  {
    assert s == [s[0]] + s[1..];
  }

  lemma {:induction false} SpaceAtBack(s: string, front: string, text: string, back: string)
    requires s != "" && s[|s| - 1] == ' ' && s[..|s| - 1] == front + text + back && IsBlank(back)
    ensures s == front + text + (back + " ") && IsBlank(back + " ")
  {
    assert s == s[..|s| - 1] + [s[|s| - 1]];
  }

  /** Lowering changes the letters A to Z, each on its own, and nothing else. */
  lemma {:induction false} LowerAt(s: string, i: nat)
    requires i < |s|
    ensures |Lower(s)| == |s|
    ensures Lower(s)[i] == if 'A' <= s[i] <= 'Z' then (s[i] as int + 'a' as int - 'A' as int) as char else s[i]
  {
    LowerLength(s);
    if i > 0 {
      LowerAt(s[1..], i - 1);
      assert Lower(s)[i] == Lower(s[1..])[i - 1];
    }
  }

  lemma {:induction false} LowerLength(s: string)
    ensures |Lower(s)| == |s|
  {
    if s != "" { LowerLength(s[1..]); }
  }

  /** No other user of the realm has the row's username or address. */
  ghost predicate NoSameUser(d: Directory, id: string, user: User) {
    forall other | other in d.users && other != id && d.users[other].realmId == user.realmId ::
      d.users[other].userName != user.userName && d.users[other].email != user.email
  }

  /** Its username is no other user's verified address, and its own verified address no other user's username. */
  ghost predicate NoCrossing(d: Directory, id: string, user: User) {
    (forall e | e in d.emails && d.emails[e].realmId == user.realmId && d.emails[e].userId != id && d.emails[e].verified ::
       Normal(d.emails[e].email) != Normal(user.userName))
    && (user.emailVerified ==> forall other | other in d.users && other != id && d.users[other].realmId == user.realmId ::
          Normal(d.users[other].userName) != Normal(user.email))
  }

  /** A user is inserted exactly if the id is new, nothing repeats and nothing crosses. */
  lemma {:induction false} InsertUserExactly(d: Directory, id: string, user: User)
    ensures Execute(d, InsertUser(id, user)) ==
            if id !in d.users && NoSameUser(d, id, user) && NoCrossing(d, id, user) then Directory(d.users[id := user], d.emails) else d
  {
  }

  /** An update that neither names nor changes a watched column is checked for repetition only. */
  lemma {:induction false} UpdateUserExactly(d: Directory, id: string, user: User, listed: bool)
    ensures Execute(d, UpdateUser(id, user, listed)) ==
            if id in d.users && NoSameUser(d, id, user)
               && (NoCrossing(d, id, user) || (!listed && d.users[id] == user))
            then Directory(d.users[id := user], d.emails) else d
  {
  }

  /** No other row of the realm has the same verified address, or is the same user's primary one. */
  ghost predicate NoSameEmail(d: Directory, id: string, email: Email) {
    forall other | other in d.emails && other != id && d.emails[other].realmId == email.realmId ::
      !(email.verified && d.emails[other].verified && Normal(d.emails[other].email) == Normal(email.email))
      && !(email.primary && d.emails[other].primary && d.emails[other].userId == email.userId)
  }

  /** A verified address is no other user's username. */
  ghost predicate NoNameCrossing(d: Directory, email: Email) {
    email.verified ==> forall u | u in d.users && u != email.userId && d.users[u].realmId == email.realmId ::
      Normal(d.users[u].userName) != Normal(email.email)
  }

  lemma {:induction false} InsertEmailExactly(d: Directory, id: string, email: Email)
    ensures Execute(d, InsertEmail(id, email)) ==
            if id !in d.emails && email.userId in d.users && NoSameEmail(d, id, email) && NoNameCrossing(d, email)
            then Directory(d.users, d.emails[id := email]) else d
  {
  }

  lemma {:induction false} UpdateEmailExactly(d: Directory, id: string, email: Email, listed: bool)
    ensures Execute(d, UpdateEmail(id, email, listed)) ==
            if id in d.emails && email.userId in d.users && NoSameEmail(d, id, email)
               && (NoNameCrossing(d, email) || (!listed && SameAddress(d.emails[id], email)))
            then Directory(d.users, d.emails[id := email]) else d
  {
  }

  /** Deleting a user takes exactly that user's addresses along; deleting an address takes nothing else. */
  lemma {:induction false} DeletesExactly(d: Directory, id: string)
    ensures var after := Execute(d, DeleteUser(id));
      && after.users == d.users - {id}
      && forall e, email :: (e in after.emails && after.emails[e] == email) <==> e in d.emails && d.emails[e] == email && email.userId != id
    ensures Execute(d, DeleteEmail(id)) == Directory(d.users, d.emails - {id})
  {
  }
}
