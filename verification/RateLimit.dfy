/**
 * The fixed-window rate limiter: a table of windows updated by upsert, with a
 * bounded clean-up of expired rows after each call. Database failures are
 * parameters of each call; a failed statement changes nothing.
 */
module RateLimit {
  import opened Text
  import opened Numbers
  import opened Wrappers

  const CLEANUP_BATCH_SIZE := 32
  /** The table's primary key. */
  datatype Dim = Dim(scope: string, keyHash: string)

  datatype Row = Row(count: int, expiresAt: int, updatedAt: int, version: int, windowStartedAt: int)

  type Table = map<Dim, Row>

  datatype Request = Request(dim: Dim, limit: int, windowMs: int, now: int)

  datatype Outcome = Outcome(allowed: bool, count: int, retryAt: int)

  /** Which of a call's two statements the database refuses. */
  datatype Fault = Fault(upsert: bool, cleanup: bool)

  predicate IsSafeInteger(n: int) {
    -MAX_SAFE_INTEGER <= n <= MAX_SAFE_INTEGER
  }

  function RequestError(r: Request): Option<string> {
    if !IsSafeInteger(r.now) || r.now < 0 || !IsSafeInteger(r.windowMs) || r.windowMs < 1
    then Some("The rate-limit window is invalid.")
    else if !IsSafeInteger(r.limit) || r.limit < 1 then Some("The rate-limit limit is invalid.")
    else None
  }

  // ------------------------------------------------------------------ clean-up

  /** ORDER BY expires_at, scope, key_hash */
  predicate Older(table: Table, d: Dim, e: Dim)
    requires d in table && e in table
  {
    table[d].expiresAt < table[e].expiresAt
    || (table[d].expiresAt == table[e].expiresAt
        && (TextBefore(d.scope, e.scope) || (d.scope == e.scope && TextBefore(d.keyHash, e.keyHash))))
  }

  lemma {:induction false} OlderIsTotal(table: Table, d: Dim, e: Dim)
    requires d in table && e in table
    ensures d != e ==> (Older(table, d, e) <==> !Older(table, e, d))
    ensures !Older(table, d, d)
  {
    TextOrder(d.scope, e.scope);
    TextOrder(d.keyHash, e.keyHash);
    TextOrder(d.scope, d.scope);
    TextOrder(d.keyHash, d.keyHash);
  }

  lemma {:induction false} OlderIsTransitive(table: Table, c: Dim, d: Dim, e: Dim)
    requires c in table && d in table && e in table && Older(table, c, d) && Older(table, d, e)
    ensures Older(table, c, e)
  {
    if TextBefore(c.scope, d.scope) && TextBefore(d.scope, e.scope) { TextTransitive(c.scope, d.scope, e.scope); }
    if TextBefore(c.keyHash, d.keyHash) && TextBefore(d.keyHash, e.keyHash) {
      TextTransitive(c.keyHash, d.keyHash, e.keyHash);
    }
  }

  predicate IsOldest(table: Table, candidates: set<Dim>, d: Dim)
    requires candidates <= table.Keys
  {
    d in candidates && forall e {:trigger Older(table, d, e)} | e in candidates && e != d :: Older(table, d, e)
  }

  lemma {:induction false} OldestExists(table: Table, candidates: set<Dim>)
    requires candidates <= table.Keys && candidates != {}
    ensures exists d :: IsOldest(table, candidates, d)
    decreases |candidates|
  {
    var c :| c in candidates;
    var rest := candidates - {c};
    if rest == {} {
      assert candidates == {c};
      assert IsOldest(table, candidates, c);
    } else {
      OldestExists(table, rest);
      var d :| IsOldest(table, rest, d);
      OlderIsTotal(table, c, d);
      var oldest := if Older(table, c, d) then c else d;
      forall e | e in candidates && e != oldest
        ensures Older(table, oldest, e)
      {
        if oldest == c && e != d { OlderIsTransitive(table, c, d, e); }
      }
      assert IsOldest(table, candidates, oldest);
    }
  }

  ghost function Oldest(table: Table, candidates: set<Dim>): (d: Dim)
    requires candidates <= table.Keys && candidates != {}
    ensures IsOldest(table, candidates, d)
  {
    OldestExists(table, candidates);
    var d :| IsOldest(table, candidates, d);
    d
  }

  function Expired(table: Table, now: int): set<Dim> {
    set d | d in table && table[d].expiresAt <= now
  }

  /** The rows a clean-up deletes: the first of the candidates in order, up to the limit. */
  ghost function OldestBatch(table: Table, candidates: set<Dim>, limit: nat): (batch: set<Dim>)
    requires candidates <= table.Keys
    ensures batch <= candidates
    decreases limit
  {
    if limit == 0 || candidates == {} then {}
    else
      var d := Oldest(table, candidates);
      {d} + OldestBatch(table, candidates - {d}, limit - 1)
  }

  /** One step of the batch, the ordering of rows aside. */
  lemma {:induction false} BatchStep(table: Table, candidates: set<Dim>, limit: nat, first: Dim, later: set<Dim>)
    requires candidates <= table.Keys && limit > 0 && candidates != {}
    requires first == Oldest(table, candidates) && later == OldestBatch(table, candidates - {first}, limit - 1)
    ensures OldestBatch(table, candidates, limit) == {first} + later && first in candidates && first !in later
  {
  }

  lemma {:induction false} OneMore(all: set<Dim>, first: Dim, later: set<Dim>)
    requires first in all && first !in later
    ensures |all - {first}| == |all| - 1 && |{first} + later| == 1 + |later|
  {
  }

  lemma {:induction false} OldestBatchSize(table: Table, candidates: set<Dim>, limit: nat)
    requires candidates <= table.Keys
    ensures |OldestBatch(table, candidates, limit)| == if |candidates| <= limit then |candidates| else limit
    decreases limit
  {
    if limit > 0 && candidates != {} {
      var first := Oldest(table, candidates);
      var later := OldestBatch(table, candidates - {first}, limit - 1);
      OldestBatchSize(table, candidates - {first}, limit - 1);
      BatchStep(table, candidates, limit, first, later);
      OneMore(candidates, first, later);
    }
  }

  ghost predicate TakesOldest(table: Table, candidates: set<Dim>, batch: set<Dim>)
    requires batch <= candidates <= table.Keys
  {
    forall d, e {:trigger Older(table, d, e)} | d in batch && e in candidates && e !in batch :: Older(table, d, e)
  }

  lemma {:induction false} TakesOldestStep(table: Table, candidates: set<Dim>, first: Dim, later: set<Dim>)
    requires candidates <= table.Keys && IsOldest(table, candidates, first) && later <= candidates - {first}
    requires TakesOldest(table, candidates - {first}, later)
    ensures TakesOldest(table, candidates, {first} + later)
  {
  }

  /** The batch is bounded, is full whenever enough rows are expired, and takes the oldest. */
  lemma {:induction false} OldestBatchFacts(table: Table, candidates: set<Dim>, limit: nat)
    requires candidates <= table.Keys
    ensures |OldestBatch(table, candidates, limit)| == if |candidates| <= limit then |candidates| else limit
    ensures TakesOldest(table, candidates, OldestBatch(table, candidates, limit))
    decreases limit
  {
    OldestBatchSize(table, candidates, limit);
    if limit > 0 && candidates != {} {
      var first := Oldest(table, candidates);
      var later := OldestBatch(table, candidates - {first}, limit - 1);
      OldestBatchFacts(table, candidates - {first}, limit - 1);
      BatchStep(table, candidates, limit, first, later);
      TakesOldestStep(table, candidates, first, later);
    }
  }

  ghost function CleanedUp(table: Table, now: int): Table {
    table - OldestBatch(table, Expired(table, now), CLEANUP_BATCH_SIZE)
  }

  // ------------------------------------------------------------- one request

  /** The row that `INSERT ... ON CONFLICT DO UPDATE` leaves for the request's key. */
  function Upserted(table: Table, r: Request): Row {
    if r.dim !in table then Row(1, r.now + r.windowMs, r.now, 1, r.now)
    else
      var row := table[r.dim];
      var sameWindow := row.expiresAt > r.now;
      Row(if sameWindow then row.count + 1 else 1,
          if sameWindow then row.expiresAt else r.now + r.windowMs,
          r.now,
          row.version + 1,
          if sameWindow then row.windowStartedAt else r.now)
  }

  function Consumes(r: Request, fault: Fault): bool {
    RequestError(r).None? && !fault.upsert
  }

  function ConsumeResult(table: Table, r: Request, fault: Fault): Result<Outcome> {
    if RequestError(r).Some? then Err(RequestError(r).value)
    else if fault.upsert then Err("The rate limit could not be updated.")
    else
      var row := Upserted(table, r);
      Ok(Outcome(row.count <= r.limit, row.count, row.expiresAt))
  }

  /** The table after a request; `cleaning` is off for the reference limiter that never deletes. */
  ghost function ConsumeTable(table: Table, r: Request, fault: Fault, cleaning: bool): Table {
    if !Consumes(r, fault) then table
    else
      var updated := table[r.dim := Upserted(table, r)];
      if cleaning && !fault.cleanup then CleanedUp(updated, r.now) else updated
  }

  // --------------------------------------------- several dimensions at once

  datatype Dimension = Dimension(dim: Dim, limit: int, windowMs: int)

  datatype Verdict = Verdict(allowed: bool, retryAt: int)

  function RequestFor(d: Dimension, now: int): Request {
    Request(d.dim, d.limit, d.windowMs, now)
  }

  /** The first dimension that is out of range decides the error. */
  function DimensionsError(dims: seq<Dimension>, now: int): Option<string> {
    if dims == [] then None
    else
      var first := RequestError(RequestFor(dims[0], now));
      if first.Some? then first else DimensionsError(dims[1..], now)
  }

  function DimensionCheck(table: Table, d: Dimension, now: int): Verdict {
    if d.dim !in table || table[d.dim].expiresAt <= now then Verdict(true, now + d.windowMs)
    else Verdict(table[d.dim].count + 1 <= d.limit, table[d.dim].expiresAt)
  }

  /** The expiries of the dimensions that have no room. */
  function DeniedRetries(table: Table, dims: seq<Dimension>, now: int): seq<int> {
    if dims == [] then []
    else
      var v := DimensionCheck(table, dims[0], now);
      (if v.allowed then [] else [v.retryAt]) + DeniedRetries(table, dims[1..], now)
  }

  function MaxOf(values: seq<int>): (max: int)
    requires values != []
    ensures max in values && forall value | value in values :: value <= max
  {
    if |values| == 1 then values[0]
    else
      assert values == [values[0]] + values[1..];
      var rest := MaxOf(values[1..]);
      if values[0] < rest then rest else values[0]
  }

  ghost function ConsumeAllTable(table: Table, dims: seq<Dimension>, now: int, faults: seq<Fault>): Table
    requires |faults| == |dims|
    decreases |dims|
  {
    if dims == [] then table
    else ConsumeAllTable(ConsumeTable(table, RequestFor(dims[0], now), faults[0], true), dims[1..], now, faults[1..])
  }

  ghost function ConsumeAllResults(table: Table, dims: seq<Dimension>, now: int, faults: seq<Fault>): (all: seq<Result<Outcome>>)
    requires |faults| == |dims|
    ensures |all| == |dims|
    decreases |dims|
  {
    if dims == [] then []
    else [ConsumeResult(table, RequestFor(dims[0], now), faults[0])]
         + ConsumeAllResults(ConsumeTable(table, RequestFor(dims[0], now), faults[0], true), dims[1..], now, faults[1..])
  }

  lemma {:induction false} ConsumeNext(table: Table, dims: seq<Dimension>, now: int, faults: seq<Fault>, i: nat)
    requires |faults| == |dims| && i < |dims|
    ensures var after := ConsumeTable(table, RequestFor(dims[i], now), faults[i], true);
      && ConsumeAllTable(table, dims[i..], now, faults[i..]) == ConsumeAllTable(after, dims[i + 1..], now, faults[i + 1..])
      && ConsumeAllResults(table, dims[i..], now, faults[i..])
         == [ConsumeResult(table, RequestFor(dims[i], now), faults[i])] + ConsumeAllResults(after, dims[i + 1..], now, faults[i + 1..])
  {
    assert dims[i..][1..] == dims[i + 1..] && faults[i..][1..] == faults[i + 1..];
  }

  /** The first failed consumption, or the latest expiry of all. */
  function Collected(results: seq<Result<Outcome>>): Result<Verdict>
    requires results != []
  {
    match results[0]
    case Err(message) => Err(message)
    case Ok(outcome) =>
      if |results| == 1 then Ok(Verdict(true, outcome.retryAt))
      else match Collected(results[1..])
        case Err(message) => Err(message)
        case Ok(rest) => Ok(Verdict(true, if outcome.retryAt < rest.retryAt then rest.retryAt else outcome.retryAt))
  }

  ghost predicate ManyConsumes(table: Table, dims: seq<Dimension>, now: int, readFails: bool) {
    dims != [] && DimensionsError(dims, now).None? && !readFails && DeniedRetries(table, dims, now) == []
  }

  ghost function ManyTable(table: Table, dims: seq<Dimension>, now: int, readFails: bool, faults: seq<Fault>): Table
    requires |faults| == |dims|
  {
    if ManyConsumes(table, dims, now, readFails) then ConsumeAllTable(table, dims, now, faults) else table
  }

  ghost function ManyResult(table: Table, dims: seq<Dimension>, now: int, readFails: bool, faults: seq<Fault>): Result<Verdict>
    requires |faults| == |dims|
  {
    if dims == [] then Err("At least one rate-limit dimension is required.")
    else if DimensionsError(dims, now).Some? then Err(DimensionsError(dims, now).value)
    else if readFails then Err("The rate limits could not be checked.")
    else if DeniedRetries(table, dims, now) != [] then Ok(Verdict(false, MaxOf(DeniedRetries(table, dims, now))))
    else Collected(ConsumeAllResults(table, dims, now, faults))
  }

  /** The check: the expiries of the dimensions that have no room, one after another. */
  method DimensionsCheck(table: Table, dims: seq<Dimension>, now: int) returns (denied: seq<int>)
    ensures denied == DeniedRetries(table, dims, now)
  {
    denied := [];
    ghost var rest := DeniedRetries(table, dims, now);
    for i := 0 to |dims|
      invariant rest == DeniedRetries(table, dims[i..], now)
      invariant denied + rest == DeniedRetries(table, dims, now)
    {
      assert dims[i..][0] == dims[i] && dims[i..][1..] == dims[i + 1..];
      ghost var after := DeniedRetries(table, dims[i + 1..], now);
      var checked := DimensionCheck(table, dims[i], now);
      if checked.allowed {
        assert rest == [] + after == after;
      } else {
        assert rest == [checked.retryAt] + after;
        assert (denied + [checked.retryAt]) + after == denied + ([checked.retryAt] + after);
        denied := denied + [checked.retryAt];
      }
      rest := after;
    }
    assert denied + [] == denied;
  }

  class Store {
    var rows: Table

    method Consume(r: Request, fault: Fault) returns (result: Result<Outcome>)
      modifies this
      ensures rows == ConsumeTable(old(rows), r, fault, true)
      ensures result == ConsumeResult(old(rows), r, fault)
    {
      var error := RequestError(r);
      if error.Some? {
        return Err(error.value);
      }
      if fault.upsert {
        return Err("The rate limit could not be updated.");
      }
      var row := Upserted(rows, r);
      rows := rows[r.dim := row];
      ExpiredRowsCleanup(r.now, fault.cleanup);
      return Ok(Outcome(row.count <= r.limit, row.count, row.expiresAt));
    }

    /**
     * Check every dimension, then consume every dimension. `faults` says which statements of
     * each consumption fail; `readFails` that a check could not be read.
     */
    method ConsumeMany(dims: seq<Dimension>, now: int, readFails: bool, faults: seq<Fault>) returns (result: Result<Verdict>)
      requires |faults| == |dims|
      modifies this
      ensures rows == ManyTable(old(rows), dims, now, readFails, faults)
      ensures result == ManyResult(old(rows), dims, now, readFails, faults)
    {
      if |dims| == 0 {
        return Err("At least one rate-limit dimension is required.");
      }
      for i := 0 to |dims|
        invariant rows == old(rows) && DimensionsError(dims, now) == DimensionsError(dims[i..], now)
      {
        var error := RequestError(RequestFor(dims[i], now));
        if error.Some? {
          return Err(error.value);
        }
      }
      if readFails {
        return Err("The rate limits could not be checked.");
      }
      var denied := DimensionsCheck(rows, dims, now);
      if denied != [] {
        return Ok(Verdict(false, MaxOf(denied)));
      }
      var consumed := DimensionsConsume(dims, now, faults);
      return Collected(consumed);
    }

    /** One consumption for each dimension, whatever the earlier ones answer. */
    method DimensionsConsume(dims: seq<Dimension>, now: int, faults: seq<Fault>) returns (consumed: seq<Result<Outcome>>)
      requires |faults| == |dims|
      modifies this
      ensures rows == ConsumeAllTable(old(rows), dims, now, faults)
      ensures consumed == ConsumeAllResults(old(rows), dims, now, faults)
    {
      consumed := [];
      ghost var rest := ConsumeAllResults(rows, dims, now, faults);
      for i := 0 to |dims|
        invariant ConsumeAllTable(rows, dims[i..], now, faults[i..]) == ConsumeAllTable(old(rows), dims, now, faults)
        invariant rest == ConsumeAllResults(rows, dims[i..], now, faults[i..])
        invariant consumed + rest == ConsumeAllResults(old(rows), dims, now, faults)
      {
        ConsumeNext(rows, dims, now, faults, i);
        ghost var after := rest[1..];
        var one := Consume(RequestFor(dims[i], now), faults[i]);
        assert rest == [one] + after;
        assert (consumed + [one]) + after == consumed + ([one] + after);
        consumed, rest := consumed + [one], after;
      }
      assert consumed + [] == consumed;
    }

    /** DELETE the first 32 expired rows; a failure is swallowed. */
    method ExpiredRowsCleanup(now: int, fails: bool)
      modifies this
      ensures rows == if fails then old(rows) else CleanedUp(old(rows), now)
    {
      if fails {
        return;
      }
      var batch: set<Dim> := {};
      var left := Expired(rows, now);
      for taken := 0 to CLEANUP_BATCH_SIZE
        invariant rows == old(rows) && left <= rows.Keys
        invariant batch + OldestBatch(rows, left, CLEANUP_BATCH_SIZE - taken)
               == OldestBatch(rows, Expired(rows, now), CLEANUP_BATCH_SIZE)
      {
        if left == {} {
          break;
        }
        OldestExists(rows, left);
        var d :| IsOldest(rows, left, d);
        OldestIsUnique(rows, left, d, Oldest(rows, left));
        assert OldestBatch(rows, left, CLEANUP_BATCH_SIZE - taken)
            == {d} + OldestBatch(rows, left - {d}, CLEANUP_BATCH_SIZE - taken - 1);
        batch := batch + {d};
        left := left - {d};
      }
      rows := rows - batch;
    }
  }

  lemma {:induction false} OldestIsUnique(table: Table, candidates: set<Dim>, d: Dim, e: Dim)
    requires candidates <= table.Keys && IsOldest(table, candidates, d) && IsOldest(table, candidates, e)
    ensures d == e
  {
    OlderIsTotal(table, d, e);
  }
}
