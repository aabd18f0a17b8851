/**
 * What the limiter's checks, rows and answers hold, said without the functions that compute them.
 */
module RateLimitRows {
  import opened Text
  import opened Wrappers
  import opened RateLimit
  import opened RateLimitRuns
  import opened RateLimitMany

  // -------------------------------------------------------------------- one request

  predicate InRange(r: Request) {
    0 <= r.now <= 9007199254740991 && 1 <= r.windowMs <= 9007199254740991 && 1 <= r.limit <= 9007199254740991
  }

  /** Exactly the requests out of range are refused; the window is looked at first. */
  lemma {:induction false} RequestErrorExactly(r: Request)
    ensures RequestError(r).None? <==> InRange(r)
    ensures !(0 <= r.now <= 9007199254740991 && 1 <= r.windowMs <= 9007199254740991) ==>
              RequestError(r) == Some("The rate-limit window is invalid.")
    ensures 0 <= r.now <= 9007199254740991 && 1 <= r.windowMs <= 9007199254740991 && !InRange(r) ==>
              RequestError(r) == Some("The rate-limit limit is invalid.")
  {
  }

  /** A row records when its window began and will end, when it was last counted, and how often it was ever written. */
  lemma {:induction false} RowExactly(table: Table, r: Request)
    ensures var row := Upserted(table, r);
      && row.updatedAt == r.now
      && row.version == 1 + (if r.dim in table then table[r.dim].version else 0)
      && (if r.dim in table && r.now < table[r.dim].expiresAt then
            row.count == table[r.dim].count + 1 && row.expiresAt == table[r.dim].expiresAt
            && row.windowStartedAt == table[r.dim].windowStartedAt
          else row.count == 1 && row.expiresAt == r.now + r.windowMs && row.windowStartedAt == r.now)
  {
  }

  /** Every row's window is as long as it should be, and was last counted within it. */
  ghost predicate WindowsHold(table: Table, windowMs: int) {
    forall d | d in table ::
      table[d].expiresAt == table[d].windowStartedAt + windowMs
      && table[d].windowStartedAt <= table[d].updatedAt < table[d].expiresAt && 1 <= table[d].count <= table[d].version
  }

  ghost predicate WrittenUpTo(table: Table, now: int) {
    forall d | d in table :: table[d].updatedAt <= now
  }

  lemma {:induction false} CallKeepsWindows(table: Table, call: Call, cleaning: bool, windowMs: int)
    requires WindowsHold(table, windowMs) && WrittenUpTo(table, call.request.now) && call.request.windowMs == windowMs
    ensures WindowsHold(TableAfter(table, call, cleaning), windowMs)
    ensures WrittenUpTo(TableAfter(table, call, cleaning), call.request.now)
  {
  }

  ghost function TableAfterAll(table: Table, calls: seq<Call>, cleaning: bool): Table
    decreases |calls|
  {
    if calls == [] then table else TableAfterAll(TableAfter(table, calls[0], cleaning), calls[1..], cleaning)
  }

  /** Over any run that uses one window length. */
  lemma {:induction false} RunKeepsWindows(table: Table, calls: seq<Call>, cleaning: bool, windowMs: int)
    requires WindowsHold(table, windowMs) && ClockNeverGoesBack(calls)
    requires calls != [] ==> WrittenUpTo(table, calls[0].request.now)
    requires forall i | 0 <= i < |calls| :: calls[i].request.windowMs == windowMs
    ensures WindowsHold(TableAfterAll(table, calls, cleaning), windowMs)
    decreases |calls|
  {
    if calls != [] {
      CallKeepsWindows(table, calls[0], cleaning, windowMs);
      RunKeepsWindows(TableAfter(table, calls[0], cleaning), calls[1..], cleaning, windowMs);
    }
  }

  // ----------------------------------------------------------------------- clean-up

  predicate EndsFirst(a: Row, d: Dim, b: Row, e: Dim) {
    a.expiresAt < b.expiresAt
    || (a.expiresAt == b.expiresAt && (TextBefore(d.scope, e.scope) || (d.scope == e.scope && TextBefore(d.keyHash, e.keyHash))))
  }

  function Over(table: Table, now: int): set<Dim> {
    set d | d in table && table[d].expiresAt <= now
  }

  lemma {:induction false} KeysLess(table: Table, batch: set<Dim>)
    requires batch <= table.Keys
    ensures (table - batch).Keys == table.Keys - batch && |table - batch| == |table| - |batch|
  {
    assert (table - batch).Keys == table.Keys - batch;
    assert |table - batch| == |(table - batch).Keys| && |table| == |table.Keys|;
  }

  /**
   * Clean-up deletes as many rows as are over, but no more than 32, leaves all others as they are,
   * and keeps of those that are over none that ended before one it deletes.
   */
  lemma {:induction false} CleanupExactly(table: Table, now: int)
    ensures var after := CleanedUp(table, now);
      && after.Keys <= table.Keys && (forall d | d in after :: after[d] == table[d])
      && |table| - |after| == (if |Over(table, now)| <= 32 then |Over(table, now)| else 32)
      && (forall d | d in table && d !in after :: table[d].expiresAt <= now)
      && forall d, e | d in table && d !in after && e in after && table[e].expiresAt <= now :: EndsFirst(table[d], d, table[e], e)
  {
    var batch := OldestBatch(table, Expired(table, now), CLEANUP_BATCH_SIZE);
    OldestBatchFacts(table, Expired(table, now), CLEANUP_BATCH_SIZE);
    KeysLess(table, batch);
    assert Expired(table, now) == Over(table, now);
    forall d, e | d in batch && e in table && e !in batch && table[e].expiresAt <= now
      ensures EndsFirst(table[d], d, table[e], e)
    {
      assert e in Expired(table, now) && Older(table, d, e);
    }
  }

  // ------------------------------------------------------------- several dimensions

  /** The first dimension out of range names the error, and there is one if and only if some dimension is. */
  lemma {:induction false} DimensionsErrorExactly(dims: seq<Dimension>, now: int)
    ensures DimensionsError(dims, now).None? <==> forall i | 0 <= i < |dims| :: InRange(RequestFor(dims[i], now))
    ensures DimensionsError(dims, now).Some? ==>
      exists i | 0 <= i < |dims| ::
        DimensionsError(dims, now) == RequestError(RequestFor(dims[i], now))
        && !InRange(RequestFor(dims[i], now)) && forall j | 0 <= j < i :: InRange(RequestFor(dims[j], now))
  {
    if dims != [] {
      var rest := dims[1..];
      RequestErrorExactly(RequestFor(dims[0], now));
      DimensionsErrorExactly(rest, now);
      assert forall i | 0 <= i < |rest| :: rest[i] == dims[i + 1];
      if InRange(RequestFor(dims[0], now)) && DimensionsError(rest, now).Some? {
        var i :| 0 <= i < |rest| && DimensionsError(rest, now) == RequestError(RequestFor(rest[i], now))
                 && !InRange(RequestFor(rest[i], now)) && forall j | 0 <= j < i :: InRange(RequestFor(rest[j], now));
        assert dims[i + 1] == rest[i] && forall j | 0 < j < i + 1 :: dims[j] == rest[j - 1];
      }
    }
  }

  lemma {:induction false} NoneDeniedExactly(table: Table, dims: seq<Dimension>, now: int)
    requires forall i | 0 <= i < |dims| :: 1 <= dims[i].limit
    ensures DeniedRetries(table, dims, now) == [] <==>
            forall i | 0 <= i < |dims| :: LiveCount(table, dims[i].dim, now) < dims[i].limit
  {
    if dims != [] {
      var rest := dims[1..];
      NoneDeniedExactly(table, rest, now);
      assert forall i | 0 <= i < |rest| :: rest[i] == dims[i + 1];
      assert forall i | 0 < i < |dims| :: dims[i] == rest[i - 1];
    }
  }

  /** A call in range whose check can be read is denied if and only if some key has no room left. */
  lemma {:induction false} DeniedExactly(table: Table, dims: seq<Dimension>, now: int, faults: seq<Fault>)
    requires |faults| == |dims| && dims != [] && forall i | 0 <= i < |dims| :: InRange(RequestFor(dims[i], now))
    ensures var result := ManyResult(table, dims, now, false, faults);
      result.Ok? && !result.data.allowed <==> exists i | 0 <= i < |dims| :: dims[i].limit <= LiveCount(table, dims[i].dim, now)
  {
    DimensionsErrorExactly(dims, now);
    NoneDeniedExactly(table, dims, now);
    if DeniedRetries(table, dims, now) == [] && ManyResult(table, dims, now, false, faults).Ok? {
      CollectedMeansNoFault(table, dims, now, faults);
    }
  }

  /** Why a call that does not come to consume is an error. */
  lemma {:induction false} RefusedExactly(table: Table, dims: seq<Dimension>, now: int, readFails: bool, faults: seq<Fault>)
    requires |faults| == |dims|
    ensures var result := ManyResult(table, dims, now, readFails, faults);
      && (dims == [] ==> result == Err("At least one rate-limit dimension is required."))
      && (dims != [] && DimensionsError(dims, now).Some? ==> result == Err(DimensionsError(dims, now).value))
      && (dims != [] && DimensionsError(dims, now).None? && readFails ==> result == Err("The rate limits could not be checked."))
  {
  }

  lemma {:induction false} LiveEndStays(table: Table, dims: seq<Dimension>, now: int, faults: seq<Fault>, dim: Dim)
    requires |faults| == |dims| && Live(table, dim, now).Some? && DimensionsError(dims, now).None?
    ensures var after := Live(ConsumeAllTable(table, dims, now, faults), dim, now);
            after.Some? && after.value.expiresAt == Live(table, dim, now).value.expiresAt
    decreases |dims|
  {
    if dims != [] {
      var call := Call(RequestFor(dims[0], now), faults[0]);
      StepOnWindows(table, call, true, dim);
      LiveEndStays(TableAfter(table, call, true), dims[1..], now, faults[1..], dim);
    }
  }

  /** Each answer ends with the window that its key is left with. */
  lemma {:induction false} AnswersNameEnds(table: Table, dims: seq<Dimension>, now: int, faults: seq<Fault>, i: nat)
    requires |faults| == |dims| && i < |dims| && DimensionsError(dims, now).None? && NoUpsertFails(faults)
    ensures var result := ConsumeAllResults(table, dims, now, faults)[i];
      var window := Live(ConsumeAllTable(table, dims, now, faults), dims[i].dim, now);
      result.Ok? && window.Some? && result.data.retryAt == window.value.expiresAt
    decreases |dims|
  {
    var call := Call(RequestFor(dims[0], now), faults[0]);
    var next := TableAfter(table, call, true);
    StepOnWindows(table, call, true, dims[0].dim);
    if i == 0 {
      LiveEndStays(next, dims[1..], now, faults[1..], dims[0].dim);
    } else {
      assert forall j | 0 < j < |faults| :: faults[j] == faults[1..][j - 1];
      AnswersNameEnds(next, dims[1..], now, faults[1..], i - 1);
    }
  }

  lemma {:induction false} CollectedLatest(results: seq<Result<Outcome>>)
    requires results != [] && forall i | 0 <= i < |results| :: results[i].Ok?
    ensures Collected(results).Ok? && Collected(results).data.allowed
    ensures exists i | 0 <= i < |results| :: results[i].data.retryAt == Collected(results).data.retryAt
    ensures forall i | 0 <= i < |results| :: results[i].data.retryAt <= Collected(results).data.retryAt
  {
    if |results| > 1 {
      var rest := results[1..];
      CollectedLatest(rest);
      assert forall i | 0 < i < |results| :: results[i] == rest[i - 1];
      var i :| 0 <= i < |rest| && rest[i].data.retryAt == Collected(rest).data.retryAt;
      assert results[i + 1].data.retryAt == Collected(rest).data.retryAt;
    }
  }

  /** The end of the window that a key is left with. */
  ghost predicate EndsAt(table: Table, dim: Dim, now: int, end: int) {
    Live(table, dim, now).Some? && Live(table, dim, now).value.expiresAt == end
  }

  ghost predicate EndsBy(table: Table, dim: Dim, now: int, latest: int) {
    Live(table, dim, now).Some? && Live(table, dim, now).value.expiresAt <= latest
  }

  /** A grant says when the last of the windows it has counted in will end. */
  lemma {:induction false} GrantNamesLatestEnd(table: Table, dims: seq<Dimension>, now: int, faults: seq<Fault>)
    requires |faults| == |dims| && ManyResult(table, dims, now, false, faults).Ok?
    requires ManyResult(table, dims, now, false, faults).data.allowed
    ensures var after, retryAt := ManyTable(table, dims, now, false, faults), ManyResult(table, dims, now, false, faults).data.retryAt;
      && (forall i | 0 <= i < |dims| :: EndsBy(after, dims[i].dim, now, retryAt))
      && exists i | 0 <= i < |dims| :: EndsAt(after, dims[i].dim, now, retryAt)
  {
    var results := ConsumeAllResults(table, dims, now, faults);
    CollectedMeansNoFault(table, dims, now, faults);
    forall i | 0 <= i < |dims|
      ensures results[i].Ok? && EndsAt(ManyTable(table, dims, now, false, faults), dims[i].dim, now, results[i].data.retryAt)
    {
      AnswersNameEnds(table, dims, now, faults, i);
    }
    CollectedLatest(results);
  }

  /** A call out of range answers with its own error, a failed upsert with another, and nothing else with one. */
  lemma {:induction false} ConsumeErrorExactly(table: Table, r: Request, fault: Fault)
    ensures var result := ConsumeResult(table, r, fault);
      && (result.Err? <==> !InRange(r) || fault.upsert)
      && (!InRange(r) ==> result == Err(RequestError(r).value))
      && (InRange(r) && fault.upsert ==> result == Err("The rate limit could not be updated."))
  {
    RequestErrorExactly(r);
  }

  /** Of several failed consumptions the first gives the error. */
  lemma {:induction false} FirstErrorIsKept(results: seq<Result<Outcome>>, i: nat)
    requires i < |results| && results[i].Err? && forall j | 0 <= j < i :: results[j].Ok?
    ensures Collected(results) == Err(results[i].message)
  {
    if i > 0 {
      assert results[1..][i - 1] == results[i] && forall j | 0 <= j < i - 1 :: results[1..][j] == results[j + 1];
      FirstErrorIsKept(results[1..], i - 1);
    }
  }
}
