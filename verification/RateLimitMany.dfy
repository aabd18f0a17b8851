/**
 * All-or-nothing consumption over several dimensions, and when a denied caller
 * may come back.
 */
module RateLimitMany {
  import opened Wrappers
  import opened RateLimit
  import opened RateLimitRuns

  /** How often a key occurs among the dimensions. */
  function Multiplicity(dim: Dim, dims: seq<Dimension>): nat {
    if dims == [] then 0 else (if dims[0].dim == dim then 1 else 0) + Multiplicity(dim, dims[1..])
  }

  function LiveCount(table: Table, dim: Dim, now: int): int {
    match Live(table, dim, now)
    case Some(w) => w.count
    case None => 0
  }

  predicate NoUpsertFails(faults: seq<Fault>) {
    forall i | 0 <= i < |faults| :: !faults[i].upsert
  }

  /** How often a key occurs among the dimensions whose upsert does not fail. */
  function Listings(dim: Dim, dims: seq<Dimension>, faults: seq<Fault>): nat
    requires |faults| == |dims|
  {
    if dims == [] then 0
    else (if dims[0].dim == dim && !faults[0].upsert then 1 else 0) + Listings(dim, dims[1..], faults[1..])
  }

  lemma {:induction false} ListingsWithoutFaults(dim: Dim, dims: seq<Dimension>, faults: seq<Fault>)
    requires |faults| == |dims| && NoUpsertFails(faults)
    ensures Listings(dim, dims, faults) == Multiplicity(dim, dims)
  {
    if dims != [] { ListingsWithoutFaults(dim, dims[1..], faults[1..]); }
  }

  lemma {:induction false} ListedMeansCounted(dims: seq<Dimension>, faults: seq<Fault>, i: nat)
    requires |faults| == |dims| && i < |dims| && !faults[i].upsert
    ensures Listings(dims[i].dim, dims, faults) >= 1
  {
    if i > 0 { ListedMeansCounted(dims[1..], faults[1..], i - 1); }
  }

  lemma {:induction false} ConsumeAllCounts(table: Table, dims: seq<Dimension>, now: int, faults: seq<Fault>, dim: Dim)
    requires |faults| == |dims| && DimensionsError(dims, now).None?
    ensures var after := ConsumeAllTable(table, dims, now, faults);
      && (Listings(dim, dims, faults) == 0 ==> Live(after, dim, now) == Live(table, dim, now))
      && LiveCount(after, dim, now) == LiveCount(table, dim, now) + Listings(dim, dims, faults)
    decreases |dims|
  {
    if dims != [] {
      var call := Call(RequestFor(dims[0], now), faults[0]);
      StepOnWindows(table, call, true, dim);
      ConsumeAllCounts(TableAfter(table, call, true), dims[1..], now, faults[1..], dim);
    }
  }

  lemma {:induction false} AllFailedLeavesTable(table: Table, dims: seq<Dimension>, now: int, faults: seq<Fault>)
    requires |faults| == |dims| && forall i | 0 <= i < |faults| :: faults[i].upsert
    ensures ConsumeAllTable(table, dims, now, faults) == table
    decreases |dims|
  {
    if dims != [] { AllFailedLeavesTable(table, dims[1..], now, faults[1..]); }
  }

  lemma {:induction false} NoDenialMeansRoom(table: Table, dims: seq<Dimension>, now: int, i: nat)
    requires i < |dims| && DimensionsError(dims, now).None? && DeniedRetries(table, dims, now) == []
    ensures LiveCount(table, dims[i].dim, now) + 1 <= dims[i].limit
  {
    if i > 0 { NoDenialMeansRoom(table, dims[1..], now, i - 1); }
  }

  lemma {:induction false} CollectedMeansNoFault(table: Table, dims: seq<Dimension>, now: int, faults: seq<Fault>)
    requires |faults| == |dims| && dims != [] && Collected(ConsumeAllResults(table, dims, now, faults)).Ok?
    ensures NoUpsertFails(faults)
    ensures Collected(ConsumeAllResults(table, dims, now, faults)).data.allowed
    decreases |dims|
  {
    var results := ConsumeAllResults(table, dims, now, faults);
    assert results[0] == ConsumeResult(table, RequestFor(dims[0], now), faults[0]);
    if |dims| > 1 {
      CollectedMeansNoFault(ConsumeTable(table, RequestFor(dims[0], now), faults[0], true), dims[1..], now, faults[1..]);
      assert forall i | 0 < i < |faults| :: faults[i] == faults[1..][i - 1];
    }
  }

  lemma {:induction false} NoFaultMeansCollected(table: Table, dims: seq<Dimension>, now: int, faults: seq<Fault>)
    requires |faults| == |dims| && dims != [] && NoUpsertFails(faults) && DimensionsError(dims, now).None?
    ensures Collected(ConsumeAllResults(table, dims, now, faults)).Ok?
    ensures Collected(ConsumeAllResults(table, dims, now, faults)).data.allowed
    decreases |dims|
  {
    if |dims| > 1 {
      NoFaultMeansCollected(ConsumeTable(table, RequestFor(dims[0], now), faults[0], true), dims[1..], now, faults[1..]);
    }
  }

  lemma {:induction false} NotListed(dim: Dim, dims: seq<Dimension>)
    requires forall i | 0 <= i < |dims| :: dims[i].dim != dim
    ensures Multiplicity(dim, dims) == 0
  {
    if dims != [] { NotListed(dim, dims[1..]); }
  }

  lemma {:induction false} ListedOnce(dims: seq<Dimension>, i: nat)
    requires i < |dims|
    requires forall j, k | 0 <= j < k < |dims| :: dims[j].dim != dims[k].dim
    ensures Multiplicity(dims[i].dim, dims) == 1
  {
    if i == 0 { NotListed(dims[0].dim, dims[1..]); } else { ListedOnce(dims[1..], i - 1); }
  }

  /**
   * What any call leaves, whatever it answers: nothing at all unless it came to consume, and then
   * each key counted once for each listing whose upsert went through, despite the clean-ups.
   */
  lemma {:induction false} CallCounts(
    table: Table, dims: seq<Dimension>, now: int, readFails: bool, faults: seq<Fault>, dim: Dim
  )
    requires |faults| == |dims|
    ensures var after := ManyTable(table, dims, now, readFails, faults);
      if ManyConsumes(table, dims, now, readFails) then
        && LiveCount(after, dim, now) == LiveCount(table, dim, now) + Listings(dim, dims, faults)
        && (Listings(dim, dims, faults) == 0 ==> Live(after, dim, now) == Live(table, dim, now))
      else after == table
  {
    if ManyConsumes(table, dims, now, readFails) { ConsumeAllCounts(table, dims, now, faults, dim); }
  }

  /**
   * A denial leaves the whole table alone. A grant counts every key once for each time it is
   * listed, and leaves every other live window alone.
   */
  lemma {:induction false} AllOrNothing(
    table: Table, dims: seq<Dimension>, now: int, readFails: bool, faults: seq<Fault>, dim: Dim
  )
    requires |faults| == |dims| && ManyResult(table, dims, now, readFails, faults).Ok?
    ensures var after := ManyTable(table, dims, now, readFails, faults);
      if ManyResult(table, dims, now, readFails, faults).data.allowed then
        && LiveCount(after, dim, now) == LiveCount(table, dim, now) + Multiplicity(dim, dims)
        && (Multiplicity(dim, dims) == 0 ==> Live(after, dim, now) == Live(table, dim, now))
      else after == table
  {
    CallCounts(table, dims, now, readFails, faults, dim);
    if ManyConsumes(table, dims, now, readFails) {
      CollectedMeansNoFault(table, dims, now, faults);
      ListingsWithoutFaults(dim, dims, faults);
    }
  }

  /** A call that comes to consume answers with an error exactly when some upsert fails. */
  lemma {:induction false} ErrorMeansFault(table: Table, dims: seq<Dimension>, now: int, readFails: bool, faults: seq<Fault>)
    requires |faults| == |dims| && ManyConsumes(table, dims, now, readFails)
    ensures ManyResult(table, dims, now, readFails, faults).Err? <==> !NoUpsertFails(faults)
  {
    if NoUpsertFails(faults) {
      NoFaultMeansCollected(table, dims, now, faults);
    } else if ManyResult(table, dims, now, readFails, faults).Ok? {
      CollectedMeansNoFault(table, dims, now, faults);
    }
  }

  /** An error is not all-or-nothing: it leaves the table alone if and only if nothing was consumed before or after it. */
  lemma {:induction false} ErrorLeavesTableExactly(
    table: Table, dims: seq<Dimension>, now: int, readFails: bool, faults: seq<Fault>
  )
    requires |faults| == |dims| && ManyResult(table, dims, now, readFails, faults).Err?
    ensures ManyTable(table, dims, now, readFails, faults) == table <==>
            !ManyConsumes(table, dims, now, readFails) || forall i | 0 <= i < |faults| :: faults[i].upsert
  {
    if ManyConsumes(table, dims, now, readFails) {
      if i :| 0 <= i < |faults| && !faults[i].upsert {
        CallCounts(table, dims, now, readFails, faults, dims[i].dim);
        ListedMeansCounted(dims, faults, i);
      } else {
        AllFailedLeavesTable(table, dims, now, faults);
      }
    }
  }

  /** Two keys, of which the second's upsert fails: the call answers with an error and has consumed the first. */
  lemma {:induction false} ErrorConsumesTheFirst(d: Dimension, e: Dimension, dims: seq<Dimension>, faults: seq<Fault>)
    requires dims == [d, e] && faults == [NO_FAULT, Fault(true, false)]
    requires RequestError(RequestFor(d, 0)).None? && RequestError(RequestFor(e, 0)).None?
    ensures ManyResult(map[], dims, 0, false, faults).Err? && ManyTable(map[], dims, 0, false, faults) != map[]
  {
    TwoInRange(d, e, dims);
    EmptyTableDeniesNone(dims, 0);
    assert faults[1].upsert && !faults[0].upsert;
    ErrorMeansFault(map[], dims, 0, false, faults);
    ErrorLeavesTableExactly(map[], dims, 0, false, faults);
  }

  lemma {:induction false} TwoInRange(d: Dimension, e: Dimension, dims: seq<Dimension>)
    requires dims == [d, e] && RequestError(RequestFor(d, 0)).None? && RequestError(RequestFor(e, 0)).None?
    ensures DimensionsError(dims, 0).None?
  {
    var last := dims[1..];
    assert last[0] == e && DimensionsError(last[1..], 0).None?;
  }

  /** A grant keeps a window within its limit if and only if its listings, repetitions included, fit into the room there was. */
  lemma {:induction false} GrantWithinLimitExactly(
    table: Table, dims: seq<Dimension>, now: int, readFails: bool, faults: seq<Fault>, i: nat
  )
    requires |faults| == |dims| && i < |dims|
    requires ManyResult(table, dims, now, readFails, faults).Ok? && ManyResult(table, dims, now, readFails, faults).data.allowed
    ensures LiveCount(ManyTable(table, dims, now, readFails, faults), dims[i].dim, now) <= dims[i].limit <==>
            LiveCount(table, dims[i].dim, now) + Multiplicity(dims[i].dim, dims) <= dims[i].limit
  {
    AllOrNothing(table, dims, now, readFails, faults, dims[i].dim);
  }

  /** With distinct keys a grant never takes a window past its limit. */
  lemma {:induction false} DistinctGrantStaysWithinLimit(
    table: Table, dims: seq<Dimension>, now: int, readFails: bool, faults: seq<Fault>, i: nat
  )
    requires |faults| == |dims| && i < |dims|
    requires forall j, k | 0 <= j < k < |dims| :: dims[j].dim != dims[k].dim
    requires ManyResult(table, dims, now, readFails, faults).Ok? && ManyResult(table, dims, now, readFails, faults).data.allowed
    ensures LiveCount(ManyTable(table, dims, now, readFails, faults), dims[i].dim, now) <= dims[i].limit
  {
    GrantWithinLimitExactly(table, dims, now, readFails, faults, i);
    ListedOnce(dims, i);
    NoDenialMeansRoom(table, dims, now, i);
  }

  lemma {:induction false} EmptyTableDeniesNone(dims: seq<Dimension>, now: int)
    ensures DeniedRetries(map[], dims, now) == []
  {
    if dims != [] { EmptyTableDeniesNone(dims[1..], now); }
  }

  lemma {:induction false} SameTwice(d: Dimension, dims: seq<Dimension>)
    requires dims == [d, d] && RequestError(RequestFor(d, 0)).None?
    ensures DimensionsError(dims, 0).None? && Multiplicity(d.dim, dims) == 2
  {
    var last := dims[1..];
    assert last == [d] && last[0] == d && last[1..] == [];
    assert Multiplicity(d.dim, last[1..]) == 0;
    assert Multiplicity(d.dim, last) == 1;
    TwoInRange(d, d, dims);
  }

  /** Repeating a key defeats the check: this grant takes a window of limit 1 to a count of 2. */
  lemma {:induction false} RepeatedKeyPassesItsLimit(d: Dimension, dims: seq<Dimension>, faults: seq<Fault>)
    requires d.limit == 1 && RequestError(RequestFor(d, 0)).None? && dims == [d, d] && faults == [NO_FAULT, NO_FAULT]
    ensures var result := ManyResult(map[], dims, 0, false, faults);
      result.Ok? && result.data.allowed && LiveCount(ManyTable(map[], dims, 0, false, faults), d.dim, 0) == 2
  {
    EmptyTableDeniesNone(dims, 0);
    SameTwice(d, dims);
    NoFaultMeansCollected(map[], dims, 0, faults);
    AllOrNothing(map[], dims, 0, false, faults, d.dim);
  }

  lemma {:induction false} DenialsExpire(table: Table, dims: seq<Dimension>, now: int, later: int, retryAt: int)
    requires now <= later
    ensures retryAt in DeniedRetries(table, dims, later) <==> retryAt in DeniedRetries(table, dims, now) && later < retryAt
  {
    if dims != [] { DenialsExpire(table, dims[1..], now, later, retryAt); }
  }

  /** With no other traffic, a denied caller is denied before `retryAt` and allowed from `retryAt` on. */
  lemma {:induction false} RetryExactly(
    table: Table, dims: seq<Dimension>, now: int, faults: seq<Fault>, later: int, retryFaults: seq<Fault>
  )
    requires |faults| == |dims| == |retryFaults| && NoUpsertFails(retryFaults)
    requires ManyResult(table, dims, now, false, faults).Ok? && !ManyResult(table, dims, now, false, faults).data.allowed
    requires now <= later && DimensionsError(dims, later).None?
    ensures var retryAt := ManyResult(table, dims, now, false, faults).data.retryAt;
      var retry := ManyResult(ManyTable(table, dims, now, false, faults), dims, later, false, retryFaults);
      retry.Ok? && (retry.data.allowed <==> retryAt <= later)
  {
    if DeniedRetries(table, dims, now) == [] {
      CollectedMeansNoFault(table, dims, now, faults);
    }
    var denied, still := DeniedRetries(table, dims, now), DeniedRetries(table, dims, later);
    var retryAt := MaxOf(denied);
    DenialsExpire(table, dims, now, later, retryAt);
    if still == [] {
      NoFaultMeansCollected(table, dims, later, retryFaults);
    } else {
      DenialsExpire(table, dims, now, later, still[0]);
    }
  }
}
