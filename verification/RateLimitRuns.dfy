/**
 * What the rate limiter guarantees over whole runs: any number of keys, any
 * interleaving, any failing statements, clocks that never go back.
 */
module RateLimitRuns {
  import opened Numbers
  import opened Wrappers
  import opened RateLimit

  datatype Call = Call(request: Request, fault: Fault)

  predicate Takes(call: Call, dim: Dim) {
    call.request.dim == dim && Consumes(call.request, call.fault)
  }

  ghost function TableAfter(table: Table, call: Call, cleaning: bool): Table {
    ConsumeTable(table, call.request, call.fault, cleaning)
  }

  /** The results of a run, one per call. */
  ghost function Run(table: Table, calls: seq<Call>, cleaning: bool): (results: seq<Result<Outcome>>)
    ensures |results| == |calls|
    decreases |calls|
  {
    if calls == [] then []
    else [ConsumeResult(table, calls[0].request, calls[0].fault)]
         + Run(TableAfter(table, calls[0], cleaning), calls[1..], cleaning)
  }

  predicate ClockNeverGoesBack(calls: seq<Call>) {
    forall i, j | 0 <= i < j < |calls| :: calls[i].request.now <= calls[j].request.now
  }

  // ------------------------------------------------------------- live windows

  /** What a table still says about a key at time `now`: an expired row says nothing. */
  datatype Window = Window(count: int, expiresAt: int)

  function Live(table: Table, dim: Dim, now: int): Option<Window> {
    if dim in table && table[dim].expiresAt > now then Some(Window(table[dim].count, table[dim].expiresAt)) else None
  }

  function LiveAt(window: Option<Window>, now: int): Option<Window> {
    if window.Some? && window.value.expiresAt > now then window else None
  }

  /** The window after one more counted call. */
  function Advance(window: Option<Window>, r: Request): Window {
    match window
    case Some(w) => w.(count := w.count + 1)
    case None => Window(1, r.now + r.windowMs)
  }

  lemma {:induction false} LiveLater(table: Table, dim: Dim, now: int, later: int)
    requires now <= later
    ensures Live(table, dim, later) == LiveAt(Live(table, dim, now), later)
  {
  }

  /** Clean-up never touches a window that is still live. */
  lemma {:induction false} CleanupSparesLive(table: Table, dim: Dim, now: int)
    ensures Live(CleanedUp(table, now), dim, now) == Live(table, dim, now)
  {
  }

  /** A call's result and its effect, on every key, depend on the live window of its key alone. */
  lemma {:induction false} StepOnWindows(table: Table, call: Call, cleaning: bool, dim: Dim)
    ensures var r := call.request;
      && Live(TableAfter(table, call, cleaning), dim, r.now)
         == (if Takes(call, dim) then Some(Advance(Live(table, dim, r.now), r)) else Live(table, dim, r.now))
      && (Takes(call, dim) ==>
            var w := Advance(Live(table, dim, r.now), r);
            ConsumeResult(table, r, call.fault) == Ok(Outcome(w.count <= r.limit, w.count, w.expiresAt)))
      && (!Consumes(r, call.fault) ==> ConsumeResult(table, r, call.fault).Err?)
  {
    var r := call.request;
    if Consumes(r, call.fault) {
      CleanupSparesLive(table[r.dim := Upserted(table, r)], dim, r.now);
    }
  }

  // ----------------------------------------------------- clean-up is invisible

  ghost predicate SameWindows(a: Table, b: Table, now: int) {
    forall dim: Dim :: Live(a, dim, now) == Live(b, dim, now)
  }

  /** Deleting expired rows, in any batches and with any failures, never changes an answer. */
  lemma {:induction false} CleanupIsInvisible(table: Table, never: Table, calls: seq<Call>, now: int)
    requires SameWindows(table, never, now)
    requires ClockNeverGoesBack(calls) && (calls != [] ==> now <= calls[0].request.now)
    ensures Run(table, calls, true) == Run(never, calls, false)
    decreases |calls|
  {
    if calls != [] {
      var call := calls[0];
      var later := call.request.now;
      forall dim: Dim
        ensures Live(table, dim, later) == Live(never, dim, later)
        ensures Live(TableAfter(table, call, true), dim, later) == Live(TableAfter(never, call, false), dim, later)
      {
        LiveLater(table, dim, now, later);
        LiveLater(never, dim, now, later);
        StepOnWindows(table, call, true, dim);
        StepOnWindows(never, call, false, dim);
      }
      StepOnWindows(table, call, true, call.request.dim);
      StepOnWindows(never, call, false, call.request.dim);
      CleanupIsInvisible(TableAfter(table, call, true), TableAfter(never, call, false), calls[1..], later);
    }
  }

  // ------------------------------------------------------ counts are exact

  predicate AnswersWindow(call: Call, result: Result<Outcome>, dim: Dim, expiresAt: int) {
    Takes(call, dim) && result.Ok? && result.data.retryAt == expiresAt
  }

  /** How many calls of a run were counted in the window of `dim` that ends at `expiresAt`. */
  function CallsInWindow(calls: seq<Call>, results: seq<Result<Outcome>>, dim: Dim, expiresAt: int): nat
    requires |calls| == |results|
  {
    if calls == [] then 0
    else (if AnswersWindow(calls[0], results[0], dim, expiresAt) then 1 else 0)
         + CallsInWindow(calls[1..], results[1..], dim, expiresAt)
  }

  /** The count a window already had when the run began. */
  function CountBefore(window: Option<Window>, expiresAt: int): int {
    if window.Some? && window.value.expiresAt == expiresAt then window.value.count else 0
  }

  /** No later answer for a key ends in a window that is over. */
  lemma {:induction false} AnswersAreLive(table: Table, calls: seq<Call>, cleaning: bool, dim: Dim, now: int)
    requires ClockNeverGoesBack(calls) && (calls != [] ==> now <= calls[0].request.now)
    ensures forall expiresAt | expiresAt <= now ::
              CallsInWindow(calls, Run(table, calls, cleaning), dim, expiresAt) == 0
    decreases |calls|
  {
    if calls != [] {
      StepOnWindows(table, calls[0], cleaning, dim);
      AnswersAreLive(TableAfter(table, calls[0], cleaning), calls[1..], cleaning, dim, now);
    }
  }

  /**
   * The count reported by the last call of any run is exactly the number of calls counted in
   * its window so far, and it is granted exactly while that is within the limit.
   */
  lemma {:induction false} CountIsExact(table: Table, calls: seq<Call>, cleaning: bool, dim: Dim)
    requires ClockNeverGoesBack(calls) && calls != [] && Takes(calls[|calls| - 1], dim)
    ensures var results, n := Run(table, calls, cleaning), |calls| - 1;
      && results[n].Ok?
      && var last := results[n].data;
         last.count == CountBefore(Live(table, dim, calls[0].request.now), last.retryAt)
                       + CallsInWindow(calls, results, dim, last.retryAt)
         && (last.allowed <==> last.count <= calls[n].request.limit)
         && calls[n].request.now < last.retryAt
    decreases |calls|
  {
    var call := calls[0];
    var now := call.request.now;
    StepOnWindows(table, call, cleaning, dim);
    if |calls| > 1 {
      var after, rest := TableAfter(table, call, cleaning), calls[1..];
      CountIsExact(after, rest, cleaning, dim);
      LiveLater(after, dim, now, rest[0].request.now);
      LastIsCounted(after, rest, cleaning, dim);
      AnswersAreLive(after, rest, cleaning, dim, rest[0].request.now);
    }
  }

  /** The last call of a run is counted in its own window. */
  lemma {:induction false} LastIsCounted(table: Table, calls: seq<Call>, cleaning: bool, dim: Dim)
    requires calls != [] && Takes(calls[|calls| - 1], dim)
    ensures var results, n := Run(table, calls, cleaning), |calls| - 1;
            results[n].Ok? && CallsInWindow(calls, results, dim, results[n].data.retryAt) >= 1
    decreases |calls|
  {
    StepOnWindows(table, calls[0], cleaning, dim);
    if |calls| > 1 { LastIsCounted(TableAfter(table, calls[0], cleaning), calls[1..], cleaning, dim); }
  }

  /** How many calls of a run the window of `dim` that ends at `expiresAt` granted. */
  function GrantsInWindow(calls: seq<Call>, results: seq<Result<Outcome>>, dim: Dim, expiresAt: int): nat
    requires |calls| == |results|
  {
    if calls == [] then 0
    else (if AnswersWindow(calls[0], results[0], dim, expiresAt) && results[0].data.allowed then 1 else 0)
         + GrantsInWindow(calls[1..], results[1..], dim, expiresAt)
  }

  function Min(a: int, b: int): int {
    if a < b then a else b
  }

  /**
   * A window grants its first `limit` calls and no others: of all that it has counted in the end,
   * the grants are those up to the limit, less what it had counted before the run.
   */
  lemma {:induction false} WindowGrantsExactly(
    table: Table, calls: seq<Call>, cleaning: bool, dim: Dim, limit: int, expiresAt: int, now: int
  )
    requires ClockNeverGoesBack(calls) && (calls != [] ==> now <= calls[0].request.now)
    requires forall i | 0 <= i < |calls| && calls[i].request.dim == dim :: calls[i].request.limit == limit
    ensures var results, before := Run(table, calls, cleaning), CountBefore(Live(table, dim, now), expiresAt);
            GrantsInWindow(calls, results, dim, expiresAt)
            == Min(limit, before + CallsInWindow(calls, results, dim, expiresAt)) - Min(limit, before)
    decreases |calls|
  {
    if calls != [] {
      var call := calls[0];
      var later, after := call.request.now, TableAfter(table, call, cleaning);
      FirstInWindow(table, calls, cleaning, dim, expiresAt);
      FirstCounts(table, call, cleaning, dim, expiresAt, now);
      WindowGrantsExactly(after, calls[1..], cleaning, dim, limit, expiresAt, later);
      NoCallsLater(after, calls[1..], cleaning, dim, expiresAt, later);
    }
  }

  lemma {:induction false} NoCallsLater(table: Table, calls: seq<Call>, cleaning: bool, dim: Dim, expiresAt: int, now: int)
    requires ClockNeverGoesBack(calls) && (calls != [] ==> now <= calls[0].request.now)
    ensures expiresAt <= now ==> CallsInWindow(calls, Run(table, calls, cleaning), dim, expiresAt) == 0
  {
    AnswersAreLive(table, calls, cleaning, dim, now);
  }

  /** What a call does to the count of the window that ends at `expiresAt`: one more if it is answered there. */
  lemma {:induction false} FirstCounts(table: Table, call: Call, cleaning: bool, dim: Dim, expiresAt: int, now: int)
    requires now <= call.request.now
    ensures var before := CountBefore(Live(table, dim, now), expiresAt);
      var after := CountBefore(Live(TableAfter(table, call, cleaning), dim, call.request.now), expiresAt);
      var first := ConsumeResult(table, call.request, call.fault);
      if AnswersWindow(call, first, dim, expiresAt) then
        after == before + 1 && call.request.now < expiresAt && (first.data.allowed <==> after <= call.request.limit)
      else after == if expiresAt <= call.request.now then 0 else before
  {
    var later := call.request.now;
    LiveLater(table, dim, now, later);
    StepOnWindows(table, call, cleaning, dim);
    CountStep(Live(table, dim, now), call.request, expiresAt);
  }

  /** What time and one counted call do to the count of the window that ends at `expiresAt`. */
  lemma {:induction false} CountStep(window: Option<Window>, r: Request, expiresAt: int)
    ensures var live := LiveAt(window, r.now);
      var w := Advance(live, r);
      && CountBefore(live, expiresAt) == (if expiresAt <= r.now then 0 else CountBefore(window, expiresAt))
      && CountBefore(Some(w), expiresAt) == (if w.expiresAt == expiresAt then CountBefore(live, expiresAt) + 1 else 0)
      && (w.expiresAt == expiresAt ==> w.count == CountBefore(live, expiresAt) + 1)
      && (w.expiresAt != expiresAt ==> CountBefore(live, expiresAt) == 0)
  {
  }

  /** A run's counts for a window, its first call apart. */
  lemma {:induction false} FirstInWindow(table: Table, calls: seq<Call>, cleaning: bool, dim: Dim, expiresAt: int)
    requires calls != []
    ensures var results, rest := Run(table, calls, cleaning), Run(TableAfter(table, calls[0], cleaning), calls[1..], cleaning);
      var first := ConsumeResult(table, calls[0].request, calls[0].fault);
      && CallsInWindow(calls, results, dim, expiresAt)
         == (if AnswersWindow(calls[0], first, dim, expiresAt) then 1 else 0) + CallsInWindow(calls[1..], rest, dim, expiresAt)
      && GrantsInWindow(calls, results, dim, expiresAt)
         == (if AnswersWindow(calls[0], first, dim, expiresAt) && first.data.allowed then 1 else 0)
            + GrantsInWindow(calls[1..], rest, dim, expiresAt)
  {
    var results := Run(table, calls, cleaning);
    assert results[0] == ConsumeResult(table, calls[0].request, calls[0].fault);
    assert results[1..] == Run(TableAfter(table, calls[0], cleaning), calls[1..], cleaning);
  }

  // ------------------------------------------------- at most 2L - 1 per window length

  predicate IsGrant(call: Call, result: Result<Outcome>, dim: Dim, from: int, to: int) {
    call.request.dim == dim && from <= call.request.now < to && result.Ok? && result.data.allowed
  }

  /** Grants to `dim` at times in the half-open interval from..to. */
  function Grants(calls: seq<Call>, results: seq<Result<Outcome>>, dim: Dim, from: int, to: int): nat
    requires |calls| == |results|
  {
    if calls == [] then 0
    else (if IsGrant(calls[0], results[0], dim, from, to) then 1 else 0)
         + Grants(calls[1..], results[1..], dim, from, to)
  }

  /** Every call on `dim` uses the same limit and window length. */
  predicate Uniform(calls: seq<Call>, dim: Dim, limit: int, windowMs: int) {
    forall i | 0 <= i < |calls| && calls[i].request.dim == dim ::
      calls[i].request.limit == limit && calls[i].request.windowMs == windowMs
  }

  /** The grants a window can still give before `to`, when no new window may end before `to`. */
  function Remaining(window: Option<Window>, limit: int, to: int): int {
    match window
    case None => limit
    case Some(w) => (if w.count < limit then limit - w.count else 0) + (if w.expiresAt < to then limit else 0)
  }

  /** A run's grants, its first call apart. */
  lemma {:induction false} FirstGrant(table: Table, calls: seq<Call>, dim: Dim, from: int, to: int)
    requires calls != []
    ensures var call := calls[0];
      Grants(calls, Run(table, calls, true), dim, from, to)
      == (if IsGrant(call, ConsumeResult(table, call.request, call.fault), dim, from, to) then 1 else 0)
         + Grants(calls[1..], Run(TableAfter(table, call, true), calls[1..], true), dim, from, to)
  {
    var results := Run(table, calls, true);
    assert results[0] == ConsumeResult(table, calls[0].request, calls[0].fault);
    assert results[1..] == Run(TableAfter(table, calls[0], true), calls[1..], true);
  }

  /** What one counted call does to the grants a window can still give. */
  lemma {:induction false} WindowStep(window: Option<Window>, r: Request, from: int, now: int)
    requires r.limit >= 1 && r.windowMs >= 1 && from <= now <= r.now
    ensures var to := from + r.windowMs;
      var w := Advance(LiveAt(window, r.now), r);
      (if r.now < to && w.count <= r.limit then 1 else 0) + (if r.now < to then Remaining(Some(w), r.limit, to) else 0)
      <= Remaining(window, r.limit, to)
  {
  }

  lemma {:induction false} IdleStep(window: Option<Window>, limit: int, later: int, to: int)
    requires limit >= 1
    ensures later < to ==> Remaining(LiveAt(window, later), limit, to) <= Remaining(window, limit, to)
    ensures 0 <= Remaining(window, limit, to)
  {
  }

  lemma {:induction false} GrantsFromWindow(
    table: Table, calls: seq<Call>, dim: Dim, limit: int, windowMs: int, from: int, now: int
  )
    requires limit >= 1 && windowMs >= 1
    requires ClockNeverGoesBack(calls) && Uniform(calls, dim, limit, windowMs)
    requires from <= now && (calls != [] ==> now <= calls[0].request.now)
    ensures Grants(calls, Run(table, calls, true), dim, from, from + windowMs)
         <= Remaining(Live(table, dim, now), limit, from + windowMs)
    decreases |calls|
  {
    var to, window := from + windowMs, Live(table, dim, now);
    if calls != [] {
      var call, r := calls[0], calls[0].request;
      var after := TableAfter(table, call, true);
      FirstGrant(table, calls, dim, from, to);
      LiveLater(table, dim, now, r.now);
      StepOnWindows(table, call, true, dim);
      if r.now >= to {
        NoGrantsLater(after, calls[1..], dim, from, to);
      } else {
        GrantsFromWindow(after, calls[1..], dim, limit, windowMs, from, r.now);
      }
      IdleStep(window, limit, r.now, to);
      if Takes(call, dim) { WindowStep(window, r, from, now); }
    }
  }

  lemma {:induction false} NoGrantsLater(table: Table, calls: seq<Call>, dim: Dim, from: int, to: int)
    requires forall i | 0 <= i < |calls| :: to <= calls[i].request.now
    ensures Grants(calls, Run(table, calls, true), dim, from, to) == 0
    decreases |calls|
  {
    if calls != [] { NoGrantsLater(TableAfter(table, calls[0], true), calls[1..], dim, from, to); }
  }

  /** Every stored window has counted at least one call. */
  ghost predicate Counted(table: Table) {
    forall dim | dim in table :: table[dim].count >= 1
  }

  /**
   * For every run and every interval as long as a window, at most 2L - 1 calls are granted:
   * a window that reaches into the interval has spent a grant before it.
   */
  lemma {:induction false} GrantsPerWindowLength(
    table: Table, calls: seq<Call>, dim: Dim, limit: int, windowMs: int, from: int
  )
    requires limit >= 1 && windowMs >= 1 && Counted(table)
    requires ClockNeverGoesBack(calls) && Uniform(calls, dim, limit, windowMs)
    ensures Grants(calls, Run(table, calls, true), dim, from, from + windowMs) <= 2 * limit - 1
    decreases |calls|
  {
    if calls != [] {
      if calls[0].request.now < from {
        GrantsPerWindowLength(TableAfter(table, calls[0], true), calls[1..], dim, limit, windowMs, from);
      } else {
        GrantsFromWindow(table, calls, dim, limit, windowMs, from, calls[0].request.now);
      }
    }
  }

  // ----------------------------------------------------------- and that is tight

  const NO_FAULT := Fault(false, false)

  function Burst(r: Request, size: nat): seq<Call> {
    seq(size, _ => Call(r, NO_FAULT))
  }

  lemma {:induction false} BurstSplits(r: Request, size: nat, rest: seq<Call>)
    requires size > 0
    ensures var calls := Burst(r, size) + rest;
      calls[0] == Call(r, NO_FAULT) && calls[1..] == Burst(r, size - 1) + rest
  {
  }

  /** One granted call, and what follows it. */
  lemma {:induction false} GrantThen(table: Table, r: Request, calls: seq<Call>, from: int, to: int)
    requires calls != [] && calls[0] == Call(r, NO_FAULT) && RequestError(r).None? && from <= r.now < to
    requires Advance(Live(table, r.dim, r.now), r).count <= r.limit
    ensures var after := TableAfter(table, calls[0], true);
      && Live(after, r.dim, r.now) == Some(Advance(Live(table, r.dim, r.now), r))
      && Grants(calls, Run(table, calls, true), r.dim, from, to) == 1 + Grants(calls[1..], Run(after, calls[1..], true), r.dim, from, to)
  {
    StepOnWindows(table, calls[0], true, r.dim);
    FirstGrant(table, calls, r.dim, from, to);
  }

  /** Calls into a live window, all within the limit, and what follows them. */
  lemma {:induction false} BurstThen(table: Table, r: Request, size: nat, w: Window, rest: seq<Call>, from: int, to: int)
      returns (after: Table)
    requires RequestError(r).None? && from <= r.now < to
    requires Live(table, r.dim, r.now) == Some(w) && w.count + size <= r.limit
    ensures Live(after, r.dim, r.now) == Some(w.(count := w.count + size))
    ensures var calls := Burst(r, size) + rest;
            Grants(calls, Run(table, calls, true), r.dim, from, to) == size + Grants(rest, Run(after, rest, true), r.dim, from, to)
    decreases size
  {
    if size == 0 {
      after := table;
      assert Burst(r, 0) + rest == rest;
    } else {
      var calls := Burst(r, size) + rest;
      BurstSplits(r, size, rest);
      GrantThen(table, r, calls, from, to);
      after := BurstThen(TableAfter(table, calls[0], true), r, size - 1, w.(count := w.count + 1), rest, from, to);
    }
  }

  /** A full burst that opens a window, and what follows it. */
  lemma {:induction false} WindowThen(table: Table, r: Request, rest: seq<Call>, from: int, to: int) returns (after: Table)
    requires RequestError(r).None? && from <= r.now < to && Live(table, r.dim, r.now).None?
    ensures var calls := Burst(r, r.limit) + rest;
            Grants(calls, Run(table, calls, true), r.dim, from, to) == r.limit + Grants(rest, Run(after, rest, true), r.dim, from, to)
  {
    var calls := Burst(r, r.limit) + rest;
    BurstSplits(r, r.limit, rest);
    GrantThen(table, r, calls, from, to);
    after := BurstThen(TableAfter(table, calls[0], true), r, r.limit - 1, Window(1, r.now + r.windowMs), rest, from, to);
  }

  /** One call just before the interval, the rest of its window inside it, then a whole new window. */
  function WorstCase(dim: Dim, limit: int, windowMs: int): seq<Call>
    requires limit >= 1
  {
    Burst(Request(dim, limit, windowMs, 0), 1) + WorstTail(dim, limit, windowMs)
  }

  function WorstTail(dim: Dim, limit: int, windowMs: int): seq<Call>
    requires limit >= 1
  {
    Burst(Request(dim, limit, windowMs, 1), limit - 1) + (Burst(Request(dim, limit, windowMs, windowMs), limit) + [])
  }

  lemma {:induction false} WorstTailGrants(table: Table, dim: Dim, limit: int, windowMs: int)
    requires 1 <= limit <= MAX_SAFE_INTEGER && 2 <= windowMs <= MAX_SAFE_INTEGER
    requires Live(table, dim, 1) == Some(Window(1, windowMs))
    ensures var calls := WorstTail(dim, limit, windowMs);
            Grants(calls, Run(table, calls, true), dim, 1, 1 + windowMs) == 2 * limit - 1
  {
    var second, third := Request(dim, limit, windowMs, 1), Request(dim, limit, windowMs, windowMs);
    var spent := BurstThen(table, second, limit - 1, Window(1, windowMs), Burst(third, limit) + [], 1, 1 + windowMs);
    LiveLater(spent, dim, 1, windowMs);
    var end := WindowThen(spent, third, [], 1, 1 + windowMs);
  }

  lemma {:induction false} WorstCaseGrants(dim: Dim, limit: int, windowMs: int)
    requires 1 <= limit <= MAX_SAFE_INTEGER && 2 <= windowMs <= MAX_SAFE_INTEGER
    ensures var calls := WorstCase(dim, limit, windowMs);
            Grants(calls, Run(map[], calls, true), dim, 1, 1 + windowMs) == 2 * limit - 1
  {
    var calls := WorstCase(dim, limit, windowMs);
    var first := Call(Request(dim, limit, windowMs, 0), NO_FAULT);
    var begun := TableAfter(map[], first, true);
    assert calls[0] == first && calls[1..] == WorstTail(dim, limit, windowMs);
    FirstGrant(map[], calls, dim, 1, 1 + windowMs);
    StepOnWindows(map[], first, true, dim);
    LiveLater(begun, dim, 0, 1);
    WorstTailGrants(begun, dim, limit, windowMs);
  }

  lemma {:induction false} WorstCaseIsARun(dim: Dim, limit: int, windowMs: int)
    requires limit >= 1 && windowMs >= 2
    ensures ClockNeverGoesBack(WorstCase(dim, limit, windowMs)) && Uniform(WorstCase(dim, limit, windowMs), dim, limit, windowMs)
  {
    var calls := WorstCase(dim, limit, windowMs);
    assert forall i | 0 <= i < |calls| ::
        calls[i].request == Request(dim, limit, windowMs, if i == 0 then 0 else if i < limit then 1 else windowMs);
  }

  /** The bound cannot be improved: for every limit and every window of two ticks or more, a run reaches it. */
  lemma {:induction false} BoundIsReached(dim: Dim, limit: int, windowMs: int)
    requires 1 <= limit <= MAX_SAFE_INTEGER && 2 <= windowMs <= MAX_SAFE_INTEGER
    ensures exists calls | ClockNeverGoesBack(calls) && Uniform(calls, dim, limit, windowMs) ::
              Grants(calls, Run(map[], calls, true), dim, 1, 1 + windowMs) == 2 * limit - 1
  {
    WorstCaseGrants(dim, limit, windowMs);
    WorstCaseIsARun(dim, limit, windowMs);
  }
}
