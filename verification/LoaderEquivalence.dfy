/**
 * The trigger's own loader (backend/lambda/cognito-triggers/registry-admission.js, loadAdmission) against the
 * registry's (backend/lib/profile-registry.ts, loadProfileRegistry), call by call on one clock.
 */
module LoaderEquivalence {
  import opened Prelude
  import opened RegistryLoader

  /** One call: when it starts, when its read would end, and what that read would answer. */
  datatype Call = Call(now: int, end: int, result: Option<Snapshot>)

  /** What a caller sees: whether the rows were read, and what was served or thrown. */
  datatype Seen = Seen(read: bool, outcome: Outcome)

  // ---------------------------------------------------------------- the registry's loader, one call at a time

  function Loaded(l: Loader, c: Call): Loader {
    if Fresh(l, c.now) then l
    else if c.result.Some? then Installing(c.result.value, c.end)
    else AfterFailure(l, c.end)
  }

  function LoadSeen(l: Loader, c: Call): Seen {
    if Fresh(l, c.now) then Seen(false, Served(l.installed))
    else if c.result.Some? then Seen(true, Served(c.result))
    else if Keeps(l, c.end) then Seen(true, Served(l.installed))
    else Seen(true, Threw)
  }

  /** A call with nothing beside it is a run of the concurrent loader: the call, the read's time, and the read's end. */
  lemma LoadIsRun(s: Sys, c: Call)
    requires DoneInRange(s) && s.loading.None? && s.clock == c.now <= c.end
    ensures Fresh(s.loader, c.now) ==>
      Answer(s, CallLoad) == Some(LoadSeen(s.loader, c).outcome) && Step(s, CallLoad).loader == Loaded(s.loader, c)
    ensures !Fresh(s.loader, c.now) ==>
      var before := Step(Step(s, CallLoad), Tick(c.end - c.now));
      && Answer(s, CallLoad) == None
      && Answer(before, Finish(|s.readings|, c.result)) == Some(LoadSeen(s.loader, c).outcome)
      && Step(before, Finish(|s.readings|, c.result)).loader == Loaded(s.loader, c)
  {
    assert !Ended(s.done, |s.readings|) by {
      forall d | d in s.done ensures d.read != |s.readings| { var k :| 0 <= k < |s.done| && s.done[k] == d; }
    }
  }

  // ---------------------------------------------------------------- the trigger's loader

  datatype Cache = Cache(cached: Option<Snapshot>, cachedAt: int, readAt: int)

  function Cached(t: Cache, c: Call): Cache {
    if t.cached.Some? && c.now - t.cachedAt < TTL && c.now - t.readAt < MAX_STALE then t
    else if c.result.Some? then Cache(c.result, c.end, c.end)
    else if t.cached.None? || c.end - t.readAt >= MAX_STALE then t.(cached := None)
    else t.(cachedAt := c.end - TTL + RETRY)
  }

  function CacheSeen(t: Cache, c: Call): Seen {
    if t.cached.Some? && c.now - t.cachedAt < TTL && c.now - t.readAt < MAX_STALE then Seen(false, Served(t.cached))
    else if c.result.Some? then Seen(true, Served(c.result))
    else if t.cached.None? || c.end - t.readAt >= MAX_STALE then Seen(true, Threw)
    else Seen(true, Served(t.cached))
  }

  class AdmissionModule {
    var cached: Option<Snapshot>
    var cachedAt: int
    var readAt: int

    function State(): Cache
      reads this
    {
      Cache(cached, cachedAt, readAt)
    }

    constructor ()
      ensures State() == Cache(None, 0, 0)
    {
      cached, cachedAt, readAt := None, 0, 0;
    }

    method LoadAdmission(c: Call) returns (seen: Seen)
      modifies this
      ensures State() == Cached(old(State()), c)
      ensures seen == CacheSeen(old(State()), c)
    {
      if cached.Some? && c.now - cachedAt < TTL && c.now - readAt < MAX_STALE { return Seen(false, Served(cached)); }
      if c.result.Some? {
        cached := c.result;
        cachedAt, readAt := c.end, c.end;
      } else {
        if cached.None? || c.end - readAt >= MAX_STALE {
          cached := None;
          return Seen(true, Threw);
        }
        cachedAt := c.end - TTL + RETRY;
      }
      seen := Seen(true, Served(cached));
    }
  }

  // ---------------------------------------------------------------- the same calls

  function LoaderAfter(trace: seq<Call>): Loader {
    if trace == [] then Loader(None, 0, 0) else Loaded(LoaderAfter(trace[..|trace| - 1]), trace[|trace| - 1])
  }

  function CacheAfter(trace: seq<Call>): Cache {
    if trace == [] then Cache(None, 0, 0) else Cached(CacheAfter(trace[..|trace| - 1]), trace[|trace| - 1])
  }

  /** Time only moves forward, and the clock has run for longer than the time to live. */
  predicate Monotone(trace: seq<Call>) {
    && (forall i :: 0 <= i < |trace| ==> TTL < trace[i].now <= trace[i].end)
    && (forall i, j :: 0 <= i < j < |trace| ==> trace[i].end <= trace[j].now)
  }

  /** From `clock` on, the two hold one set, or the trigger holds none and the registry none it may still serve. */
  predicate Agree(l: Loader, t: Cache, clock: int) {
    if t.cached.Some?
    then l == Loader(t.cached, t.cachedAt, t.readAt) && l.loadedAt > 0 && l.readAt > 0
    else l == Loader(None, 0, 0) || clock - l.readAt >= MAX_STALE
  }

  lemma AgreeSee(l: Loader, t: Cache, clock: int, c: Call)
    requires Agree(l, t, clock) && clock <= c.now <= c.end && TTL < c.now
    ensures LoadSeen(l, c) == CacheSeen(t, c)
    ensures Agree(Loaded(l, c), Cached(t, c), c.end)
  {
  }

  lemma {:induction false} MonotoneAgrees(trace: seq<Call>, clock: int)
    requires Monotone(trace)
    requires trace != [] ==> clock >= trace[|trace| - 1].end
    ensures Agree(LoaderAfter(trace), CacheAfter(trace), clock)
  {
    if trace != [] {
      var rest, c := trace[..|trace| - 1], trace[|trace| - 1];
      MonotoneAgrees(rest, c.now);
      AgreeSee(LoaderAfter(rest), CacheAfter(rest), c.now, c);
    }
  }

  /**
   * THE TWO LOADERS ARE ONE. On one clock that only moves forward, and given the same answers to their reads, each call
   * to either reads, serves and throws alike, though one forgets what it held when it throws and the other does not.
   */
  lemma LoadersSeeAlike(trace: seq<Call>, k: nat)
    requires Monotone(trace) && k < |trace|
    ensures LoadSeen(LoaderAfter(trace[..k]), trace[k]) == CacheSeen(CacheAfter(trace[..k]), trace[k])
  {
    MonotoneAgrees(trace[..k], trace[k].now);
    AgreeSee(LoaderAfter(trace[..k]), CacheAfter(trace[..k]), trace[k].now, trace[k]);
  }

  // ---------------------------------------------------------------- on any clock

  /** Every call's clock reads past the time to live, and no call ends before it starts. */
  predicate Timed(trace: seq<Call>) {
    forall i :: 0 <= i < |trace| ==> TTL < trace[i].now <= trace[i].end
  }

  predicate SeenAlike(trace: seq<Call>, k: nat)
    requires k < |trace|
  {
    LoadSeen(LoaderAfter(trace[..k]), trace[k]) == CacheSeen(CacheAfter(trace[..k]), trace[k])
  }

  /** The clock shows the set the registry still holds to be past serving, and past keeping if the read fails. */
  predicate PastHolding(l: Loader, c: Call) {
    !Fresh(l, c.now) && (c.result.Some? || !Keeps(l, c.end))
  }

  /** The registry has refused a call, and no read has succeeded since. */
  predicate Refusing(trace: seq<Call>) {
    if trace == [] then false
    else
      var rest, c := trace[..|trace| - 1], trace[|trace| - 1];
      var l := LoaderAfter(rest);
      if Fresh(l, c.now) then Refusing(rest)
      else c.result.None? && (Refusing(rest) || !Keeps(l, c.end))
  }

  /** A call after a refusal finds the registry's set past holding. */
  predicate RefusesInTime(trace: seq<Call>, k: nat)
    requires k < |trace|
  {
    Refusing(trace[..k]) ==> PastHolding(LoaderAfter(trace[..k]), trace[k])
  }

  /** Where the trigger holds a set, the registry holds the same, read and kept at the same times. */
  predicate Coupled(l: Loader, t: Cache) {
    t.cached.Some? ==> l == Loader(t.cached, t.cachedAt, t.readAt) && l.loadedAt > 0 && l.readAt > 0
  }

  lemma CoupledStep(l: Loader, t: Cache, c: Call)
    requires Coupled(l, t) && TTL < c.now <= c.end
    ensures LoadSeen(l, c) == CacheSeen(t, c) <==> (t.cached.None? ==> PastHolding(l, c))
    ensures LoadSeen(l, c) == CacheSeen(t, c) ==> Coupled(Loaded(l, c), Cached(t, c))
  {
  }

  lemma {:induction false} CoupledWhileAlike(trace: seq<Call>, k: nat)
    requires Timed(trace) && k <= |trace|
    requires forall j :: 0 <= j < k ==> SeenAlike(trace, j)
    ensures Coupled(LoaderAfter(trace[..k]), CacheAfter(trace[..k]))
  {
    if k > 0 {
      CoupledWhileAlike(trace, k - 1);
      assert trace[..k][..k - 1] == trace[..k - 1];
      assert SeenAlike(trace, k - 1);
      CoupledStep(LoaderAfter(trace[..k - 1]), CacheAfter(trace[..k - 1]), trace[k - 1]);
    }
  }

  /** While calls are seen alike, the trigger holds no set exactly where the registry has none or has refused a call. */
  lemma {:induction false} ForgottenIsRefused(trace: seq<Call>, k: nat)
    requires Timed(trace) && k <= |trace|
    requires forall j :: 0 <= j < k ==> SeenAlike(trace, j)
    ensures CacheAfter(trace[..k]).cached.None? <==> LoaderAfter(trace[..k]).installed.None? || Refusing(trace[..k])
  {
    if k > 0 {
      ForgottenIsRefused(trace, k - 1);
      CoupledWhileAlike(trace, k - 1);
      assert trace[..k][..k - 1] == trace[..k - 1];
      assert SeenAlike(trace, k - 1);
      CoupledStep(LoaderAfter(trace[..k - 1]), CacheAfter(trace[..k - 1]), trace[k - 1]);
    }
  }

  lemma {:induction false} NothingReadYet(trace: seq<Call>, k: nat)
    requires k <= |trace|
    ensures LoaderAfter(trace[..k]).installed.None? ==> LoaderAfter(trace[..k]) == Loader(None, 0, 0)
  {
    if k > 0 {
      NothingReadYet(trace, k - 1);
      assert trace[..k][..k - 1] == trace[..k - 1];
    }
  }

  /** Where the calls before were seen alike, this one is exactly when a refusal before it is in time. */
  lemma AlikeNext(trace: seq<Call>, k: nat)
    requires Timed(trace) && k < |trace|
    requires forall j :: 0 <= j < k ==> SeenAlike(trace, j)
    ensures SeenAlike(trace, k) <==> RefusesInTime(trace, k)
  {
    CoupledWhileAlike(trace, k);
    ForgottenIsRefused(trace, k);
    NothingReadYet(trace, k);
    CoupledStep(LoaderAfter(trace[..k]), CacheAfter(trace[..k]), trace[k]);
  }

  lemma {:induction false} AlikeWhileInTime(trace: seq<Call>, k: nat)
    requires Timed(trace) && k <= |trace|
    requires forall j :: 0 <= j < |trace| ==> RefusesInTime(trace, j)
    ensures forall j :: 0 <= j < k ==> SeenAlike(trace, j)
  {
    if k > 0 {
      AlikeWhileInTime(trace, k - 1);
      AlikeNext(trace, k - 1);
    }
  }

  /**
   * WHEREVER THE CLOCK GOES. On any trace, each call to either loader is seen alike exactly when every call after a
   * refusal, with no successful read since, finds the registry's set past holding: neither fresh by that call's clock,
   * nor kept by its failure.
   */
  lemma SeenAlikeIffInTime(trace: seq<Call>)
    requires Timed(trace)
    ensures (forall k :: 0 <= k < |trace| ==> SeenAlike(trace, k))
      <==> (forall k :: 0 <= k < |trace| ==> RefusesInTime(trace, k))
  {
    if forall k :: 0 <= k < |trace| ==> SeenAlike(trace, k) {
      forall k | 0 <= k < |trace| ensures RefusesInTime(trace, k) { AlikeNext(trace, k); }
    }
    if forall k :: 0 <= k < |trace| ==> RefusesInTime(trace, k) {
      AlikeWhileInTime(trace, |trace|);
    }
  }

  function ClockGoesBack(): seq<Call> {
    [Call(1000000, 1000000, Some(1)), Call(1700000, 1700000, None), Call(1100000, 1100000, Some(2))]
  }

  /** A clock set back after a refusal: the registry serves the set it refused to, and the trigger reads another. */
  lemma ClockBackSeesApart()
    ensures var trace := ClockGoesBack();
            && LoadSeen(LoaderAfter(trace[..2]), trace[2]) == Seen(false, Served(Some(1)))
            && CacheSeen(CacheAfter(trace[..2]), trace[2]) == Seen(true, Served(Some(2)))
  {
    var trace := ClockGoesBack();
    assert trace[..2][..1] == trace[..1] && trace[..1][..0] == [];
    assert LoaderAfter([]) == Loader(None, 0, 0) && CacheAfter([]) == Cache(None, 0, 0);
    assert LoaderAfter(trace[..1]) == Loader(Some(1), 1000000, 1000000);
    assert CacheAfter(trace[..1]) == Cache(Some(1), 1000000, 1000000);
  }
}
