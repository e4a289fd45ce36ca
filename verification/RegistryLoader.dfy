/**
 * The registry loader (backend/lib/profile-registry.ts): a set of rows read under a time to live, kept while reads
 * fail up to a staleness, one load's read shared by concurrent callers, and a refresh that reads for itself.
 */
module RegistryLoader {
  import opened Prelude

  const TTL := 300000
  const MAX_STALE := 2 * TTL
  const RETRY := 30000

  /** A set as one read of the rows answered it. */
  type Snapshot = nat

  /** The module's variables. A time of zero is no time; no set installed is a registry whose every read throws. */
  datatype Loader = Loader(installed: Option<Snapshot>, loadedAt: int, readAt: int)

  predicate Fresh(l: Loader, now: int) {
    l.loadedAt != 0 && now - l.loadedAt < TTL && now - l.readAt < MAX_STALE
  }

  predicate Keeps(l: Loader, at: int) {
    l.readAt != 0 && at - l.readAt < MAX_STALE
  }

  function Installing(snapshot: Snapshot, at: int): Loader {
    Loader(Some(snapshot), at, at)
  }

  /** A load's failed read: the set read before is kept within its staleness, and the next read put off. */
  function AfterFailure(l: Loader, at: int): Loader {
    if Keeps(l, at) then l.(loadedAt := at - TTL + RETRY) else l
  }

  datatype Outcome = Served(snapshot: Option<Snapshot>) | Threw

  // ---------------------------------------------------------------- the module's variables, updated in place

  class RegistryModule {
    var installed: Option<Snapshot>
    var loadedAt: int
    var readAt: int
    var loading: bool

    function State(): Loader
      reads this
    {
      Loader(installed, loadedAt, readAt)
    }

    constructor ()
      ensures State() == Loader(None, 0, 0) && !loading
    {
      installed, loadedAt, readAt, loading := None, 0, 0, false;
    }

    /** A load up to its await: the set at hand, or the read to wait for, begun here when none is in flight. */
    method BeginLoad(now: int) returns (answer: Option<Outcome>, begins: bool)
      modifies this`loading
      ensures Fresh(State(), now) ==> answer == Some(Served(installed)) && !begins && loading == old(loading)
      ensures !Fresh(State(), now) ==> answer == None && begins == !old(loading) && loading
    {
      if loadedAt != 0 && now - loadedAt < TTL && now - readAt < MAX_STALE { return Some(Served(installed)), false; }
      if loading { return None, false; }
      loading := true;
      return None, true;
    }

    /** One read's rows assembled and installed, or not. */
    method ReadAndInstall(result: Option<Snapshot>, at: int) returns (answer: Outcome)
      modifies this`installed, this`loadedAt, this`readAt
      ensures result.Some? ==> State() == Installing(result.value, at) && answer == Served(result)
      ensures result.None? ==> State() == old(State()) && answer == Threw
    {
      if result.None? { return Threw; }
      installed := result;
      loadedAt, readAt := at, at;
      answer := Served(result);
    }

    /** A load from the end of its read. */
    method EndLoad(result: Option<Snapshot>, at: int) returns (answer: Outcome)
      modifies this
      ensures !loading
      ensures result.Some? ==> State() == Installing(result.value, at) && answer == Served(result)
      ensures result.None? ==> State() == AfterFailure(old(State()), at)
      ensures result.None? ==> answer == if Keeps(old(State()), at) then Served(installed) else Threw
    {
      answer := ReadAndInstall(result, at);
      if answer.Threw? {
        if readAt != 0 && at - readAt < MAX_STALE {
          loadedAt := at - TTL + RETRY;
          answer := Served(installed);
        }
      }
      loading := false;
    }

    /** A refresh from the end of its read: it answers from its own read or not at all. */
    method EndRefresh(result: Option<Snapshot>, at: int) returns (answer: Outcome)
      modifies this
      ensures loading == old(loading)
      ensures result.Some? ==> State() == Installing(result.value, at) && answer == Served(result)
      ensures result.None? ==> State() == old(State()) && answer == Threw
    {
      answer := ReadAndInstall(result, at);
    }
  }

  // ---------------------------------------------------------------- concurrent callers

  datatype Kind = ForLoad | ForRefresh(called: nat, awaited: Option<nat>)

  /**
   * A read begun at a step, and the order reads end in. `result` is none where the read failed or assembled nothing.
   */
  datatype Read = Read(kind: Kind, begun: nat)
  datatype Done = Done(read: nat, at: int, result: Option<Snapshot>, kept: bool)

  /** A refresh waiting out the load's read that was in flight when it was called. */
  datatype Waiter = Waiter(called: nat, awaits: nat)

  datatype Sys = Sys(
    clock: int,
    step: nat,
    loader: Loader,
    loading: Option<nat>,
    waiting: set<Waiter>,
    readings: seq<Read>,
    done: seq<Done>)

  datatype Event =
    | CallLoad
    | CallRefresh
    | Resume(waiter: Waiter)
    | Finish(read: nat, result: Option<Snapshot>)
    | Tick(millis: nat)

  predicate Ended(done: seq<Done>, read: nat) {
    exists d :: d in done && d.read == read
  }

  predicate InFlight(s: Sys, read: nat) {
    read < |s.readings| && !Ended(s.done, read)
  }

  predicate IsLoad(s: Sys, read: nat) {
    read < |s.readings| && s.readings[read].kind.ForLoad?
  }

  predicate BeginsLoad(s: Sys) {
    !Fresh(s.loader, s.clock) && s.loading.None?
  }

  predicate CanResume(s: Sys, w: Waiter) {
    w in s.waiting && s.loading != Some(w.awaits)
  }

  function Begun(s: Sys, kind: Kind): Sys {
    s.(readings := s.readings + [Read(kind, s.step)])
  }

  function Finished(s: Sys, read: nat, result: Option<Snapshot>): Sys
    requires read < |s.readings|
  {
    var load := IsLoad(s, read);
    s.(done := s.done + [Done(read, s.clock, result, load && result.None? && Keeps(s.loader, s.clock))],
       loader := if result.Some? then Installing(result.value, s.clock)
                 else if load then AfterFailure(s.loader, s.clock) else s.loader,
       loading := if load then None else s.loading)
  }

  function Moved(s: Sys, e: Event): Sys {
    match e
    case CallLoad => if BeginsLoad(s) then Begun(s, ForLoad).(loading := Some(|s.readings|)) else s
    case CallRefresh =>
      if s.loading.Some? then s.(waiting := s.waiting + {Waiter(s.step, s.loading.value)})
      else Begun(s, ForRefresh(s.step, None))
    case Resume(w) =>
      if CanResume(s, w) then Begun(s, ForRefresh(w.called, Some(w.awaits))).(waiting := s.waiting - {w}) else s
    case Finish(read, result) => if InFlight(s, read) then Finished(s, read, result) else s
    case Tick(millis) => s.(clock := s.clock + millis)
  }

  function Step(s: Sys, e: Event): Sys {
    var t := Moved(s, e);
    t.(step := s.step + 1)
  }

  /** What the step answers: a load at hand, or every caller of the read that ended. */
  function Answer(s: Sys, e: Event): Option<Outcome> {
    match e
    case CallLoad => if Fresh(s.loader, s.clock) then Some(Served(s.loader.installed)) else None
    case Finish(read, result) =>
      if !InFlight(s, read) then None
      else if result.Some? then Some(Served(result))
      else if IsLoad(s, read) && Keeps(s.loader, s.clock) then Some(Served(s.loader.installed))
      else Some(Threw)
    case _ => None
  }

  function Init(t0: int): Sys {
    Sys(t0, 0, Loader(None, 0, 0), None, {}, [], [])
  }

  function Run(t0: int, events: seq<Event>): Sys {
    if events == [] then Init(t0) else Step(Run(t0, events[..|events| - 1]), events[|events| - 1])
  }

  /** The last read that succeeded, in the order reads ended. */
  function LastOk(done: seq<Done>): (r: Option<Done>)
    ensures r.Some? ==> r.value in done && r.value.result.Some?
    ensures r.None? ==> forall d :: d in done ==> d.result.None?
  {
    if done == [] then None
    else if done[|done| - 1].result.Some? then Some(done[|done| - 1])
    else LastOk(done[..|done| - 1])
  }

  // ---------------------------------------------------------------- invariants

  /**
   * The variables are the last successful read's, and the next read is due no sooner than every kept failure put it.
   */
  predicate LoaderInv(s: Sys) {
    var last := LastOk(s.done);
    && s.clock > TTL
    && (forall k :: 0 <= k < |s.done| ==> TTL < s.done[k].at <= s.clock)
    && (last.None? ==> s.loader == Loader(None, 0, 0))
    && (last.Some? ==>
          s.loader.installed == last.value.result && s.loader.readAt == last.value.at && s.loader.loadedAt > 0)
    && (forall k :: 0 <= k < |s.done| && s.done[k].kept ==>
          s.done[k].result.None? && last.Some? && s.loader.loadedAt >= s.done[k].at - TTL + RETRY)
  }

  /** `loading` is the one load's read in flight. */
  predicate LoadingInv(s: Sys) {
    && (s.loading.Some? ==> IsLoad(s, s.loading.value) && InFlight(s, s.loading.value))
    && (forall r :: 0 <= r < |s.readings| && IsLoad(s, r) && InFlight(s, r) ==> s.loading == Some(r))
  }

  /** A refresh's read began after its call, once the load's read it found in flight had ended. */
  predicate RefreshInv(s: Sys) {
    && (forall w :: w in s.waiting ==> w.called < s.step && IsLoad(s, w.awaits))
    && (forall r :: 0 <= r < |s.readings| ==> s.readings[r].begun < s.step && RefreshWaited(s, s.readings[r]))
  }

  predicate RefreshWaited(s: Sys, read: Read) {
    read.kind.ForRefresh? ==>
      read.kind.called <= read.begun && (read.kind.awaited.Some? ==> Ended(s.done, read.kind.awaited.value))
  }

  lemma EndedSnoc(done: seq<Done>, d: Done, read: nat)
    ensures Ended(done + [d], read) <==> Ended(done, read) || d.read == read
  {
    assert d in done + [d];
    assert forall x :: x in done + [d] <==> x in done || x == d;
  }

  lemma FinishKeepsLoader(s: Sys, read: nat, result: Option<Snapshot>)
    requires LoaderInv(s) && InFlight(s, read)
    ensures LoaderInv(Finished(s, read, result))
  {
    var t := Finished(s, read, result);
    assert t.done[..|s.done|] == s.done;
    forall k | 0 <= k < |s.done| ensures t.done[k] == s.done[k] {}
  }

  lemma StepKeepsLoader(s: Sys, e: Event)
    requires LoaderInv(s)
    ensures LoaderInv(Step(s, e))
  {
    if e.Finish? && InFlight(s, e.read) { FinishKeepsLoader(s, e.read, e.result); }
  }

  lemma StepKeepsLoading(s: Sys, e: Event)
    requires LoadingInv(s) && DoneInRange(s)
    ensures LoadingInv(Step(s, e)) && DoneInRange(Step(s, e))
  {
    if e.Finish? && InFlight(s, e.read) {
      var t := Step(s, e);
      var d := t.done[|s.done|];
      assert t.done == s.done + [d];
      forall r ensures Ended(t.done, r) <==> Ended(s.done, r) || r == e.read { EndedSnoc(s.done, d, r); }
    }
  }

  predicate DoneInRange(s: Sys) {
    forall k :: 0 <= k < |s.done| ==> s.done[k].read < |s.readings|
  }

  lemma StepKeepsRefresh(s: Sys, e: Event)
    requires LoadingInv(s) && RefreshInv(s)
    ensures RefreshInv(Step(s, e))
  {
    var t := Step(s, e);
    if e.Finish? && InFlight(s, e.read) {
      var d := t.done[|s.done|];
      assert t.done == s.done + [d];
      forall r: nat | Ended(s.done, r) ensures Ended(t.done, r) { EndedSnoc(s.done, d, r); }
    }
  }

  ghost predicate Inv(s: Sys) {
    LoaderInv(s) && LoadingInv(s) && DoneInRange(s) && RefreshInv(s)
  }

  lemma {:induction false} RunKeepsInv(t0: int, events: seq<Event>)
    requires t0 > TTL
    ensures Inv(Run(t0, events))
  {
    if events != [] {
      RunKeepsInv(t0, events[..|events| - 1]);
      var s, e := Run(t0, events[..|events| - 1]), events[|events| - 1];
      StepKeepsLoader(s, e);
      StepKeepsLoading(s, e);
      StepKeepsRefresh(s, e);
    }
  }

  // ---------------------------------------------------------------- the loader's promises

  /** The step answers callers of a load. */
  predicate AnswersLoad(s: Sys, e: Event) {
    e.CallLoad? || (e.Finish? && IsLoad(s, e.read))
  }

  /**
   * NEVER FROM A STALE SET. On every run of concurrent loads and refreshes, what a load serves is the set the last
   * successful read answered, less than its staleness after that read.
   */
  lemma LoadServesFreshSet(t0: int, events: seq<Event>, e: Event)
    requires t0 > TTL
    requires var s := Run(t0, events); AnswersLoad(s, e) && Answer(s, e).Some? && Answer(s, e).value.Served?
    ensures var s := Run(t0, events);
            var last := LastOk(Step(s, e).done);
            last.Some? && Answer(s, e).value.snapshot == last.value.result && s.clock - last.value.at < 600000
  {
    RunKeepsInv(t0, events);
    StepKeepsLoader(Run(t0, events), e);
    var s := Run(t0, events);
    if e.Finish? { assert Step(s, e).done[..|s.done|] == s.done; }
  }

  /** A load throws exactly when its read fails with no read succeeded, or none within the staleness. */
  lemma LoadThrowsIff(t0: int, events: seq<Event>, e: Event)
    requires t0 > TTL && AnswersLoad(Run(t0, events), e)
    ensures var s := Run(t0, events);
            Answer(s, e) == Some(Threw) <==>
              && e.Finish? && InFlight(s, e.read) && e.result.None?
              && (LastOk(s.done).None? || s.clock - LastOk(s.done).value.at >= 600000)
  {
    RunKeepsInv(t0, events);
  }

  /** ONE READ AT A TIME. Two loads' reads are never in flight together. */
  lemma OneLoadInFlight(t0: int, events: seq<Event>, r: nat, q: nat)
    requires t0 > TTL
    requires var s := Run(t0, events); IsLoad(s, r) && InFlight(s, r) && IsLoad(s, q) && InFlight(s, q)
    ensures r == q
  {
    RunKeepsInv(t0, events);
  }

  /**
   * NO HURRIED RETRY. A load begins no read within thirty seconds of a kept failure, while the set is within its
   * staleness.
   */
  lemma RetriesAreSpaced(t0: int, events: seq<Event>, k: nat)
    requires t0 > TTL
    requires var s := Run(t0, events); BeginsLoad(s) && k < |s.done| && s.done[k].kept
    ensures var s := Run(t0, events);
            LastOk(s.done).Some? && (s.clock - s.done[k].at >= 30000 || s.clock - LastOk(s.done).value.at >= 600000)
  {
    RunKeepsInv(t0, events);
  }

  /**
   * A FAILED READ REPLACES NOTHING. What is installed is what the last successful read answered, and nothing before
   * one.
   */
  lemma InstalledIsLastOk(t0: int, events: seq<Event>)
    requires t0 > TTL
    ensures var s := Run(t0, events);
            s.loader.installed == if LastOk(s.done).Some? then LastOk(s.done).value.result else None
  {
    RunKeepsInv(t0, events);
  }

  /**
   * A REFRESH READS FOR ITSELF. It is answered only when its own read ends, with that read's rows or a refusal; the
   * read began after the call, and after the load's read it found in flight had ended.
   */
  lemma RefreshReadsAfterItsCall(t0: int, events: seq<Event>, read: nat, result: Option<Snapshot>)
    requires t0 > TTL
    requires var s := Run(t0, events); InFlight(s, read) && s.readings[read].kind.ForRefresh?
    ensures var s := Run(t0, events);
            && Answer(s, Finish(read, result)) == Some(if result.Some? then Served(result) else Threw)
            && s.readings[read].kind.called <= s.readings[read].begun
            && (s.readings[read].kind.awaited.Some? ==> Ended(s.done, s.readings[read].kind.awaited.value))
  {
    RunKeepsInv(t0, events);
    assert RefreshWaited(Run(t0, events), Run(t0, events).readings[read]);
  }

  /**
   * HOW LONG A READ IS FRESH. For five minutes from a successful read's end, and no longer, a load answers with what it
   * read; and for thirty seconds from a kept failure, with what was kept, while that is less than ten minutes old.
   */
  lemma FreshForFiveMinutes(t0: int, events: seq<Event>, read: nat, snapshot: Snapshot, wait: nat)
    requires t0 > TTL && InFlight(Run(t0, events), read)
    ensures var t := Step(Step(Run(t0, events), Finish(read, Some(snapshot))), Tick(wait));
            Answer(t, CallLoad) == if wait < 300000 then Some(Served(Some(snapshot))) else None
  {
    RunKeepsInv(t0, events);
  }

  lemma KeptForHalfAMinute(t0: int, events: seq<Event>, read: nat, wait: nat)
    requires t0 > TTL && InFlight(Run(t0, events), read) && IsLoad(Run(t0, events), read)
    requires LastOk(Run(t0, events).done).Some?
    requires Run(t0, events).clock - LastOk(Run(t0, events).done).value.at < 600000
    ensures var last := LastOk(Run(t0, events).done).value;
            var t := Step(Step(Run(t0, events), Finish(read, None)), Tick(wait));
            Answer(t, CallLoad) ==
              if wait < 30000 && t.clock - last.at < 600000 then Some(Served(last.result)) else None
  {
    RunKeepsInv(t0, events);
  }

  /** The refresh called at a step still waits for the load's read it found in flight, or has begun its own read. */
  predicate Accounted(s: Sys, called: nat) {
    || (exists w :: w in s.waiting && w.called == called)
    || (exists r :: 0 <= r < |s.readings| && s.readings[r].kind.ForRefresh? && s.readings[r].kind.called == called)
  }

  lemma AccountedStays(s: Sys, e: Event, called: nat)
    requires Accounted(s, called)
    ensures Accounted(Step(s, e), called)
  {
    var t := Step(s, e);
    if r :| 0 <= r < |s.readings| && s.readings[r].kind.ForRefresh? && s.readings[r].kind.called == called {
      assert t.readings[r] == s.readings[r];
    } else {
      var w :| w in s.waiting && w.called == called;
      if e.Resume? && e.waiter == w && CanResume(s, w) {
        assert t.readings[|s.readings|] == Read(ForRefresh(called, Some(w.awaits)), s.step);
      } else {
        assert w in t.waiting;
      }
    }
  }

  lemma CalledIsAccounted(s: Sys)
    ensures Accounted(Step(s, CallRefresh), s.step)
  {
    var t := Step(s, CallRefresh);
    if s.loading.Some? {
      assert Waiter(s.step, s.loading.value) in t.waiting;
    } else {
      assert t.readings[|s.readings|] == Read(ForRefresh(s.step, None), s.step);
    }
  }

  lemma {:induction false} StepsCount(t0: int, events: seq<Event>)
    ensures Run(t0, events).step == |events|
  {
    if events != [] { StepsCount(t0, events[..|events| - 1]); }
  }

  /** NO REFRESH IS LOST. On every run, each refresh called waits still, or has its own read begun. */
  lemma {:induction false} RefreshNeverLost(t0: int, events: seq<Event>, k: nat)
    requires k < |events| && events[k] == CallRefresh
    ensures Accounted(Run(t0, events), k)
  {
    var n := |events| - 1;
    StepsCount(t0, events[..n]);
    if k == n {
      CalledIsAccounted(Run(t0, events[..n]));
    } else {
      RefreshNeverLost(t0, events[..n], k);
      AccountedStays(Run(t0, events[..n]), events[n], k);
    }
  }

  /** And it waits no longer than the load's read it found: once that has ended, its own may begin. */
  lemma WaiterResumes(t0: int, events: seq<Event>, w: Waiter)
    requires t0 > TTL && w in Run(t0, events).waiting && Ended(Run(t0, events).done, w.awaits)
    ensures var t := Step(Run(t0, events), Resume(w));
            && |t.readings| == |Run(t0, events).readings| + 1 && w !in t.waiting
            && t.readings[|t.readings| - 1].kind == ForRefresh(w.called, Some(w.awaits))
  {
    RunKeepsInv(t0, events);
    assert LoadingInv(Run(t0, events));
  }

  // ---------------------------------------------------------------- which read's set is installed

  predicate Quiet(s: Sys) {
    forall r :: 0 <= r < |s.readings| ==> Ended(s.done, r)
  }

  predicate BeginsAlone(t0: int, events: seq<Event>, k: nat)
    requires k < |events|
  {
    |Run(t0, events[..k + 1]).readings| > |Run(t0, events[..k]).readings| ==> Quiet(Run(t0, events[..k]))
  }

  /** Every read begins with none in flight. */
  predicate NoOverlap(t0: int, events: seq<Event>) {
    forall k :: 0 <= k < |events| ==> BeginsAlone(t0, events, k)
  }

  predicate InOrder(s: Sys) {
    && (forall i, j :: 0 <= i < j < |s.done| ==> s.done[i].read < s.done[j].read)
    && (forall r :: 0 <= r < |s.readings| - 1 ==> Ended(s.done, r))
  }

  /** No read begun after the installed set's has succeeded. */
  predicate NewestInstalled(s: Sys) {
    LastOk(s.done).Some? ==> forall d :: d in s.done && d.result.Some? ==> d.read <= LastOk(s.done).value.read
  }

  lemma StepKeepsOrder(s: Sys, e: Event)
    requires DoneInRange(s) && InOrder(s)
    requires |Step(s, e).readings| > |s.readings| ==> Quiet(s)
    ensures InOrder(Step(s, e))
  {
    if e.Finish? && InFlight(s, e.read) {
      var t := Step(s, e);
      var d := t.done[|s.done|];
      assert t.done == s.done + [d];
      assert e.read == |s.readings| - 1;
      forall r: nat | Ended(s.done, r) ensures Ended(t.done, r) { EndedSnoc(s.done, d, r); }
      forall k | 0 <= k < |s.done| ensures s.done[k].read < e.read {
        assert s.done[k] in s.done && Ended(s.done, s.done[k].read);
      }
    }
  }

  lemma AloneInPrefix(t0: int, events: seq<Event>, n: nat, k: nat)
    requires k < n <= |events|
    ensures BeginsAlone(t0, events[..n], k) == BeginsAlone(t0, events, k)
  {
    assert events[..n][..k] == events[..k];
    assert events[..n][..k + 1] == events[..k + 1];
  }

  lemma LastBeginsAlone(t0: int, events: seq<Event>)
    requires NoOverlap(t0, events) && events != []
    ensures var s := Run(t0, events[..|events| - 1]);
            |Step(s, events[|events| - 1]).readings| > |s.readings| ==> Quiet(s)
  {
    var n := |events| - 1;
    assert BeginsAlone(t0, events, n);
    assert events[..n + 1] == events;
  }

  lemma {:induction false} NoOverlapKeepsOrder(t0: int, events: seq<Event>)
    requires t0 > TTL && NoOverlap(t0, events)
    ensures InOrder(Run(t0, events))
  {
    if events != [] {
      var rest := events[..|events| - 1];
      LastBeginsAlone(t0, events);
      forall k | 0 <= k < |rest| ensures BeginsAlone(t0, rest, k) { AloneInPrefix(t0, events, |rest|, k); }
      NoOverlapKeepsOrder(t0, rest);
      RunKeepsInv(t0, rest);
      StepKeepsOrder(Run(t0, rest), events[|events| - 1]);
    }
  }

  lemma {:induction false} LastOkIsLatest(done: seq<Done>, d: Done)
    requires forall i, j :: 0 <= i < j < |done| ==> done[i].read < done[j].read
    requires d in done && d.result.Some?
    ensures LastOk(done).Some? && d.read <= LastOk(done).value.read
  {
    var n := |done| - 1;
    if done[n].result.None? {
      assert done == done[..n] + [done[n]];
      LastOkIsLatest(done[..n], d);
    } else {
      var i :| 0 <= i < |done| && done[i] == d;
    }
  }

  /** THE NEWEST READ WINS, WHERE READS DO NOT OVERLAP. The installed set is then the latest-begun successful read's. */
  lemma NewestIsInstalled(t0: int, events: seq<Event>)
    requires t0 > TTL && NoOverlap(t0, events)
    ensures NewestInstalled(Run(t0, events))
  {
    NoOverlapKeepsOrder(t0, events);
    var done := Run(t0, events).done;
    forall d | d in done && d.result.Some? ensures d.read <= LastOk(done).value.read { LastOkIsLatest(done, d); }
  }

  // ---------------------------------------------------------------- and only there

  /** Reads end, and nothing else happens. */
  predicate FinishesOnly(events: seq<Event>) {
    forall k :: 0 <= k < |events| ==> events[k].Finish?
  }

  /** The newest read's set is installed once the reads in flight after `k` events end as `ends` says. */
  predicate NewestOnceEnded(t0: int, events: seq<Event>, k: nat, ends: seq<Event>)
    requires k <= |events|
  {
    NewestInstalled(Run(t0, events[..k] + ends))
  }

  /** However the reads in flight at any moment of the run end, the newest successful read's set is installed. */
  ghost predicate NewestHowever(t0: int, events: seq<Event>) {
    forall k: nat, ends :: k <= |events| && FinishesOnly(ends) ==> NewestOnceEnded(t0, events, k, ends)
  }

  lemma PrefixNoOverlap(t0: int, events: seq<Event>, k: nat)
    requires k <= |events| && NoOverlap(t0, events)
    ensures NoOverlap(t0, events[..k])
  {
    forall j | 0 <= j < k ensures BeginsAlone(t0, events[..k], j) { AloneInPrefix(t0, events, k, j); }
  }

  lemma EndsBeginNothing(t0: int, before: seq<Event>, ends: seq<Event>, j: nat)
    requires NoOverlap(t0, before) && FinishesOnly(ends) && j < |before + ends|
    ensures BeginsAlone(t0, before + ends, j)
  {
    var all := before + ends;
    if j < |before| {
      assert all[..|before|] == before;
      AloneInPrefix(t0, all, |before|, j);
    } else {
      assert all[..j + 1][..j] == all[..j] && all[..j + 1][j] == ends[j - |before|];
    }
  }

  lemma OverlapSeen(t0: int, events: seq<Event>, k: nat) returns (r: nat, q: nat)
    requires t0 > TTL && k < |events| && !BeginsAlone(t0, events, k)
    ensures var s := Run(t0, events[..k + 1]); r < q < |s.readings| && InFlight(s, r) && InFlight(s, q)
  {
    var before, s := Run(t0, events[..k]), Run(t0, events[..k + 1]);
    assert events[..k + 1][..k] == events[..k];
    RunKeepsInv(t0, events[..k]);
    r :| 0 <= r < |before.readings| && !Ended(before.done, r);
    q := |before.readings|;
    assert s.done == before.done;
    assert !Ended(s.done, q) by {
      forall d | d in s.done ensures d.read != q { var i :| 0 <= i < |s.done| && s.done[i] == d; }
    }
  }

  /** Of two reads in flight, the later answers and then the earlier: the earlier's set is left installed. */
  lemma LaterThenEarlier(t0: int, events: seq<Event>, r: nat, q: nat)
    requires r < q && InFlight(Run(t0, events), r) && InFlight(Run(t0, events), q)
    ensures !NewestInstalled(Run(t0, events + [Finish(q, Some(2)), Finish(r, Some(1))]))
  {
    var s := Run(t0, events);
    RunSnoc(t0, events, Finish(q, Some(2)));
    RunSnoc(t0, events + [Finish(q, Some(2))], Finish(r, Some(1)));
    assert events + [Finish(q, Some(2))] + [Finish(r, Some(1))] == events + [Finish(q, Some(2)), Finish(r, Some(1))];
    var d, mid := Done(q, s.clock, Some(2), false), Step(s, Finish(q, Some(2)));
    assert mid.done == s.done + [d];
    EndedSnoc(s.done, d, r);
    var t := Step(mid, Finish(r, Some(1)));
    assert t.done == s.done + [d] + [Done(r, s.clock, Some(1), false)];
    assert t.done[|s.done|] == d && d in t.done;
  }

  /**
   * THE NEWEST READ WINS EXACTLY WHERE READS DO NOT OVERLAP. If each read of a run begins with none in flight, the
   * newest successful read's set is installed however the reads in flight end; if one does not, they may end so that it
   * is not.
   */
  lemma NewestHoweverIffNoOverlap(t0: int, events: seq<Event>)
    requires t0 > TTL
    ensures NewestHowever(t0, events) <==> NoOverlap(t0, events)
  {
    if NoOverlap(t0, events) {
      forall k: nat, ends | k <= |events| && FinishesOnly(ends) ensures NewestOnceEnded(t0, events, k, ends) {
        PrefixNoOverlap(t0, events, k);
        forall j | 0 <= j < |events[..k] + ends| ensures BeginsAlone(t0, events[..k] + ends, j) {
          EndsBeginNothing(t0, events[..k], ends, j);
        }
        NewestIsInstalled(t0, events[..k] + ends);
      }
    } else {
      var k :| 0 <= k < |events| && !BeginsAlone(t0, events, k);
      var r, q := OverlapSeen(t0, events, k);
      LaterThenEarlier(t0, events[..k + 1], r, q);
      assert !NewestOnceEnded(t0, events, k + 1, [Finish(q, Some(2)), Finish(r, Some(1))]);
    }
  }

  predicate LoadsOnly(events: seq<Event>) {
    forall k :: 0 <= k < |events| ==> !events[k].CallRefresh?
  }

  lemma {:induction false} OnlyLoadReads(t0: int, events: seq<Event>)
    requires LoadsOnly(events)
    ensures var s := Run(t0, events);
            s.waiting == {} && forall r :: 0 <= r < |s.readings| ==> s.readings[r].kind.ForLoad?
  {
    if events != [] { OnlyLoadReads(t0, events[..|events| - 1]); }
  }

  /** Loads alone never overlap, so a handler that refreshes nothing always holds its newest read. */
  lemma LoadsNeverOverlap(t0: int, events: seq<Event>)
    requires t0 > TTL && LoadsOnly(events)
    ensures NoOverlap(t0, events) && NewestInstalled(Run(t0, events))
  {
    forall k | 0 <= k < |events| ensures BeginsAlone(t0, events, k) { LoadBeginsAlone(t0, events, k); }
    NewestIsInstalled(t0, events);
  }

  lemma LoadBeginsAlone(t0: int, events: seq<Event>, k: nat)
    requires t0 > TTL && LoadsOnly(events) && k < |events|
    ensures BeginsAlone(t0, events, k)
  {
    var s := Run(t0, events[..k]);
    assert events[..k + 1][..k] == events[..k];
    OnlyLoadReads(t0, events[..k]);
    RunKeepsInv(t0, events[..k]);
    if |Step(s, events[k]).readings| > |s.readings| {
      forall r | 0 <= r < |s.readings| ensures Ended(s.done, r) { assert IsLoad(s, r); }
    }
  }

  function OverlappingRun(): seq<Event> {
    [CallRefresh, CallLoad, Finish(1, Some(2)), Finish(0, Some(1))]
  }

  lemma RunSnoc(t0: int, events: seq<Event>, e: Event)
    ensures Run(t0, events + [e]) == Step(Run(t0, events), e)
  {
    assert (events + [e])[..|events|] == events;
  }

  /** Both reads of the run begun, the refresh's first, and neither ended. */
  function BothBegun(t0: int): Sys {
    Sys(t0, 2, Loader(None, 0, 0), Some(1), {}, [Read(ForRefresh(0, None), 0), Read(ForLoad, 1)], [])
  }

  lemma BothBegin(t0: int)
    ensures Run(t0, OverlappingRun()[..2]) == BothBegun(t0)
  {
    var e := OverlappingRun();
    assert e[..2] == [e[0]] + [e[1]] && [e[0]] == [] + [e[0]];
    RunSnoc(t0, [], e[0]);
    RunSnoc(t0, [e[0]], e[1]);
  }

  lemma BothEnd(t0: int)
    ensures var s := Step(Step(BothBegun(t0), Finish(1, Some(2))), Finish(0, Some(1)));
            && s.done == [Done(1, t0, Some(2), false), Done(0, t0, Some(1), false)]
            && s.readings == BothBegun(t0).readings && s.loader == Installing(1, t0)
  {
    var s := Step(BothBegun(t0), Finish(1, Some(2)));
    assert s.done == [Done(1, t0, Some(2), false)];
    assert InFlight(s, 0);
  }

  /**
   * A REFRESH MAY BE OVERTAKEN. A refresh's read is not `loading`, so a load may read beside it; when the refresh's,
   * begun first, ends last, its older set replaces the newer one.
   */
  lemma OlderSetInstalled(t0: int)
    ensures var s := Run(t0, OverlappingRun());
            && s.loader.installed == Some(1) && LastOk(s.done) == Some(Done(0, t0, Some(1), false))
            && Done(1, t0, Some(2), false) in s.done
            && |s.readings| == 2 && s.readings[0].begun < s.readings[1].begun
    ensures !NewestInstalled(Run(t0, OverlappingRun()))
  {
    var e := OverlappingRun();
    BothBegin(t0);
    BothEnd(t0);
    RunSnoc(t0, e[..2], e[2]);
    RunSnoc(t0, e[..2] + [e[2]], e[3]);
    assert e[..2] + [e[2]] + [e[3]] == e;
    var done := Run(t0, e).done;
    assert done[0] in done && done[1] == Done(0, t0, Some(1), false);
  }
}
