/**
 * Overlapping admin actions on one experiment row. A handler reads a version of the row, decides, and
 * writes under `optimisticGuard`; between the two, any other handler may write.
 */
module ExperimentProtocol {
  import opened Prelude
  import opened ExperimentRow
  import opened ExperimentLifecycle
  import opened ExperimentArming

  /**
   * The condition every write of an existing row carries: the row exists, holds the status that was read
   * (or none, where none was read), and its audit is absent or as long as the one that was read.
   */
  predicate GuardHolds(snapshot: Row, cell: Option<Row>) {
    && cell.Some?
    && cell.value.status == snapshot.status
    && (cell.value.transitions.None? || |cell.value.transitions.value| == |Audit(snapshot)|)
  }

  /** A handler between its read and its write. */
  datatype Flight = Flight(snapshot: Row, action: Action)

  /** A write that landed: what was asked, and what the decision read besides the row. */
  datatype Win = Win(action: Action, env: Env)

  /** The stored row, the handlers in flight, and the record of every version stored and every write that landed. */
  datatype Sys = Sys(cell: Option<Row>, flights: map<nat, Flight>, versions: seq<Row>, wins: seq<Win>)

  /**
   * `Begin` reads any version ever stored: the latest, as a strongly consistent read does, or an older one, as
   * the list's scan may. `Finish` decides and attempts the guarded write.
   */
  datatype Event = Begin(id: nat, version: nat, action: Action) | Finish(id: nat, env: Env)

  function Init(row: Row): Sys {
    Sys(Some(row), map[], [row], [])
  }

  function Write(s: Sys, f: Flight, env: Env): Sys {
    var verdict := Decide(Some(f.snapshot), f.action, env);
    if verdict.Refuse? || !GuardHolds(f.snapshot, s.cell) then s
    else if verdict.Drop? then s.(cell := None)
    else s.(cell := Some(verdict.row), versions := s.versions + [verdict.row], wins := s.wins + [Win(f.action, env)])
  }

  function Step(s: Sys, e: Event): Sys {
    match e
    case Begin(id, version, action) =>
      if id in s.flights || version >= |s.versions| then s
      else s.(flights := s.flights[id := Flight(s.versions[version], action)])
    case Finish(id, env) =>
      if id !in s.flights then s
      else Write(s, s.flights[id], env).(flights := s.flights - {id})
  }

  function Run(s: Sys, events: seq<Event>): Sys {
    if events == [] then s else Step(Run(s, events[..|events| - 1]), events[|events| - 1])
  }

  // ---------------------------------------------------------------- versions

  predicate Follows(versions: seq<Row>, wins: seq<Win>, k: nat)
    requires |versions| == |wins| + 1 && k < |wins|
  {
    Decide(Some(versions[k]), wins[k].action, wins[k].env) == Put(versions[k + 1])
  }

  /** Each version is the decision of its write on the version before it. */
  predicate Chain(row: Row, versions: seq<Row>, wins: seq<Win>) {
    && |versions| == |wins| + 1
    && versions[0] == row
    && (forall k :: 0 <= k < |wins| ==> Follows(versions, wins, k))
  }

  predicate Inv(row: Row, s: Sys) {
    && Chain(row, s.versions, s.wins)
    && (s.cell.Some? ==> s.cell.value == s.versions[|s.wins|])
    && (forall id :: id in s.flights ==> s.flights[id].snapshot in s.versions)
  }

  /** The audit's length is the version: each version appends one entry to the one before. */
  lemma {:induction false} VersionIsAuditLength(row: Row, versions: seq<Row>, wins: seq<Win>, k: nat)
    requires Chain(row, versions, wins) && k < |versions|
    ensures |Audit(versions[k])| == |Audit(row)| + k
    ensures k > 0 ==> versions[k].transitions.Some?
  {
    if k > 0 {
      VersionIsAuditLength(row, versions, wins, k - 1);
      assert Follows(versions, wins, k - 1);
      OneEntryPerWrite(versions[k - 1], wins[k - 1].action, wins[k - 1].env);
    }
  }

  lemma {:induction false} AuditOnlyGrows(row: Row, versions: seq<Row>, wins: seq<Win>, i: nat, j: nat)
    requires Chain(row, versions, wins) && i <= j < |versions|
    ensures Audit(versions[i]) <= Audit(versions[j])
    decreases j
  {
    if i < j {
      AuditOnlyGrows(row, versions, wins, i, j - 1);
      assert Follows(versions, wins, j - 1);
      OneEntryPerWrite(versions[j - 1], wins[j - 1].action, wins[j - 1].env);
    }
  }

  /** THE GUARD'S MEANING. A guard that holds for a version once read means the whole row is still that version. */
  lemma GuardMeansUnchanged(row: Row, s: Sys, snapshot: Row)
    requires Inv(row, s) && snapshot in s.versions && GuardHolds(snapshot, s.cell)
    ensures s.cell == Some(snapshot)
  {
    var i :| 0 <= i < |s.versions| && s.versions[i] == snapshot;
    VersionIsAuditLength(row, s.versions, s.wins, i);
    VersionIsAuditLength(row, s.versions, s.wins, |s.wins|);
  }

  lemma ChainExtends(row: Row, versions: seq<Row>, wins: seq<Win>, next: Row, win: Win)
    requires Chain(row, versions, wins)
    requires Decide(Some(versions[|wins|]), win.action, win.env) == Put(next)
    ensures Chain(row, versions + [next], wins + [win])
  {
    var vs, ws := versions + [next], wins + [win];
    forall k | 0 <= k < |ws| ensures Follows(vs, ws, k) {
      if k < |wins| {
        assert Follows(versions, wins, k);
        assert vs[k] == versions[k] && vs[k + 1] == versions[k + 1] && ws[k] == wins[k];
      }
    }
  }

  lemma StepKeepsInv(row: Row, s: Sys, e: Event)
    requires Inv(row, s)
    ensures Inv(row, Step(s, e))
  {
    if e.Finish? && e.id in s.flights {
      var f := s.flights[e.id];
      var verdict := Decide(Some(f.snapshot), f.action, e.env);
      if verdict.Put? && GuardHolds(f.snapshot, s.cell) {
        GuardMeansUnchanged(row, s, f.snapshot);
        ChainExtends(row, s.versions, s.wins, verdict.row, Win(f.action, e.env));
      }
    }
  }

  lemma {:induction false} RunKeepsInv(row: Row, events: seq<Event>)
    ensures Inv(row, Run(Init(row), events))
  {
    if events != [] {
      RunKeepsInv(row, events[..|events| - 1]);
      StepKeepsInv(row, Run(Init(row), events[..|events| - 1]), events[|events| - 1]);
    }
  }

  // ---------------------------------------------------------------- no lost update

  /** The writes that landed, applied one at a time with nothing between read and write. */
  function Serial(row: Row, wins: seq<Win>): Option<Row> {
    if wins == [] then Some(row)
    else
      var before := Serial(row, wins[..|wins| - 1]);
      var last := wins[|wins| - 1];
      if before.None? then None
      else
        var verdict := Decide(before, last.action, last.env);
        if verdict.Put? then Some(verdict.row) else None
  }

  lemma {:induction false} ChainIsSerial(row: Row, versions: seq<Row>, wins: seq<Win>, k: nat)
    requires Chain(row, versions, wins) && k <= |wins|
    ensures Serial(row, wins[..k]) == Some(versions[k])
  {
    if k > 0 {
      ChainIsSerial(row, versions, wins, k - 1);
      assert wins[..k][..k - 1] == wins[..k - 1];
      assert Follows(versions, wins, k - 1);
    }
  }

  /**
   * NO LOST UPDATE. Over every interleaving of handlers on one row, stale reads allowed: each snapshot's audit
   * is a prefix of the stored one; the stored row is the serial run of the writes that landed, one entry each;
   * and a write may land only on the very row it was decided from.
   */
  lemma NoLostUpdate(row: Row, events: seq<Event>)
    ensures var s := Run(Init(row), events);
            && s.versions != []
            && var last := s.versions[|s.versions| - 1];
            && (s.cell.Some? ==> s.cell.value == last)
            && Serial(row, s.wins) == Some(last)
            && |Audit(last)| == |Audit(row)| + |s.wins|
            && (forall id :: id in s.flights ==> Audit(s.flights[id].snapshot) <= Audit(last))
            && (forall id :: id in s.flights && GuardHolds(s.flights[id].snapshot, s.cell) ==>
                  s.cell == Some(s.flights[id].snapshot))
  {
    RunKeepsInv(row, events);
    var s := Run(Init(row), events);
    var n := |s.wins|;
    ChainIsSerial(row, s.versions, s.wins, n);
    assert s.wins[..n] == s.wins;
    VersionIsAuditLength(row, s.versions, s.wins, n);
    forall id | id in s.flights
      ensures Audit(s.flights[id].snapshot) <= Audit(s.versions[n])
      ensures GuardHolds(s.flights[id].snapshot, s.cell) ==> s.cell == Some(s.flights[id].snapshot)
    {
      var i :| 0 <= i < |s.versions| && s.versions[i] == s.flights[id].snapshot;
      AuditOnlyGrows(row, s.versions, s.wins, i, n);
      if GuardHolds(s.flights[id].snapshot, s.cell) { GuardMeansUnchanged(row, s, s.flights[id].snapshot); }
    }
  }

  /** One step leaves the stored row as it was, removes it, or appends one entry to it. */
  lemma EachWriteAppendsOne(row: Row, events: seq<Event>, e: Event)
    ensures var s := Run(Init(row), events);
            var s' := Step(s, e);
            || s'.cell == s.cell
            || s'.cell.None?
            || (s.cell.Some? && s'.cell.Some? && |Audit(s'.cell.value)| == |Audit(s.cell.value)| + 1
                && Audit(s.cell.value) <= Audit(s'.cell.value))
    ensures var s := Run(Init(row), events);
            e.Finish? && e.id in s.flights && !GuardHolds(s.flights[e.id].snapshot, s.cell) ==>
              && Step(s, e).cell == s.cell && Step(s, e).versions == s.versions && Step(s, e).wins == s.wins
  {
    RunKeepsInv(row, events);
    var s := Run(Init(row), events);
    if e.Finish? && e.id in s.flights {
      var f := s.flights[e.id];
      if GuardHolds(f.snapshot, s.cell) {
        GuardMeansUnchanged(row, s, f.snapshot);
        if Decide(Some(f.snapshot), f.action, e.env).Put? { OneEntryPerWrite(f.snapshot, f.action, e.env); }
      }
    }
  }

  // ---------------------------------------------------------------- runs of a row created through the API

  lemma NextReplays(before: Row, after: Row, win: Win)
    requires Replays(Audit(before), before.status)
    requires Decide(Some(before), win.action, win.env) == Put(after)
    ensures Replays(Audit(after), after.status)
  {
    WriteReplays(before, win.action, win.env);
  }

  predicate RowReplays(row: Row) {
    Replays(Audit(row), row.status)
  }

  lemma FollowReplays(versions: seq<Row>, wins: seq<Win>, k: nat)
    requires |versions| == |wins| + 1 && k < |wins| && Follows(versions, wins, k) && RowReplays(versions[k])
    ensures RowReplays(versions[k + 1])
  {
    NextReplays(versions[k], versions[k + 1], wins[k]);
  }

  /** What holds of the first and passes from each to the next holds of all. */
  lemma {:induction false} PassesOn<T>(p: T -> bool, vs: seq<T>, k: nat)
    requires k < |vs| && p(vs[0]) && forall i :: 0 <= i < |vs| - 1 && p(vs[i]) ==> p(vs[i + 1])
    ensures p(vs[k])
  {
    if k > 0 { PassesOn(p, vs, k - 1); }
  }

  lemma VersionsReplay(row: Row, versions: seq<Row>, wins: seq<Win>, k: nat)
    requires RowReplays(row) && Chain(row, versions, wins) && k < |versions|
    ensures RowReplays(versions[k])
  {
    forall i | 0 <= i < |versions| - 1 && RowReplays(versions[i]) ensures RowReplays(versions[i + 1]) {
      FollowReplays(versions, wins, i);
    }
    PassesOn(RowReplays, versions, k);
  }

  /** AUDIT REPLAY. Whatever handlers interleave on a created row, the stored audit replays to the stored status. */
  lemma AuditReplaysOverRuns(input: Input, env: Env, events: seq<Event>)
    requires Decide(None, Upsert(input), env).Put?
    ensures var s := Run(Init(Decide(None, Upsert(input), env).row), events);
            s.cell.Some? ==> Replays(Audit(s.cell.value), s.cell.value.status)
  {
    var row := Decide(None, Upsert(input), env).row;
    CreationReplays(input, env);
    RunKeepsInv(row, events);
    var s := Run(Init(row), events);
    VersionsReplay(row, s.versions, s.wins, |s.wins|);
  }

  lemma EndedAudit(row: Row, k: nat)
    requires Replays(Audit(row), row.status) && k < |Audit(row)| && Audit(row)[k].to in {Completed, Deleted}
    ensures row.status == Some(if k == |Audit(row)| - 1 then Audit(row)[k].to else Deleted)
  {
    var last := |Audit(row)| - 1;
    if k < last { TerminalStaysTerminal(Audit(row), row.status, k, last); }
  }

  /**
   * ENDED MEANS ENDED. A row whose audit ever reached completed or deleted is one of them now, however stale the
   * writers.
   */
  lemma EndedStaysEnded(input: Input, env: Env, events: seq<Event>, row: Row, k: nat)
    requires Decide(None, Upsert(input), env).Put?
    requires Run(Init(Decide(None, Upsert(input), env).row), events).cell == Some(row)
    requires k < |Audit(row)| && Audit(row)[k].to in {Completed, Deleted}
    ensures row.status == Some(if k == |Audit(row)| - 1 then Audit(row)[k].to else Deleted)
  {
    AuditReplaysOverRuns(input, env, events);
    EndedAudit(row, k);
  }

  /** A hard delete removes only a row whose whole audit is draft, whatever else was in flight. */
  lemma HardDeleteOnlyDrafts(input: Input, env: Env, events: seq<Event>, e: Event)
    requires Decide(None, Upsert(input), env).Put?
    ensures var s := Run(Init(Decide(None, Upsert(input), env).row), events);
            s.cell.Some? && Step(s, e).cell.None? ==>
              forall k :: 0 <= k < |Audit(s.cell.value)| ==> Audit(s.cell.value)[k].to == Draft
  {
    var row := Decide(None, Upsert(input), env).row;
    RunKeepsInv(row, events);
    AuditReplaysOverRuns(input, env, events);
    var s := Run(Init(row), events);
    if s.cell.Some? && Step(s, e).cell.None? {
      var f := s.flights[e.id];
      GuardMeansUnchanged(row, s, f.snapshot);
      DropOnlyNeverStarted(f.snapshot, f.action, e.env);
    }
  }

  lemma {:induction false} VersionsKeepRowInv(row: Row, versions: seq<Row>, wins: seq<Win>, k: nat)
    requires RowInv(row)
    requires Chain(row, versions, wins) && k < |versions|
    ensures RowInv(versions[k])
  {
    if k > 0 {
      VersionsKeepRowInv(row, versions, wins, k - 1);
      assert Follows(versions, wins, k - 1);
      WriteKeepsRowInv(versions[k - 1], wins[k - 1].action, wins[k - 1].env);
    }
  }

  /**
   * ARMED ROWS STAY PINNED. On every run of a created row, an active row serves a pinned control and a pinned
   * treatment.
   */
  lemma ActiveIsPinnedOverRuns(input: Input, env: Env, events: seq<Event>)
    requires Decide(None, Upsert(input), env).Put?
    ensures var s := Run(Init(Decide(None, Upsert(input), env).row), events);
            s.cell.Some? ==> RowInv(s.cell.value)
  {
    var row := Decide(None, Upsert(input), env).row;
    CreationKeepsRowInv(input, env);
    RunKeepsInv(row, events);
    var s := Run(Init(row), events);
    VersionsKeepRowInv(row, s.versions, s.wins, |s.wins|);
  }

  // ---------------------------------------------------------------- the comparison since the last arming

  /** The row stored after `wins[k]` was armed by it. */
  predicate ArmedAt(versions: seq<Row>, wins: seq<Win>, k: nat)
    requires |versions| == |wins| + 1 && k < |wins|
  {
    ArmsRow(Some(versions[k]), wins[k].action, wins[k].env)
  }

  /** Nothing armed the row again between two of its versions. */
  predicate Unarmed(versions: seq<Row>, wins: seq<Win>, i: nat, j: nat)
    requires |versions| == |wins| + 1 && j <= |wins|
  {
    forall k :: i <= k < j ==> !ArmedAt(versions, wins, k)
  }

  /** Every edit among the writes names each of its variants once. */
  predicate EditsDistinct(wins: seq<Win>, i: nat, j: nat)
    requires j <= |wins|
  {
    forall k :: i <= k < j && wins[k].action.Upsert? ==> DistinctIds(wins[k].action.input.variants)
  }

  /** One write between armings: it keeps the row armed, and draws on what the row compares. */
  lemma NextDraws(row: Row, versions: seq<Row>, wins: seq<Win>, k: nat)
    requires RowInv(row) && Chain(row, versions, wins) && k < |wins|
    requires versions[k].servesVersions && !ArmedAt(versions, wins, k)
    ensures versions[k + 1].servesVersions && DrawnFrom(versions[k + 1], versions[k])
    ensures var action := wins[k].action;
            DistinctIds(versions[k + 1].variants)
            <==> DistinctIds(if action.Upsert? then action.input.variants else versions[k].variants)
  {
    VersionsKeepRowInv(row, versions, wins, k);
    assert Follows(versions, wins, k);
    WriteDraws(versions[k], wins[k].action, wins[k].env);
    ArmedStaysArmed(versions[k], wins[k].action, wins[k].env);
  }

  lemma {:induction false} VersionsDraw(row: Row, versions: seq<Row>, wins: seq<Win>, i: nat, j: nat)
    requires RowInv(row) && Chain(row, versions, wins) && i <= j <= |wins|
    requires versions[i].servesVersions && Unarmed(versions, wins, i, j)
    ensures versions[j].servesVersions && DrawnFrom(versions[j], versions[i])
    decreases j
  {
    if i < j {
      VersionsDraw(row, versions, wins, i, j - 1);
      assert !ArmedAt(versions, wins, j - 1);
      NextDraws(row, versions, wins, j - 1);
    }
  }

  /** Where every edit names each variant once, every version in between does, and compares the same. */
  lemma {:induction false} DistinctEditsKeep(row: Row, versions: seq<Row>, wins: seq<Win>, i: nat, j: nat)
    requires RowInv(row) && Chain(row, versions, wins) && i <= j <= |wins|
    requires versions[i].servesVersions && DistinctIds(versions[i].variants) && Unarmed(versions, wins, i, j)
    requires EditsDistinct(wins, i, j)
    ensures DistinctIds(versions[j].variants) && SameComparison(versions[j], versions[i])
    decreases j
  {
    if i < j {
      DistinctEditsKeep(row, versions, wins, i, j - 1);
      VersionsDraw(row, versions, wins, i, j - 1);
      assert !ArmedAt(versions, wins, j - 1);
      NextDraws(row, versions, wins, j - 1);
      NextKeeps(row, versions, wins, j - 1);
    }
  }

  lemma NextKeeps(row: Row, versions: seq<Row>, wins: seq<Win>, k: nat)
    requires RowInv(row) && Chain(row, versions, wins) && k < |wins|
    requires versions[k].servesVersions && DistinctIds(versions[k].variants) && !ArmedAt(versions, wins, k)
    requires wins[k].action.Upsert? ==> DistinctIds(wins[k].action.input.variants)
    ensures SameComparison(versions[k + 1], versions[k])
  {
    VersionsKeepRowInv(row, versions, wins, k);
    assert Follows(versions, wins, k);
    WriteKeepsComparison(versions[k], wins[k].action, wins[k].env);
  }

  /** A configuration an edit loses is never stored again until the row is armed. */
  lemma SameMeansDistinct(row: Row, versions: seq<Row>, wins: seq<Win>, i: nat, j: nat, k: nat)
    requires RowInv(row) && Chain(row, versions, wins) && i <= k < j <= |wins|
    requires versions[i].servesVersions && DistinctIds(versions[i].variants) && Unarmed(versions, wins, i, j)
    requires SameComparison(versions[j], versions[i]) && wins[k].action.Upsert?
    ensures DistinctIds(wins[k].action.input.variants)
  {
    VersionsDraw(row, versions, wins, i, k);
    assert !ArmedAt(versions, wins, k);
    NextDraws(row, versions, wins, k);
    VersionsDraw(row, versions, wins, i, k + 1);
    VersionsDraw(row, versions, wins, k + 1, j);
    MultisetElems(Identities(versions[j].variants), Identities(versions[i].variants));
    DrawnWhole(versions[k + 1].variants, versions[i].variants);
  }

  /**
   * THE COMPARISON SINCE THE LAST ARMING. From an armed version that names each variant once to any later one before
   * the row is armed again, through edits, pauses and lost races: the row compares what it compared exactly when every
   * edit that landed between names each of its variants once.
   */
  lemma ComparisonHoldsSinceArming(input: Input, env: Env, events: seq<Event>, i: nat, j: nat)
    requires Decide(None, Upsert(input), env).Put?
    requires var s := Run(Init(Decide(None, Upsert(input), env).row), events);
             && i <= j < |s.versions| && |s.versions| == |s.wins| + 1
             && s.versions[i].servesVersions && DistinctIds(s.versions[i].variants)
             && Unarmed(s.versions, s.wins, i, j)
    ensures var s := Run(Init(Decide(None, Upsert(input), env).row), events);
            && s.versions[j].servesVersions
            && (SameComparison(s.versions[j], s.versions[i]) <==> EditsDistinct(s.wins, i, j))
  {
    var row := Decide(None, Upsert(input), env).row;
    CreationKeepsRowInv(input, env);
    RunKeepsInv(row, events);
    var s := Run(Init(row), events);
    VersionsDraw(row, s.versions, s.wins, i, j);
    if EditsDistinct(s.wins, i, j) { DistinctEditsKeep(row, s.versions, s.wins, i, j); }
    if SameComparison(s.versions[j], s.versions[i]) {
      forall k | i <= k < j && s.wins[k].action.Upsert? ensures DistinctIds(s.wins[k].action.input.variants) {
        SameMeansDistinct(row, s.versions, s.wins, i, j, k);
      }
    }
  }
}
