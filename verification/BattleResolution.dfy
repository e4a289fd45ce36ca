/**
 * One invocation's resolution of a duel (backend/lambda/src/battle-orchestrator.ts): which sides are told they did not
 * finish, which are handed a rebuttal, and from what instant the rebuttals are measured.
 */
module BattleResolution {
  import opened Prelude

  datatype State = Invoked | WaitingForUser | Finished | Failed | Abandoned

  /** A side's row as a read answered it. `stamp` is the readable instant it entered its state, if any. */
  datatype Row = Row(bot: string, state: State, reply: string, stamp: Option<int>)

  datatype Act = Notice(bot: string) | Dispatch(bot: string) | Close

  predicate Running(s: State) {
    s.Invoked? || s.WaitingForUser?
  }

  predicate AllTerminal(rows: seq<Row>) {
    rows != [] && forall k :: 0 <= k < |rows| ==> rows[k].state.Finished? || rows[k].state.Failed?
  }

  predicate Stalled(rows: seq<Row>, pastDue: set<string>) {
    exists k :: 0 <= k < |rows| && Running(rows[k].state) && rows[k].bot in pastDue
  }

  /** The round goes ahead: every side stopped on its own, or some side is running past its deadline. */
  predicate Proceeds(rows: seq<Row>, pastDue: set<string>) {
    rows != [] && (AllTerminal(rows) || Stalled(rows, pastDue))
  }

  predicate DistinctBots(rows: seq<Row>) {
    forall i, j :: 0 <= i < j < |rows| ==> rows[i].bot != rows[j].bot
  }

  function Completed(rows: seq<Row>): seq<Row> {
    Filter((r: Row) => r.state.Finished?, rows)
  }

  function NotFinished(rows: seq<Row>): seq<Row> {
    Filter((r: Row) => !r.state.Finished? && !r.state.Abandoned?, rows)
  }

  function NoticeActs(rows: seq<Row>): seq<Act> {
    Map((r: Row) => Notice(r.bot), NotFinished(rows))
  }

  function DispatchActs(rows: seq<Row>): seq<Act> {
    Map((r: Row) => Dispatch(r.bot), Completed(rows))
  }

  /** The rebuttals, or the closing line where no side finished. */
  function RoundActs(rows: seq<Row>): seq<Act> {
    if Completed(rows) == [] then [Close] else DispatchActs(rows)
  }

  function Resolution(rows: seq<Row>): seq<Act> {
    NoticeActs(rows) + RoundActs(rows)
  }

  /** Why a duel is recorded over. */
  datatype Reason = NoClassification | NoRouter | NoCompletion | RoundTwoDegraded | RoundTwoFull

  function ReasonOf(rows: seq<Row>): Reason {
    if Completed(rows) == [] then NoCompletion
    else if |Completed(rows)| < |rows| then RoundTwoDegraded else RoundTwoFull
  }

  /** What a rebuttal carries of the other side. */
  datatype Rebuttal = Rebuttal(bot: string, rival: Option<string>, rivalReply: string, rivalDidNotFinish: bool)

  function Rival(rows: seq<Row>, bot: string): (r: Option<Row>)
    ensures r.Some? ==> r.value in rows && r.value.bot != bot
    ensures r.None? ==> forall row :: row in rows ==> row.bot == bot
  {
    if rows == [] then None else if rows[0].bot != bot then Some(rows[0]) else Rival(rows[1..], bot)
  }

  function RebuttalOf(rows: seq<Row>, bot: string): Rebuttal {
    var rival := Rival(rows, bot);
    if rival.None? then Rebuttal(bot, None, "", true)
    else
      var finished := exists r :: r in Completed(rows) && r.bot == rival.value.bot;
      Rebuttal(bot, Some(rival.value.bot), rival.value.reply, !finished)
  }

  function Rebuttals(rows: seq<Row>): seq<Rebuttal> {
    Map((r: Row) => RebuttalOf(rows, r.bot), Completed(rows))
  }

  lemma TakeSnoc<T>(s: seq<T>, i: nat)
    requires i < |s|
    ensures s[..i + 1] == s[..i] + [s[i]]
  {
  }

  // ---------------------------------------------------------------- the resolution, step by step

  /** The sides that did not finish are told, one after another. */
  method NotifyAll(rows: seq<Row>) returns (acts: seq<Act>)
    ensures acts == NoticeActs(rows)
  {
    acts := [];
    var notFinished := NotFinished(rows);
    for i := 0 to |notFinished|
      invariant acts == NoticeActs(rows)[..i]
    {
      acts := acts + [Notice(notFinished[i].bot)];
    }
  }

  /** The sides that finished are handed their rebuttals. */
  method DispatchAll(rows: seq<Row>) returns (acts: seq<Act>, rebuttals: seq<Rebuttal>)
    ensures acts == DispatchActs(rows) && rebuttals == Rebuttals(rows)
  {
    acts, rebuttals := [], [];
    var completed := Completed(rows);
    for i := 0 to |completed|
      invariant acts == DispatchActs(rows)[..i] && rebuttals == Rebuttals(rows)[..i]
    {
      TakeSnoc(DispatchActs(rows), i);
      TakeSnoc(Rebuttals(rows), i);
      acts := acts + [Dispatch(completed[i].bot)];
      rebuttals := rebuttals + [RebuttalOf(rows, completed[i].bot)];
    }
  }

  method Resolve(rows: seq<Row>) returns (acts: seq<Act>, rebuttals: seq<Rebuttal>, reason: Reason)
    ensures acts == Resolution(rows) && rebuttals == Rebuttals(rows) && reason == ReasonOf(rows)
  {
    var completed := Completed(rows);
    acts := NotifyAll(rows);
    if completed == [] {
      return acts + [Close], [], NoCompletion;
    }
    var dispatched;
    dispatched, rebuttals := DispatchAll(rows);
    acts := acts + dispatched;
    reason := if |completed| < |rows| then RoundTwoDegraded else RoundTwoFull;
  }

  lemma CountMapped(f: Row -> Act, rows: seq<Row>, a: Act, k: nat)
    requires forall i, j :: 0 <= i < j < |rows| ==> f(rows[i]) != f(rows[j])
    requires k < |rows| && f(rows[k]) == a
    ensures multiset(Map(f, rows))[a] == 1
  {
    var mapped := Map(f, rows);
    assert Distinct(mapped);
    DistinctMultiset(mapped);
    assert mapped[k] in mapped;
    assert a in Elems(mapped);
  }

  lemma CountAbsent(acts: seq<Act>, a: Act)
    requires a !in acts
    ensures multiset(acts)[a] == 0
  {
    assert a !in multiset(acts);
  }

  lemma {:induction false} FilterKeepsDistinctBots(p: Row -> bool, rows: seq<Row>)
    requires DistinctBots(rows)
    ensures DistinctBots(Filter(p, rows))
  {
    if rows != [] {
      FilterKeepsDistinctBots(p, rows[1..]);
      forall r | r in rows[1..] ensures r.bot != rows[0].bot {
        var k :| 0 <= k < |rows[1..]| && rows[1..][k] == r;
        assert rows[k + 1].bot != rows[0].bot;
      }
      var rest := Filter(p, rows[1..]);
      forall k | 0 <= k < |rest| ensures rest[k].bot != rows[0].bot { assert rest[k] in rest; }
    }
  }

  lemma NoticeCount(rows: seq<Row>, k: nat)
    requires DistinctBots(rows) && k < |rows|
    ensures multiset(NoticeActs(rows))[Notice(rows[k].bot)] ==
            if rows[k].state.Finished? || rows[k].state.Abandoned? then 0 else 1
  {
    var p := (r: Row) => !r.state.Finished? && !r.state.Abandoned?;
    var kept := NotFinished(rows);
    FilterKeepsDistinctBots((r: Row) => !r.state.Finished? && !r.state.Abandoned?, rows);
    if rows[k] in kept {
      var i :| 0 <= i < |kept| && kept[i] == rows[k];
      CountMapped((r: Row) => Notice(r.bot), kept, Notice(rows[k].bot), i);
    } else {
      forall i | 0 <= i < |kept| ensures kept[i].bot != rows[k].bot { SameBotSameRow(rows, kept[i], k); }
      CountAbsent(NoticeActs(rows), Notice(rows[k].bot));
    }
  }

  lemma SameBotSameRow(rows: seq<Row>, r: Row, k: nat)
    requires DistinctBots(rows) && k < |rows| && r in rows
    ensures r.bot == rows[k].bot ==> r == rows[k]
  {
    var i :| 0 <= i < |rows| && rows[i] == r;
  }

  lemma DispatchCount(rows: seq<Row>, k: nat)
    requires DistinctBots(rows) && k < |rows|
    ensures multiset(RoundActs(rows))[Dispatch(rows[k].bot)] == if rows[k].state.Finished? then 1 else 0
  {
    var kept := Completed(rows);
    FilterKeepsDistinctBots((r: Row) => r.state.Finished?, rows);
    if rows[k] in kept {
      var i :| 0 <= i < |kept| && kept[i] == rows[k];
      CountMapped((r: Row) => Dispatch(r.bot), kept, Dispatch(rows[k].bot), i);
    } else {
      forall i | 0 <= i < |kept| ensures kept[i].bot != rows[k].bot { SameBotSameRow(rows, kept[i], k); }
      CountAbsent(RoundActs(rows), Dispatch(rows[k].bot));
    }
  }

  lemma OtherActs(rows: seq<Row>, bot: string)
    ensures Dispatch(bot) !in NoticeActs(rows) && Notice(bot) !in RoundActs(rows) && Close !in NoticeActs(rows)
    ensures Close in RoundActs(rows) <==> Completed(rows) == []
  {
  }

  /**
   * EXACTLY ONE ANSWER A SIDE. A resolution hands each side that finished one rebuttal, tells of each that neither
   * finished nor was abandoned once, and is silent of each that was abandoned; it closes exactly when none finished.
   */
  lemma ResolutionExactlyOnce(rows: seq<Row>, k: nat)
    requires DistinctBots(rows) && k < |rows|
    ensures var acts := multiset(Resolution(rows));
            && acts[Dispatch(rows[k].bot)] == (if rows[k].state.Finished? then 1 else 0)
            && acts[Notice(rows[k].bot)] == (if rows[k].state.Finished? || rows[k].state.Abandoned? then 0 else 1)
            && acts[Close] == (if Completed(rows) == [] then 1 else 0)
  {
    NoticeCount(rows, k);
    DispatchCount(rows, k);
    OtherActs(rows, rows[k].bot);
    CountAbsent(NoticeActs(rows), Dispatch(rows[k].bot));
    CountAbsent(RoundActs(rows), Notice(rows[k].bot));
    CountAbsent(NoticeActs(rows), Close);
    if Completed(rows) != [] { CountAbsent(RoundActs(rows), Close); }
  }

  /** An act names a side of the duel. */
  lemma ActsNameSides(rows: seq<Row>, a: Act)
    requires a in Resolution(rows) && !a.Close?
    ensures exists k :: 0 <= k < |rows| && rows[k].bot == a.bot
  {
    if a in NoticeActs(rows) {
      var i :| 0 <= i < |NotFinished(rows)| && NoticeActs(rows)[i] == a;
      assert NotFinished(rows)[i] in NotFinished(rows);
    } else {
      assert a in RoundActs(rows);
      var i :| 0 <= i < |RoundActs(rows)| && RoundActs(rows)[i] == a;
      assert Completed(rows)[i] in Completed(rows);
    }
  }

  /**
   * In a duel of two sides, each rebuttal carries the other side's reply, and says so when the other did not finish.
   */
  lemma TwoSidesRebutEachOther(rows: seq<Row>, i: nat, j: nat)
    requires |rows| == 2 && DistinctBots(rows) && i < 2 && j < 2 && i != j
    ensures RebuttalOf(rows, rows[i].bot) ==
            Rebuttal(rows[i].bot, Some(rows[j].bot), rows[j].reply, !rows[j].state.Finished?)
  {
    var rival := Rival(rows, rows[i].bot);
    assert rows[j] in rows;
    SameBotSameRow(rows, rival.value, j);
    forall r | r in Completed(rows) && r.bot == rows[j].bot ensures r == rows[j] { SameBotSameRow(rows, r, j); }
  }

  // ---------------------------------------------------------------- the reason and the rebuttals, side by side

  /** How many sides finished. */
  lemma {:induction false} CompletedCount(rows: seq<Row>)
    ensures |Completed(rows)| <= |rows|
    ensures |Completed(rows)| == |rows| <==> forall k :: 0 <= k < |rows| ==> rows[k].state == Finished
    ensures |Completed(rows)| == 0 <==> forall k :: 0 <= k < |rows| ==> rows[k].state != Finished
  {
    if rows != [] {
      CompletedCount(rows[1..]);
      assert forall k :: 0 < k < |rows| ==> rows[k] == rows[1..][k - 1];
    }
  }

  /** WHY A DUEL IS OVER: nobody finished, everybody did, or some did and some did not. */
  lemma ReasonIs(rows: seq<Row>)
    ensures ReasonOf(rows) == NoCompletion <==> forall k :: 0 <= k < |rows| ==> rows[k].state != Finished
    ensures ReasonOf(rows) == RoundTwoFull <==> rows != [] && forall k :: 0 <= k < |rows| ==> rows[k].state == Finished
    ensures ReasonOf(rows) == RoundTwoDegraded <==>
      && (exists k :: 0 <= k < |rows| && rows[k].state == Finished)
      && (exists k :: 0 <= k < |rows| && rows[k].state != Finished)
  {
    CompletedCount(rows);
    if rows != [] { assert rows[0].state == Finished || rows[0].state != Finished; }
  }

  /** The round goes ahead where every side finished or failed, or one still running is past its deadline. */
  lemma ProceedsIff(rows: seq<Row>, pastDue: set<string>)
    ensures Proceeds(rows, pastDue) <==>
      || (rows != [] && forall k :: 0 <= k < |rows| ==> rows[k].state == Finished || rows[k].state == Failed)
      || (exists k :: 0 <= k < |rows| && rows[k].bot in pastDue
                      && (rows[k].state == Invoked || rows[k].state == WaitingForUser))
  {
  }

  /** The first other side, in the order read. */
  predicate FirstOther(rows: seq<Row>, bot: string, j: nat) {
    j < |rows| && rows[j].bot != bot && forall k :: 0 <= k < j ==> rows[k].bot == bot
  }

  lemma {:induction false} RivalIsFirst(rows: seq<Row>, bot: string, j: nat)
    requires FirstOther(rows, bot, j)
    ensures Rival(rows, bot) == Some(rows[j])
  {
    if j > 0 {
      assert forall k :: 0 < k < |rows| ==> rows[k] == rows[1..][k - 1];
      RivalIsFirst(rows[1..], bot, j - 1);
    }
  }

  /** WHAT A REBUTTAL ANSWERS: the first other side read, its reply, and whether it did not finish. */
  lemma RebuttalAnswers(rows: seq<Row>, bot: string, j: nat)
    requires DistinctBots(rows) && FirstOther(rows, bot, j)
    ensures RebuttalOf(rows, bot) == Rebuttal(bot, Some(rows[j].bot), rows[j].reply, rows[j].state != Finished)
  {
    RivalIsFirst(rows, bot, j);
    assert rows[j] in rows;
    forall r | r in Completed(rows) && r.bot == rows[j].bot ensures r == rows[j] { SameBotSameRow(rows, r, j); }
  }

  /** A side alone is answered with no rival. */
  lemma AloneRebuts(rows: seq<Row>, bot: string)
    requires forall r :: r in rows ==> r.bot == bot
    ensures RebuttalOf(rows, bot) == Rebuttal(bot, None, "", true)
  {
  }

  /** The notices come first, and then the rebuttals or the closing line. */
  lemma KindsByPlace(rows: seq<Row>, k: nat)
    requires k < |Resolution(rows)|
    ensures var n := |NoticeActs(rows)|;
            && (k < n ==> Resolution(rows)[k] == NoticeActs(rows)[k] && Resolution(rows)[k].Notice?)
            && (k >= n ==> Resolution(rows)[k] == RoundActs(rows)[k - n] && !Resolution(rows)[k].Notice?)
  {
  }

  lemma NoticesComeFirst(rows: seq<Row>, i: nat, j: nat)
    requires i < j < |Resolution(rows)| && Resolution(rows)[j].Notice?
    ensures Resolution(rows)[i].Notice?
  {
    KindsByPlace(rows, i);
    KindsByPlace(rows, j);
  }

  /** Of two sides told, or of two handed a rebuttal, the one read first comes first. */
  lemma ActsInOrder(rows: seq<Row>, i: nat, j: nat) returns (p: nat, q: nat)
    requires i < j < |Resolution(rows)|
    requires (Resolution(rows)[i].Notice? && Resolution(rows)[j].Notice?)
          || (Resolution(rows)[i].Dispatch? && Resolution(rows)[j].Dispatch?)
    ensures p < q < |rows| && Resolution(rows)[i].bot == rows[p].bot && Resolution(rows)[j].bot == rows[q].bot
  {
    var n := |NoticeActs(rows)|;
    KindsByPlace(rows, i);
    KindsByPlace(rows, j);
    if Resolution(rows)[j].Notice? {
      p, q := FilterPlaces((r: Row) => !r.state.Finished? && !r.state.Abandoned?, rows, i, j);
    } else {
      p, q := FilterPlaces((r: Row) => r.state.Finished?, rows, i - n, j - n);
    }
  }

  /** A filter keeps order. */
  lemma {:induction false} FilterPlaces(keep: Row -> bool, rows: seq<Row>, i: nat, j: nat) returns (p: nat, q: nat)
    requires i < j < |Filter(keep, rows)|
    ensures p < q < |rows| && Filter(keep, rows)[i] == rows[p] && Filter(keep, rows)[j] == rows[q]
  {
    if keep(rows[0]) && i == 0 {
      p := 0;
      assert Filter(keep, rows)[j] in Filter(keep, rows[1..]);
      var k :| 0 <= k < |rows[1..]| && rows[1..][k] == Filter(keep, rows)[j];
      q := k + 1;
    } else {
      var d := if keep(rows[0]) then 1 else 0;
      p, q := FilterPlaces(keep, rows[1..], i - d, j - d);
      p, q := p + 1, q + 1;
    }
  }

  // ---------------------------------------------------------------- when the round was triggered

  /** The latest of the instants, or nothing when there is none or one cannot be read. */
  method RoundTwoTriggeredAtMs(stamps: seq<Option<int>>) returns (latest: Option<int>)
    ensures latest.None? <==> stamps == [] || None in stamps
    ensures latest.Some? ==> latest in stamps && forall k :: 0 <= k < |stamps| ==>
      stamps[k].Some? && stamps[k].value <= latest.value
  {
    if stamps == [] { return None; }
    latest := None;
    for i := 0 to |stamps|
      invariant latest.None? <==> i == 0
      invariant latest.Some? ==> latest in stamps
      invariant forall k :: 0 <= k < i ==> stamps[k].Some? && latest.Some? && stamps[k].value <= latest.value
    {
      var at := stamps[i];
      if at.None? { return None; }
      if latest.None? || at.value > latest.value { latest := at; }
    }
  }
}
