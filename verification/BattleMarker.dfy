/**
 * When the marker of a duel's end tells the truth (backend/lambda/src/battle-orchestrator.ts, emitBattleComplete): an
 * invocation that declines writes it without the claim, so another may still hand the round out.
 */
module BattleMarker {
  import opened Prelude
  import opened BattleResolution
  import opened BattleProtocol

  /** The marker says the duel was declined. */
  predicate SaysDeclined(s: Sys) {
    s.complete.Some? && Declines(s.complete.value.reason)
  }

  /**
   * The marker is true: of a decline, nothing was said or handed out; of a resolution, all its rows called for was, and
   * why.
   */
  predicate MarkerTrue(s: Sys) {
    s.complete.Some? ==>
      if Declines(s.complete.value.reason) then s.log == []
      else Acts(s.log) == multiset(Resolution(s.won)) && s.complete.value.reason == ReasonOf(s.won)
  }

  /** Nothing was said or handed out, and the claim is taken by someone who will do neither. */
  predicate Silenced(s: Sys) {
    && s.log == [] && s.claim.Some?
    && (s.claim.value.Orchestrator? ==>
          var id := s.claim.value.id; id in s.phases ==> !s.phases[id].Resolving?)
  }

  predicate Declining(e: Event) {
    e.Identify? && !(e.classified && e.routed)
  }

  predicate DeclineFree(events: seq<Event>) {
    forall k :: 0 <= k < |events| ==> !Declining(events[k])
  }

  /** Whatever follows that declines nothing more, the marker is true. */
  ghost predicate StaysTrue(events: seq<Event>) {
    forall more :: DeclineFree(more) ==> MarkerTrue(Run(events + more))
  }

  lemma RunSnoc(events: seq<Event>, e: Event)
    ensures Run(events + [e]) == Step(Run(events), e)
  {
    assert (events + [e])[..|events|] == events;
  }

  // ---------------------------------------------------------------- a marker that stays true

  lemma LogFrame(s: Sys, e: Event)
    requires !ChangesLog(s, e)
    ensures Step(s, e).log == s.log
  {
  }

  /** No invocation comes to resolve under a claim already taken. */
  lemma ResolvingFrame(s: Sys, e: Event, id: nat)
    requires s.claim.Some? && id in Step(s, e).phases && Step(s, e).phases[id].Resolving?
    ensures id in s.phases && s.phases[id].Resolving?
  {
  }

  lemma ActsUnderClaim(s: Sys, e: Event)
    requires PhasesInv(s) && ChangesLog(s, e)
    ensures s.claim == Some(Orchestrator(e.id)) && e.id in s.phases && s.phases[e.id].Resolving?
  {
    assert PhaseInv(s, e.id);
  }

  lemma SilencedStays(s: Sys, e: Event)
    requires PhasesInv(s) && Silenced(s)
    ensures Silenced(Step(s, e))
  {
    WonFrame(s, e);
    if ChangesLog(s, e) { ActsUnderClaim(s, e); } else { LogFrame(s, e); }
    if s.claim.value.Orchestrator? {
      var id := s.claim.value.id;
      if id in Step(s, e).phases && Step(s, e).phases[id].Resolving? { ResolvingFrame(s, e, id); }
    }
  }

  lemma DeclineSaidByDecline(s: Sys, e: Event)
    requires !SaysDeclined(s) && !Declining(e)
    ensures !SaysDeclined(Step(s, e))
  {
  }

  lemma {:induction false} SilencedOn(events: seq<Event>, more: seq<Event>)
    requires Silenced(Run(events))
    ensures Silenced(Run(events + more))
  {
    if more == [] {
      assert events + more == events;
    } else {
      var n := |more| - 1;
      SilencedOn(events, more[..n]);
      assert events + more == events + more[..n] + [more[n]];
      RunSnoc(events + more[..n], more[n]);
      RunKeepsInv(events + more[..n]);
      SilencedStays(Run(events + more[..n]), more[n]);
    }
  }

  lemma {:induction false} UndeclinedOn(events: seq<Event>, more: seq<Event>)
    requires !SaysDeclined(Run(events)) && DeclineFree(more)
    ensures !SaysDeclined(Run(events + more))
  {
    if more == [] {
      assert events + more == events;
    } else {
      var n := |more| - 1;
      UndeclinedOn(events, more[..n]);
      assert events + more == events + more[..n] + [more[n]];
      RunSnoc(events + more[..n], more[n]);
      DeclineSaidByDecline(Run(events + more[..n]), more[n]);
    }
  }

  lemma UndeclinedIsTrue(events: seq<Event>)
    requires !SaysDeclined(Run(events))
    ensures MarkerTrue(Run(events))
  {
    if Run(events).complete.Some? { ResolutionMarkIsTrue(events); }
  }

  // ---------------------------------------------------------------- prompt continuations

  /** The rows are the sides, each once. */
  predicate ReadsSides(sides: map<string, State>, rows: seq<Row>) {
    && DistinctBots(rows)
    && (forall k :: 0 <= k < |rows| ==> rows[k].bot in sides && sides[rows[k].bot] == rows[k].state)
    && (forall bot :: bot in sides ==> exists k :: 0 <= k < |rows| && rows[k].bot == bot)
  }

  /** A step that declines nothing; and a read answers the sides as they stand, none of them past its deadline. */
  predicate Prompt(s: Sys, e: Event) {
    !Declining(e) && (e.Read? ==> e.pastDue == {} && ReadsSides(s.sides, e.rows))
  }

  predicate PromptAt(events: seq<Event>, more: seq<Event>, k: nat)
    requires k < |more|
  {
    Prompt(Run(events + more[..k]), more[k])
  }

  predicate AllPrompt(events: seq<Event>, more: seq<Event>) {
    forall k :: 0 <= k < |more| ==> PromptAt(events, more, k)
  }

  lemma PromptDeclinesNothing(events: seq<Event>, more: seq<Event>)
    requires AllPrompt(events, more)
    ensures DeclineFree(more)
  {
    forall k | 0 <= k < |more| ensures !Declining(more[k]) { assert PromptAt(events, more, k); }
  }

  lemma PromptBefore(events: seq<Event>, more: seq<Event>, n: nat, k: nat)
    requires k < n <= |more| && PromptAt(events, more, k)
    ensures PromptAt(events, more[..n], k)
  {
    assert more[..n][..k] == more[..k] && more[..n][k] == more[k];
  }

  lemma RunLast(events: seq<Event>, more: seq<Event>)
    requires more != []
    ensures var n := |more| - 1; Run(events + more) == Step(Run(events + more[..n]), more[n])
  {
    var n := |more| - 1;
    assert events + more == events + more[..n] + [more[n]];
    RunSnoc(events + more[..n], more[n]);
  }

  lemma PromptTake(events: seq<Event>, more: seq<Event>)
    requires AllPrompt(events, more) && more != []
    ensures var n := |more| - 1; AllPrompt(events, more[..n]) && Prompt(Run(events + more[..n]), more[n])
  {
    var n := |more| - 1;
    forall k | 0 <= k < n ensures PromptAt(events, more[..n], k) {
      assert PromptAt(events, more, k);
      PromptBefore(events, more, n, k);
    }
    assert PromptAt(events, more, n);
  }

  // ---------------------------------------------------------------- a marker that may yet be false

  /** Something is said or handed out, now or after events that decline nothing. */
  ghost predicate CanSpeak(events: seq<Event>) {
    exists more :: DeclineFree(more) && Run(events + more).log != []
  }

  /** So it is after events that are all prompt. */
  ghost predicate CanSpeakPromptly(events: seq<Event>) {
    exists more :: AllPrompt(events, more) && Run(events + more).log != []
  }

  lemma PromptlySpeaks(events: seq<Event>)
    requires CanSpeakPromptly(events)
    ensures CanSpeak(events)
  {
    var more :| AllPrompt(events, more) && Run(events + more).log != [];
    PromptDeclinesNothing(events, more);
  }

  lemma SpeaksNow(events: seq<Event>)
    requires Run(events).log != []
    ensures CanSpeakPromptly(events)
  {
    assert events + [] == events;
    assert AllPrompt(events, []);
  }

  lemma PromptShift(events: seq<Event>, e: Event, more: seq<Event>, k: nat)
    requires k < |more| && PromptAt(events + [e], more, k)
    ensures PromptAt(events, [e] + more, k + 1)
  {
    assert events + ([e] + more)[..k + 1] == events + [e] + more[..k];
  }

  lemma PromptFirst(events: seq<Event>, e: Event, more: seq<Event>)
    requires Prompt(Run(events), e)
    ensures PromptAt(events, [e] + more, 0)
  {
    assert events + ([e] + more)[..0] == events;
  }

  lemma PromptAfter(events: seq<Event>, e: Event)
    requires Prompt(Run(events), e) && CanSpeakPromptly(events + [e])
    ensures CanSpeakPromptly(events)
  {
    var more :| AllPrompt(events + [e], more) && Run(events + [e] + more).log != [];
    var all := [e] + more;
    assert events + [e] + more == events + all;
    forall k | 0 <= k < |all| ensures PromptAt(events, all, k) {
      if k == 0 {
        PromptFirst(events, e, more);
      } else {
        assert PromptAt(events + [e], more, k - 1);
        PromptShift(events, e, more, k - 1);
      }
    }
  }

  lemma SpeaksAfter(events: seq<Event>, e: Event)
    requires !Declining(e) && CanSpeak(events + [e])
    ensures CanSpeak(events)
  {
    var more :| DeclineFree(more) && Run(events + [e] + more).log != [];
    assert events + [e] + more == events + ([e] + more);
    assert DeclineFree([e] + more);
  }

  lemma LeftToDo(s: Sys, id: nat)
    requires Inv(s) && s.log == [] && id in s.phases && s.phases[id].Resolving?
    ensures s.phases[id].notices != [] || s.phases[id].round != multiset{}
  {
    assert PhaseInv(s, id);
    assert s.won != [] && s.plan == Resolution(s.won);
    ResolutionActs(s.won);
    assert s.plan[0] in multiset(s.plan);
  }

  lemma ResolutionActs(rows: seq<Row>)
    ensures Resolution(rows) != []
  {
    if Completed(rows) != [] { assert |DispatchActs(rows)| == |Completed(rows)|; }
  }

  lemma NotifyLogs(s: Sys, id: nat)
    requires CanNotify(s, id)
    ensures Step(s, Notify(id)).log != []
  {
  }

  lemma HandLogs(s: Sys, id: nat, act: Act)
    requires CanHand(s, id, act)
    ensures Step(s, Hand(id, act)).log != []
  {
  }

  lemma LogsSpeaks(events: seq<Event>, e: Event)
    requires Prompt(Run(events), e) && Step(Run(events), e).log != []
    ensures CanSpeakPromptly(events)
  {
    RunSnoc(events, e);
    SpeaksNow(events + [e]);
    PromptAfter(events, e);
  }

  lemma ResolvingSpeaks(events: seq<Event>, id: nat)
    requires id in Run(events).phases && Run(events).phases[id].Resolving?
    ensures CanSpeakPromptly(events)
  {
    var s := Run(events);
    if s.log != [] {
      SpeaksNow(events);
    } else {
      RunKeepsInv(events);
      LeftToDo(s, id);
      if s.phases[id].notices != [] {
        NotifyLogs(s, id);
        LogsSpeaks(events, Notify(id));
      } else {
        var act :| act in s.phases[id].round;
        HandLogs(s, id, act);
        LogsSpeaks(events, Hand(id, act));
      }
    }
  }

  lemma ClaimResolves(s: Sys, id: nat)
    requires id in s.phases && s.phases[id].Claiming? && s.claim.None?
    ensures var t := Step(s, Claim(id, NoFault)); id in t.phases && t.phases[id].Resolving?
  {
  }

  lemma ClaimingSpeaks(events: seq<Event>, id: nat)
    requires id in Run(events).phases && Run(events).phases[id].Claiming? && Run(events).claim.None?
    ensures CanSpeakPromptly(events)
  {
    RunSnoc(events, Claim(id, NoFault));
    ClaimResolves(Run(events), id);
    ResolvingSpeaks(events + [Claim(id, NoFault)], id);
    PromptAfter(events, Claim(id, NoFault));
  }

  lemma ListsOneMore(sides: map<string, State>, bot: string, before: seq<Row>)
    requires bot in sides && ReadsSides(sides - {bot}, before)
    ensures ReadsSides(sides, before + [Row(bot, sides[bot], "", None)])
  {
    var rest, rows := sides - {bot}, before + [Row(bot, sides[bot], "", None)];
    forall other | other in sides ensures exists k :: 0 <= k < |rows| && rows[k].bot == other {
      if other == bot {
        assert rows[|before|].bot == bot;
      } else {
        assert other in rest;
        var k :| 0 <= k < |before| && before[k].bot == other;
        assert rows[k].bot == other;
      }
    }
  }

  /** Any sides can be listed. */
  lemma {:induction false} ListsSides(sides: map<string, State>) returns (rows: seq<Row>)
    ensures ReadsSides(sides, rows)
    decreases |sides|
  {
    if sides == map[] {
      rows := [];
    } else {
      var bot :| bot in sides;
      assert (sides - {bot}).Keys == sides.Keys - {bot};
      var before := ListsSides(sides - {bot});
      ListsOneMore(sides, bot, before);
      rows := before + [Row(bot, sides[bot], "", None)];
    }
  }

  lemma ReadsLast(s: Sys, rows: seq<Row>)
    requires VersionsInv(s) && ReadsSides(s.sides, rows)
    ensures MayRead(s, rows)
  {
    forall k | 0 <= k < |rows| ensures Stood(s.versions, rows[k].bot, rows[k].state) {
      assert s.versions[|s.versions| - 1] == s.sides;
    }
  }

  lemma ReadProceeds(s: Sys, id: nat, rows: seq<Row>, pastDue: set<string>)
    requires VersionsInv(s) && ReadsSides(s.sides, rows) && Proceeds(rows, pastDue)
    requires id in s.phases && s.phases[id].Reading?
    ensures var t := Step(s, Read(id, rows, pastDue));
            id in t.phases && t.phases[id].Claiming? && t.claim == s.claim
  {
    ReadsLast(s, rows);
  }

  // ---------------------------------------------------------------- the running sides stop

  predicate NoneAbandoned(s: Sys) {
    forall bot :: bot in s.sides ==> !s.sides[bot].Abandoned?
  }

  function RunningSides(s: Sys): set<string> {
    set bot | bot in s.sides && Running(s.sides[bot])
  }

  lemma SideStops(s: Sys, bot: string)
    requires bot in RunningSides(s) || s.sides == map[]
    ensures var t := Step(s, Stop(bot, Finished));
            && t.claim == s.claim && t.phases == s.phases && t.sides == s.sides[bot := Finished]
            && RunningSides(t) == RunningSides(s) - {bot} && (NoneAbandoned(s) ==> NoneAbandoned(t))
  {
  }

  lemma AllStopped(s: Sys, rows: seq<Row>)
    requires NoneAbandoned(s) && RunningSides(s) == {} && s.sides != map[] && ReadsSides(s.sides, rows)
    ensures Proceeds(rows, {})
  {
    forall k | 0 <= k < |rows| ensures rows[k].state.Finished? || rows[k].state.Failed? {
      assert rows[k].bot !in RunningSides(s);
    }
    var bot :| bot in s.sides;
    var k :| 0 <= k < |rows| && rows[k].bot == bot;
  }

  /** Where no side is abandoned and the claim is free, the running sides stop and another invocation reads them so. */
  lemma {:induction false} StoppingSpeaks(events: seq<Event>)
    requires Run(events).claim.None? && NoneAbandoned(Run(events)) && Run(events).sides != map[]
    ensures CanSpeakPromptly(events)
    decreases |RunningSides(Run(events))|
  {
    var s := Run(events);
    if RunningSides(s) != {} {
      var bot :| bot in RunningSides(s);
      RunSnoc(events, Stop(bot, Finished));
      SideStops(s, bot);
      StoppingSpeaks(events + [Stop(bot, Finished)]);
      PromptAfter(events, Stop(bot, Finished));
    } else {
      StoppedSpeaks(events);
    }
  }

  lemma InvokedReads(s: Sys, id: nat)
    requires id !in s.phases
    ensures var t := Step(Step(s, Invoke(id)), Identify(id, true, true));
            t.claim == s.claim && t.sides == s.sides && id in t.phases && t.phases[id].Reading?
  {
  }

  lemma StoppedSpeaks(events: seq<Event>)
    requires Run(events).claim.None? && NoneAbandoned(Run(events))
    requires Run(events).sides != map[] && RunningSides(Run(events)) == {}
    ensures CanSpeakPromptly(events)
  {
    var id := FreshId(Run(events).phases.Keys);
    var called := events + [Invoke(id)];
    var reading := called + [Identify(id, true, true)];
    RunSnoc(events, Invoke(id));
    RunSnoc(called, Identify(id, true, true));
    InvokedReads(Run(events), id);
    assert RunningSides(Run(reading)) == {};
    StoppedReads(reading, id);
    PromptAfter(called, Identify(id, true, true));
    PromptAfter(events, Invoke(id));
  }

  lemma StoppedReads(events: seq<Event>, id: nat)
    requires id in Run(events).phases && Run(events).phases[id].Reading? && Run(events).claim.None?
    requires NoneAbandoned(Run(events)) && Run(events).sides != map[] && RunningSides(Run(events)) == {}
    ensures CanSpeakPromptly(events)
  {
    RunKeepsInv(events);
    var rows := ListsSides(Run(events).sides);
    AllStopped(Run(events), rows);
    ReadProceeds(Run(events), id, rows, {});
    RunSnoc(events, Read(id, rows, {}));
    ClaimingSpeaks(events + [Read(id, rows, {})], id);
    PromptAfter(events, Read(id, rows, {}));
  }

  lemma UnabandonedSpeaks(events: seq<Event>)
    requires Run(events).claim.None? && NoneAbandoned(Run(events))
    ensures CanSpeakPromptly(events)
  {
    if Run(events).sides == map[] {
      RunSnoc(events, Stop("a", Finished));
      SideStops(Run(events), "a");
      StoppingSpeaks(events + [Stop("a", Finished)]);
      PromptAfter(events, Stop("a", Finished));
    } else {
      StoppingSpeaks(events);
    }
  }

  // ---------------------------------------------------------------- an abandoned side

  /** The claim is free, but an abandoned side holds the round back and no invocation has read past it. */
  predicate Blocked(s: Sys) {
    s.log == [] && s.claim.None? && !NoneAbandoned(s) && forall id :: id in s.phases ==> !s.phases[id].Claiming?
  }

  lemma AbandonedHolds(s: Sys, rows: seq<Row>)
    requires !NoneAbandoned(s) && ReadsSides(s.sides, rows)
    ensures !Proceeds(rows, {})
  {
    var bot :| bot in s.sides && s.sides[bot].Abandoned?;
    var k :| 0 <= k < |rows| && rows[k].bot == bot;
  }

  lemma AbandonedStays(s: Sys, e: Event)
    requires !NoneAbandoned(s)
    ensures !NoneAbandoned(Step(s, e))
  {
    var bot :| bot in s.sides && s.sides[bot].Abandoned?;
    StepKeepsStopped(s, e, bot);
  }

  lemma NothingClaims(s: Sys, e: Event)
    requires Blocked(s) && Prompt(s, e)
    ensures forall id :: id in Step(s, e).phases ==> !Step(s, e).phases[id].Claiming?
    ensures Step(s, e).claim.None? || Step(s, e).claim == Some(Ender)
  {
    if e.Read? { AbandonedHolds(s, e.rows); }
  }

  lemma BlockedStays(s: Sys, e: Event)
    requires PhasesInv(s) && Blocked(s) && Prompt(s, e)
    ensures Blocked(Step(s, e)) || Silenced(Step(s, e))
  {
    AbandonedStays(s, e);
    NothingClaims(s, e);
    if ChangesLog(s, e) { ActsUnderClaim(s, e); } else { LogFrame(s, e); }
  }

  lemma {:induction false} BlockedOn(events: seq<Event>, more: seq<Event>)
    requires Blocked(Run(events)) && AllPrompt(events, more)
    ensures Blocked(Run(events + more)) || Silenced(Run(events + more))
  {
    if more == [] {
      assert events + more == events;
    } else {
      var n := |more| - 1;
      PromptTake(events, more);
      RunLast(events, more);
      BlockedOn(events, more[..n]);
      RunKeepsInv(events + more[..n]);
      if Blocked(Run(events + more[..n])) {
        BlockedStays(Run(events + more[..n]), more[n]);
      } else {
        SilencedStays(Run(events + more[..n]), more[n]);
      }
    }
  }

  lemma ReadingSpeaks(events: seq<Event>, id: nat, bot: string)
    requires id in Run(events).phases && Run(events).phases[id].Reading? && Run(events).claim.None?
    requires bot in Run(events).sides && Running(Run(events).sides[bot])
    ensures CanSpeak(events)
  {
    RunKeepsInv(events);
    var rows := ListsSides(Run(events).sides);
    var k :| 0 <= k < |rows| && rows[k].bot == bot;
    assert Stalled(rows, {bot});
    ReadProceeds(Run(events), id, rows, {bot});
    RunSnoc(events, Read(id, rows, {bot}));
    ClaimingSpeaks(events + [Read(id, rows, {bot})], id);
    PromptlySpeaks(events + [Read(id, rows, {bot})]);
    SpeaksAfter(events, Read(id, rows, {bot}));
  }

  lemma {:induction false} FreshName(names: set<string>) returns (name: string)
    ensures forall x :: x in names ==> |x| < |name|
  {
    if names == {} {
      name := "";
    } else {
      var x :| x in names;
      name := FreshName(names - {x});
      name := name + x + "x";
    }
  }

  lemma {:induction false} FreshId(ids: set<nat>) returns (id: nat)
    ensures forall x :: x in ids ==> x < id
  {
    if ids == {} {
      id := 0;
    } else {
      var x :| x in ids;
      var before := FreshId(ids - {x});
      id := before + x + 1;
      forall y | y in ids ensures y < id { assert y == x || y in ids - {x}; }
    }
  }

  lemma SideEnters(s: Sys, bot: string)
    requires bot !in s.sides
    ensures var t := Step(s, Enter(bot));
            t.phases == s.phases && t.claim == s.claim && bot in t.sides && Running(t.sides[bot])
  {
  }

  /** Past an abandoned side, another invocation may be told its router and find a side past its deadline. */
  lemma PastDeadlineSpeaks(events: seq<Event>)
    requires Run(events).claim.None?
    ensures CanSpeak(events)
  {
    var s := Run(events);
    var bot := FreshName(s.sides.Keys);
    var id := FreshId(s.phases.Keys);
    RunSnoc(events, Enter(bot));
    SideEnters(s, bot);
    EnteredSpeaks(events + [Enter(bot)], id, bot);
    SpeaksAfter(events, Enter(bot));
  }

  lemma EnteredSpeaks(events: seq<Event>, id: nat, bot: string)
    requires id !in Run(events).phases && Run(events).claim.None?
    requires bot in Run(events).sides && Running(Run(events).sides[bot])
    ensures CanSpeak(events)
  {
    RunSnoc(events, Invoke(id));
    var called := events + [Invoke(id)];
    RunSnoc(called, Identify(id, true, true));
    ReadingSpeaks(called + [Identify(id, true, true)], id, bot);
    SpeaksAfter(called, Identify(id, true, true));
    SpeaksAfter(events, Invoke(id));
  }

  /** Unless it is silenced, or an abandoned side holds it back, the duel may yet speak with every read prompt. */
  lemma UnblockedSpeaks(events: seq<Event>)
    requires !Silenced(Run(events)) && !Blocked(Run(events))
    ensures CanSpeakPromptly(events)
  {
    var s := Run(events);
    if s.log != [] {
      SpeaksNow(events);
    } else if s.claim.Some? {
      ResolvingSpeaks(events, s.claim.value.id);
    } else if id :| id in s.phases && s.phases[id].Claiming? {
      ClaimingSpeaks(events, id);
    } else {
      UnabandonedSpeaks(events);
    }
  }

  lemma UnsilencedSpeaks(events: seq<Event>)
    requires !Silenced(Run(events))
    ensures CanSpeak(events)
  {
    if Blocked(Run(events)) {
      PastDeadlineSpeaks(events);
    } else {
      UnblockedSpeaks(events);
      PromptlySpeaks(events);
    }
  }

  // ---------------------------------------------------------------- exactly when

  /**
   * WHEN THE MARKER STAYS TRUE. Whatever follows that declines nothing more, the marker is true exactly when it does
   * not say the duel was declined, or nothing was said or handed out and the claim is taken by someone who will do
   * neither.
   */
  lemma StaysTrueIff(events: seq<Event>)
    ensures StaysTrue(events) <==> (SaysDeclined(Run(events)) ==> Silenced(Run(events)))
  {
    if !SaysDeclined(Run(events)) {
      forall more | DeclineFree(more) ensures MarkerTrue(Run(events + more)) {
        UndeclinedOn(events, more);
        UndeclinedIsTrue(events + more);
      }
    } else if Silenced(Run(events)) {
      forall more | DeclineFree(more) ensures MarkerTrue(Run(events + more)) {
        SilencedOn(events, more);
        MarkerIsFinal(events, more);
      }
    } else {
      UnsilencedSpeaks(events);
      var more :| DeclineFree(more) && Run(events + more).log != [];
      MarkerIsFinal(events, more);
      assert !MarkerTrue(Run(events + more));
    }
  }

  /** Whatever follows with every read prompt and no side past its deadline, the marker is true. */
  ghost predicate StaysTruePromptly(events: seq<Event>) {
    forall more :: AllPrompt(events, more) ==> MarkerTrue(Run(events + more))
  }

  /**
   * WHEN IT STAYS TRUE WITH NO DEADLINE PASSED. If every later read answers the sides as they stand and none is past
   * its deadline, the marker is true exactly when it does not say the duel was declined, the duel is silenced, or the
   * claim is free with an abandoned side holding the round back.
   */
  lemma StaysTruePromptlyIff(events: seq<Event>)
    ensures StaysTruePromptly(events) <==>
      (SaysDeclined(Run(events)) ==> Silenced(Run(events)) || Blocked(Run(events)))
  {
    if SaysDeclined(Run(events)) && !Silenced(Run(events)) {
      if Blocked(Run(events)) {
        forall more | AllPrompt(events, more) ensures MarkerTrue(Run(events + more)) {
          BlockedOn(events, more);
          MarkerIsFinal(events, more);
        }
      } else {
        UnblockedSpeaks(events);
        var more :| AllPrompt(events, more) && Run(events + more).log != [];
        MarkerIsFinal(events, more);
        assert !MarkerTrue(Run(events + more));
      }
    } else {
      StaysTrueIff(events);
      forall more | AllPrompt(events, more)
        ensures MarkerTrue(Run(events + more))
      {
        PromptDeclinesNothing(events, more);
      }
    }
  }

  /** Where no invocation declines, the marker is true in every state. */
  lemma DeclineFreeIsTrue(events: seq<Event>)
    requires DeclineFree(events)
    ensures MarkerTrue(Run(events)) && StaysTrue(events)
  {
    assert !SaysDeclined(Run([]));
    UndeclinedOn([], events);
    assert [] + events == events;
    UndeclinedIsTrue(events);
    StaysTrueIff(events);
  }

  /**
   * WHEN A DECLINE MAY BE CONTRADICTED. The marker a declining invocation writes stays true exactly when the duel was
   * silenced before it: while the claim is free, or held by an invocation still resolving, the round may yet be handed
   * out.
   */
  lemma DeclineStaysTrueIff(events: seq<Event>, id: nat, classified: bool, routed: bool)
    requires id in Run(events).phases && Run(events).phases[id].Called? && Run(events).complete.None?
    requires !(classified && routed)
    ensures StaysTrue(events + [Identify(id, classified, routed)]) <==> Silenced(Run(events))
  {
    RunSnoc(events, Identify(id, classified, routed));
    StaysTrueIff(events + [Identify(id, classified, routed)]);
  }
}
