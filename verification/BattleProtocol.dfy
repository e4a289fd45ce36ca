/**
 * Racing invocations of one duel's orchestrator (backend/lambda/src/battle-orchestrator.ts), beside the sides still
 * finishing and a person ending the duel (backend/lambda/src/lib/battle-state.ts,
 * backend/lambda/src/lib/battle-end.ts).
 */
module BattleProtocol {
  import opened Prelude
  import opened BattleResolution

  /** Who took the duel's one claim: an invocation, or a person ending the duel. */
  datatype Claimant = Orchestrator(id: nat) | Ender

  /**
   * Where an invocation stands. `Called` has still to resolve the duel's classification and router; `Claiming` read
   * rows that let it proceed; `Resolving` holds the claim, with the acts it has still to make.
   */
  datatype Phase =
    | Called
    | Reading
    | Claiming(rows: seq<Row>)
    | Resolving(rows: seq<Row>, notices: seq<Act>, round: multiset<Act>)
    | Resolved(rows: seq<Row>)
    | Stopped

  /** How a claim's write goes: as it should, unsent, or landed with its answer lost. */
  datatype Fault = NoFault | Unsent | AnswerLost

  datatype Mark = Mark(id: nat, reason: Reason)
  datatype Entry = Entry(id: nat, act: Act)

  /**
   * The duel's table with every version its sides have stood in, the invocations, and every act made. `won` is what the
   * invocation holding the claim had read, and `plan` what that calls for.
   */
  datatype Sys = Sys(
    sides: map<string, State>,
    versions: seq<map<string, State>>,
    claim: Option<Claimant>,
    won: seq<Row>,
    plan: seq<Act>,
    complete: Option<Mark>,
    phases: map<nat, Phase>,
    log: seq<Entry>)

  datatype Event =
    | Invoke(id: nat)
    | Identify(id: nat, classified: bool, routed: bool)
    | Read(id: nat, rows: seq<Row>, pastDue: set<string>)
    | Claim(id: nat, fault: Fault)
    | Notify(id: nat)
    | Hand(id: nat, act: Act)
    | Complete(id: nat)
    | Crash(id: nat)
    | Enter(bot: string)
    | Wait(bot: string)
    | Resume(bot: string)
    | Stop(bot: string, state: State)
    | End

  /** A put that lands only where nothing is. */
  function Emitted(s: Sys, id: nat, reason: Reason): Sys {
    if s.complete.Some? then s else s.(complete := Some(Mark(id, reason)))
  }

  function At(s: Sys, id: nat, phase: Phase): Sys {
    s.(phases := s.phases[id := phase])
  }

  /** The sides move, and the version they stood in before is kept for reads that come late. */
  function Sided(s: Sys, sides: map<string, State>): Sys {
    s.(sides := sides, versions := s.versions + [sides])
  }

  /** The side has stood in this state. */
  predicate Stood(versions: seq<map<string, State>>, bot: string, state: State) {
    exists i :: 0 <= i < |versions| && bot in versions[i] && versions[i][bot] == state
  }

  /**
   * A read answers each side at most once, as it stood in some version: rows may come from different versions, or be
   * missing, as an eventually consistent query's may, and there are none where it fails.
   */
  predicate MayRead(s: Sys, rows: seq<Row>) {
    DistinctBots(rows) && forall k :: 0 <= k < |rows| ==> Stood(s.versions, rows[k].bot, rows[k].state)
  }

  function Identified(s: Sys, id: nat, classified: bool, routed: bool): Sys {
    if !classified then At(Emitted(s, id, NoClassification), id, Stopped)
    else if !routed then At(Emitted(s, id, NoRouter), id, Stopped)
    else At(s, id, Reading)
  }

  /** The claim: the one told it landed resolves; one refused, or told of an error, stops. */
  function Claimed(s: Sys, id: nat, rows: seq<Row>, fault: Fault): Sys {
    if s.claim.Some? || fault.Unsent? then At(s, id, Stopped)
    else
      At(s.(claim := Some(Orchestrator(id)), won := rows, plan := Resolution(rows)), id,
         if fault.AnswerLost? then Stopped else Resolving(rows, NoticeActs(rows), multiset(RoundActs(rows))))
  }

  function Acted(s: Sys, id: nat, act: Act, phase: Phase): Sys {
    At(s.(log := s.log + [Entry(id, act)]), id, phase)
  }

  /** A side's own moves: only a running side moves, and where it stops it stays. */
  function Moved(s: Sys, bot: string, from: set<State>, to: State): Sys {
    if bot in s.sides && s.sides[bot] in from then Sided(s, s.sides[bot := to]) else s
  }

  predicate Stops(state: State) {
    !Running(state)
  }

  predicate CanNotify(s: Sys, id: nat) {
    id in s.phases && s.phases[id].Resolving? && s.phases[id].notices != []
  }

  predicate CanHand(s: Sys, id: nat, act: Act) {
    id in s.phases && s.phases[id].Resolving? && s.phases[id].notices == [] && act in s.phases[id].round
  }

  predicate CanComplete(s: Sys, id: nat) {
    id in s.phases && s.phases[id].Resolving? && s.phases[id].notices == [] && s.phases[id].round == multiset{}
  }

  function Step(s: Sys, e: Event): Sys {
    match e
    case Invoke(id) => if id in s.phases then s else At(s, id, Called)
    case Identify(id, classified, routed) =>
      if id in s.phases && s.phases[id].Called? then Identified(s, id, classified, routed) else s
    case Read(id, rows, pastDue) =>
      if id in s.phases && s.phases[id].Reading? && MayRead(s, rows)
      then At(s, id, if Proceeds(rows, pastDue) then Claiming(rows) else Stopped)
      else s
    case Claim(id, fault) =>
      if id in s.phases && s.phases[id].Claiming? then Claimed(s, id, s.phases[id].rows, fault) else s
    case Notify(id) =>
      if CanNotify(s, id)
      then
        var p := s.phases[id];
        Acted(s, id, p.notices[0], p.(notices := p.notices[1..]))
      else s
    case Hand(id, act) =>
      if CanHand(s, id, act)
      then
        var p := s.phases[id];
        Acted(s, id, act, p.(round := p.round - multiset{act}))
      else s
    case Complete(id) =>
      if CanComplete(s, id)
      then At(Emitted(s, id, ReasonOf(s.phases[id].rows)), id, Resolved(s.phases[id].rows))
      else s
    case Crash(id) => if id in s.phases && !s.phases[id].Resolved? then At(s, id, Stopped) else s
    case Enter(bot) => if bot in s.sides then s else Sided(s, s.sides[bot := Invoked])
    case Wait(bot) => Moved(s, bot, {Invoked}, WaitingForUser)
    case Resume(bot) => Moved(s, bot, {WaitingForUser}, Invoked)
    case Stop(bot, state) =>
      if !Stops(state) then s
      else if bot in s.sides then Moved(s, bot, {Invoked, WaitingForUser}, state)
      else Sided(s, s.sides[bot := state])
    case End => if s.claim.Some? then s else s.(claim := Some(Ender))
  }

  function Init(): Sys {
    Sys(map[], [map[]], None, [], [], None, map[], [])
  }

  function Run(events: seq<Event>): Sys {
    if events == [] then Init() else Step(Run(events[..|events| - 1]), events[|events| - 1])
  }

  function Acts(log: seq<Entry>): multiset<Act> {
    if log == [] then multiset{} else Acts(log[..|log| - 1]) + multiset{log[|log| - 1].act}
  }

  // ---------------------------------------------------------------- invariants

  /** What was read of a side that had stopped is so still. */
  predicate StillSo(s: Sys, rows: seq<Row>) {
    && DistinctBots(rows)
    && (forall k :: 0 <= k < |rows| && Stops(rows[k].state) ==>
      rows[k].bot in s.sides && s.sides[rows[k].bot] == rows[k].state)
  }

  predicate Holds(s: Sys, id: nat, rows: seq<Row>) {
    s.claim == Some(Orchestrator(id)) && s.won == rows
  }

  /** What an invocation holds: the rows it read, and with the claim, every act made or still to make. */
  predicate PhaseInv(s: Sys, id: nat)
    requires id in s.phases
  {
    match s.phases[id]
    case Claiming(rows) => StillSo(s, rows) && rows != []
    case Resolving(rows, notices, round) =>
      Holds(s, id, rows) && Acts(s.log) + multiset(notices) + round == multiset(s.plan)
    case Resolved(rows) => Holds(s, id, rows) && Acts(s.log) == multiset(s.plan)
    case _ => true
  }

  predicate PhasesInv(s: Sys) {
    forall id :: id in s.phases ==> PhaseInv(s, id)
  }

  predicate ByOrchestrator(s: Sys) {
    s.claim.Some? && s.claim.value.Orchestrator?
  }

  /** Every act is the claiming invocation's, and planned. */
  predicate LogInv(s: Sys) {
    && (!ByOrchestrator(s) ==> s.log == [])
    && (ByOrchestrator(s) ==>
          Acts(s.log) <= multiset(s.plan) && forall k :: 0 <= k < |s.log| ==> s.log[k].id == s.claim.value.id)
  }

  /** The plan is what the claiming invocation's rows call for, and what it read of a stopped side is so still. */
  predicate PlanInv(s: Sys) {
    ByOrchestrator(s) ==> StillSo(s, s.won) && s.won != [] && s.plan == Resolution(s.won)
  }

  predicate Declines(reason: Reason) {
    reason.NoClassification? || reason.NoRouter?
  }

  /** A marker that names a resolution is the claiming invocation's, written once it was done. */
  predicate MarkInv(s: Sys) {
    s.complete.Some? && !Declines(s.complete.value.reason) ==>
      var id := s.complete.value.id;
      id in s.phases && s.phases[id] == Resolved(s.won) && s.complete.value.reason == ReasonOf(s.won)
  }

  /** A side that had stopped in any version has stopped so still, and the last version is the sides. */
  predicate VersionsInv(s: Sys) {
    && s.versions != [] && s.versions[|s.versions| - 1] == s.sides
    && (forall i, bot :: 0 <= i < |s.versions| && bot in s.versions[i] && Stops(s.versions[i][bot]) ==>
          bot in s.sides && s.sides[bot] == s.versions[i][bot])
  }

  predicate Inv(s: Sys) {
    PhasesInv(s) && LogInv(s) && PlanInv(s) && MarkInv(s) && VersionsInv(s)
  }

  lemma StepKeepsVersions(s: Sys, e: Event)
    requires VersionsInv(s)
    ensures VersionsInv(Step(s, e))
  {
    var t := Step(s, e);
    assert t.versions == s.versions || t.versions == s.versions + [t.sides];
    forall i, bot | 0 <= i < |t.versions| && bot in t.versions[i] && Stops(t.versions[i][bot])
      ensures bot in t.sides && t.sides[bot] == t.versions[i][bot]
    {
      if i < |s.versions| {
        assert t.versions[i] == s.versions[i];
        StepKeepsStopped(s, e, bot);
      }
    }
  }

  lemma ReadIsStillSo(s: Sys, rows: seq<Row>)
    requires VersionsInv(s) && MayRead(s, rows)
    ensures StillSo(s, rows)
  {
    forall k | 0 <= k < |rows| && Stops(rows[k].state)
      ensures rows[k].bot in s.sides && s.sides[rows[k].bot] == rows[k].state
    {
      assert Stood(s.versions, rows[k].bot, rows[k].state);
    }
  }

  lemma StepKeepsStopped(s: Sys, e: Event, bot: string)
    requires bot in s.sides && Stops(s.sides[bot])
    ensures bot in Step(s, e).sides && Step(s, e).sides[bot] == s.sides[bot]
  {
  }

  lemma StepKeepsStillSo(s: Sys, e: Event, rows: seq<Row>)
    requires StillSo(s, rows)
    ensures StillSo(Step(s, e), rows)
  {
    forall k | 0 <= k < |rows| && Stops(rows[k].state)
      ensures rows[k].bot in Step(s, e).sides && Step(s, e).sides[rows[k].bot] == rows[k].state
    {
      StepKeepsStopped(s, e, rows[k].bot);
    }
  }

  lemma ActsSnoc(log: seq<Entry>, entry: Entry)
    ensures Acts(log + [entry]) == Acts(log) + multiset{entry.act}
  {
    assert (log + [entry])[..|log|] == log;
  }

  lemma NoticeMoves(made: multiset<Act>, notices: seq<Act>, round: multiset<Act>)
    requires notices != []
    ensures made + multiset{notices[0]} + multiset(notices[1..]) + round == made + multiset(notices) + round
  {
    assert notices == [notices[0]] + notices[1..];
  }

  lemma RoundMoves(made: multiset<Act>, round: multiset<Act>, act: Act)
    requires act in round
    ensures made + multiset{act} + multiset([]) + (round - multiset{act}) == made + multiset([]) + round
  {
  }

  /** An invocation whose phase a step leaves alone, and whose claim it does not act under. */
  lemma UntouchedPhase(s: Sys, t: Sys, other: nat)
    requires other in s.phases && other in t.phases && t.phases[other] == s.phases[other] && PhaseInv(s, other)
    requires t.sides == s.sides
    requires (t.claim == s.claim && t.won == s.won && t.plan == s.plan && t.log == s.log)
      || s.claim != Some(Orchestrator(other))
    ensures PhaseInv(t, other)
  {
  }

  lemma NotifyKeepsOwn(s: Sys, id: nat)
    requires CanNotify(s, id) && PhaseInv(s, id)
    ensures PhaseInv(Step(s, Notify(id)), id)
  {
    var p := s.phases[id];
    ActsSnoc(s.log, Entry(id, p.notices[0]));
    NoticeMoves(Acts(s.log), p.notices, p.round);
  }

  lemma HandKeepsOwn(s: Sys, id: nat, act: Act)
    requires CanHand(s, id, act) && PhaseInv(s, id)
    ensures PhaseInv(Step(s, Hand(id, act)), id)
  {
    var p := s.phases[id];
    ActsSnoc(s.log, Entry(id, act));
    RoundMoves(Acts(s.log), p.round, act);
  }

  lemma ActKeepsOwn(s: Sys, e: Event)
    requires ChangesLog(s, e) && PhaseInv(s, e.id)
    ensures PhaseInv(Step(s, e), e.id)
  {
    if e.Notify? { NotifyKeepsOwn(s, e.id); } else { HandKeepsOwn(s, e.id, e.act); }
  }

  lemma ActKeepsPhases(s: Sys, e: Event)
    requires PhasesInv(s) && ChangesLog(s, e)
    ensures PhasesInv(Step(s, e))
  {
    var t := Step(s, e);
    assert PhaseInv(s, e.id);
    ActKeepsOwn(s, e);
    forall other | other in t.phases && other != e.id ensures PhaseInv(t, other) { UntouchedPhase(s, t, other); }
  }

  lemma NothingLeft(made: multiset<Act>, total: multiset<Act>)
    requires made + multiset([]) + multiset{} == total
    ensures made == total
  {
    assert made + multiset([]) + multiset{} == made;
  }

  lemma CompleteKeepsOwn(s: Sys, id: nat)
    requires CanComplete(s, id) && PhaseInv(s, id)
    ensures PhaseInv(Step(s, Complete(id)), id)
  {
    NothingLeft(Acts(s.log), multiset(s.plan));
  }

  lemma CompleteKeepsPhases(s: Sys, id: nat)
    requires PhasesInv(s) && CanComplete(s, id)
    ensures PhasesInv(Step(s, Complete(id)))
  {
    var t := Step(s, Complete(id));
    assert PhaseInv(s, id);
    CompleteKeepsOwn(s, id);
    forall other | other in t.phases && other != id ensures PhaseInv(t, other) {
      assert PhaseInv(s, other);
      UntouchedPhase(s, t, other);
    }
  }

  lemma NothingMade(log: seq<Entry>, rows: seq<Row>)
    requires log == []
    ensures Acts(log) + multiset(NoticeActs(rows)) + multiset(RoundActs(rows)) == multiset(Resolution(rows))
  {
    assert multiset(Resolution(rows)) == multiset(NoticeActs(rows)) + multiset(RoundActs(rows));
  }

  lemma ClaimKeepsOwn(s: Sys, id: nat, fault: Fault)
    requires LogInv(s) && id in s.phases && s.phases[id].Claiming?
    ensures PhaseInv(Step(s, Claim(id, fault)), id)
  {
    if s.claim.None? { NothingMade(s.log, s.phases[id].rows); }
  }

  lemma ClaimKeepsPhases(s: Sys, id: nat, fault: Fault)
    requires PhasesInv(s) && LogInv(s) && id in s.phases && s.phases[id].Claiming?
    ensures PhasesInv(Step(s, Claim(id, fault)))
  {
    var t := Step(s, Claim(id, fault));
    ClaimKeepsOwn(s, id, fault);
    forall other | other in t.phases && other != id ensures PhaseInv(t, other) {
      assert PhaseInv(s, other);
      UntouchedPhase(s, t, other);
    }
  }

  lemma ReadKeepsPhases(s: Sys, id: nat, rows: seq<Row>, pastDue: set<string>)
    requires PhasesInv(s) && VersionsInv(s)
    ensures PhasesInv(Step(s, Read(id, rows, pastDue)))
  {
    var t := Step(s, Read(id, rows, pastDue));
    if MayRead(s, rows) { ReadIsStillSo(s, rows); }
    forall other | other in t.phases ensures PhaseInv(t, other) { assert other in s.phases ==> PhaseInv(s, other); }
  }

  predicate ChangesLog(s: Sys, e: Event) {
    || (e.Notify? && CanNotify(s, e.id))
    || (e.Hand? && CanHand(s, e.id, e.act))
  }

  /** A side moves, or a person ends the duel. */
  predicate Outside(e: Event) {
    e.Enter? || e.Wait? || e.Resume? || e.Stop? || e.End?
  }

  lemma OutsideFrame(s: Sys, e: Event)
    requires Outside(e)
    ensures var t := Step(s, e);
            && t.phases == s.phases && t.log == s.log && t.won == s.won && t.plan == s.plan && t.complete == s.complete
            && (t.claim == s.claim || (s.claim.None? && t.claim == Some(Ender)))
  {
  }

  lemma OutsideKeepsPhase(s: Sys, e: Event, id: nat)
    requires Outside(e) && id in s.phases && PhaseInv(s, id)
    ensures id in Step(s, e).phases && PhaseInv(Step(s, e), id)
  {
    OutsideFrame(s, e);
    if s.phases[id].Claiming? { StepKeepsStillSo(s, e, s.phases[id].rows); }
  }

  /** An invocation begins, finds its classification and router or none, or dies. */
  predicate Inert(s: Sys, e: Event) {
    e.Invoke? || e.Identify? || e.Crash? || ((e.Notify? || e.Hand?) && !ChangesLog(s, e))
  }

  lemma InertFrame(s: Sys, e: Event)
    requires Inert(s, e)
    ensures var t := Step(s, e);
            && t.sides == s.sides && t.log == s.log && t.won == s.won && t.plan == s.plan && t.claim == s.claim
            && (forall id :: id in t.phases ==>
                  t.phases[id].Called? || t.phases[id].Reading? || t.phases[id].Stopped?
                    || (id in s.phases && t.phases[id] == s.phases[id]))
  {
  }

  lemma InertKeepsPhase(s: Sys, e: Event, id: nat)
    requires PhasesInv(s) && Inert(s, e) && id in Step(s, e).phases
    ensures PhaseInv(Step(s, e), id)
  {
    InertFrame(s, e);
    if id in s.phases && Step(s, e).phases[id] == s.phases[id] {
      assert PhaseInv(s, id);
      UntouchedPhase(s, Step(s, e), id);
    }
  }

  lemma StepKeepsPhases(s: Sys, e: Event)
    requires PhasesInv(s) && LogInv(s) && VersionsInv(s)
    ensures PhasesInv(Step(s, e))
  {
    if e.Read? {
      ReadKeepsPhases(s, e.id, e.rows, e.pastDue);
    } else if e.Claim? {
      if e.id in s.phases && s.phases[e.id].Claiming? { ClaimKeepsPhases(s, e.id, e.fault); }
    } else if e.Complete? {
      if CanComplete(s, e.id) { CompleteKeepsPhases(s, e.id); }
    } else if ChangesLog(s, e) {
      ActKeepsPhases(s, e);
    } else if Outside(e) {
      OutsideFrame(s, e);
      forall id | id in Step(s, e).phases ensures PhaseInv(Step(s, e), id) { OutsideKeepsPhase(s, e, id); }
    } else {
      forall id | id in Step(s, e).phases ensures PhaseInv(Step(s, e), id) { InertKeepsPhase(s, e, id); }
    }
  }

  lemma PartOf(made: multiset<Act>, notices: seq<Act>, round: multiset<Act>)
    ensures made <= made + multiset(notices) + round
  {
  }

  lemma OwnActsWithin(s: Sys, id: nat)
    requires id in s.phases && s.phases[id].Resolving? && PhaseInv(s, id)
    ensures s.claim == Some(Orchestrator(id)) && Acts(s.log) <= multiset(s.plan)
  {
    PartOf(Acts(s.log), s.phases[id].notices, s.phases[id].round);
  }

  lemma ActFrame(s: Sys, e: Event)
    requires ChangesLog(s, e)
    ensures var t := Step(s, e);
            && t.sides == s.sides && t.claim == s.claim && t.won == s.won && t.plan == s.plan
            && e.id in t.phases && t.phases[e.id].Resolving?
            && |t.log| == |s.log| + 1 && t.log[..|s.log|] == s.log && t.log[|s.log|].id == e.id
  {
  }

  lemma ActKeepsLog(s: Sys, e: Event)
    requires LogInv(s) && ChangesLog(s, e) && PhaseInv(s, e.id)
    ensures LogInv(Step(s, e))
  {
    var t := Step(s, e);
    ActFrame(s, e);
    ActKeepsOwn(s, e);
    OwnActsWithin(t, e.id);
    forall k | 0 <= k < |t.log|
      ensures t.log[k].id == e.id
    {
      if k < |s.log| { assert t.log[k] == t.log[..|s.log|][k]; }
    }
  }

  lemma ClaimKeepsLog(s: Sys, id: nat, fault: Fault)
    requires PhasesInv(s) && LogInv(s)
    ensures LogInv(Step(s, Claim(id, fault)))
  {
    if id in s.phases && s.phases[id].Claiming? { assert PhaseInv(s, id); }
  }

  lemma StillFrame(s: Sys, e: Event)
    requires !e.Claim? && !ChangesLog(s, e)
    ensures var t := Step(s, e);
            t.log == s.log && t.won == s.won && t.plan == s.plan
              && (t.claim == s.claim || (s.claim.None? && t.claim == Some(Ender)))
  {
  }

  lemma StepKeepsLog(s: Sys, e: Event)
    requires PhasesInv(s) && LogInv(s)
    ensures LogInv(Step(s, e))
  {
    if e.Claim? {
      ClaimKeepsLog(s, e.id, e.fault);
    } else if ChangesLog(s, e) {
      assert PhaseInv(s, e.id);
      ActKeepsLog(s, e);
    } else {
      StillFrame(s, e);
    }
  }

  lemma ClaimKeepsPlan(s: Sys, id: nat, fault: Fault)
    requires PhasesInv(s) && PlanInv(s)
    ensures PlanInv(Step(s, Claim(id, fault)))
  {
    if id in s.phases && s.phases[id].Claiming? { assert PhaseInv(s, id); }
  }

  lemma StepKeepsPlan(s: Sys, e: Event)
    requires PhasesInv(s) && PlanInv(s)
    ensures PlanInv(Step(s, e))
  {
    if e.Claim? {
      ClaimKeepsPlan(s, e.id, e.fault);
    } else {
      if ChangesLog(s, e) { ActFrame(s, e); } else { StillFrame(s, e); }
      if ByOrchestrator(s) { StepKeepsStillSo(s, e, s.won); }
    }
  }

  lemma ResolvedFrame(s: Sys, e: Event, id: nat)
    requires id in s.phases && s.phases[id].Resolved?
    ensures id in Step(s, e).phases && Step(s, e).phases[id] == s.phases[id]
  {
  }

  lemma WonFrame(s: Sys, e: Event)
    requires s.claim.Some?
    ensures Step(s, e).won == s.won && Step(s, e).claim == s.claim
  {
  }

  /** A resolved invocation stays resolved, and what it had read stays read. */
  lemma ResolvedStays(s: Sys, e: Event, id: nat)
    requires PhasesInv(s) && id in s.phases && s.phases[id].Resolved?
    ensures var t := Step(s, e); id in t.phases && t.phases[id] == s.phases[id] && t.won == s.won
  {
    assert PhaseInv(s, id);
    ResolvedFrame(s, e, id);
    WonFrame(s, e);
  }

  lemma StepKeepsMark(s: Sys, e: Event)
    requires PhasesInv(s) && MarkInv(s)
    ensures MarkInv(Step(s, e))
  {
    if s.complete.Some? {
      if !Declines(s.complete.value.reason) { ResolvedStays(s, e, s.complete.value.id); }
    } else if e.Complete? && CanComplete(s, e.id) {
      assert PhaseInv(s, e.id);
    }
  }

  lemma {:induction false} RunKeepsInv(events: seq<Event>)
    ensures Inv(Run(events))
  {
    if events != [] {
      var s, e := Run(events[..|events| - 1]), events[|events| - 1];
      RunKeepsInv(events[..|events| - 1]);
      StepKeepsPhases(s, e);
      StepKeepsLog(s, e);
      StepKeepsPlan(s, e);
      StepKeepsMark(s, e);
      StepKeepsVersions(s, e);
    }
  }

  // ---------------------------------------------------------------- round two, once

  /**
   * ONE INVOCATION ACTS. Over any interleaving, every notice, hand-off and closing line is one invocation's: the
   * claim's.
   */
  lemma OneInvocationActs(events: seq<Event>, i: nat, j: nat)
    requires i < |Run(events).log| && j < |Run(events).log|
    ensures var s := Run(events); s.log[i].id == s.log[j].id && s.claim == Some(Orchestrator(s.log[i].id))
  {
    RunKeepsInv(events);
  }

  lemma {:induction false} ActsHold(log: seq<Entry>, k: nat)
    requires k < |log|
    ensures log[k].act in Acts(log)
  {
    if k < |log| - 1 { ActsHold(log[..|log| - 1], k); }
  }

  lemma PlannedAct(events: seq<Event>, k: nat)
    requires k < |Run(events).log|
    ensures var s := Run(events);
            && StillSo(s, s.won) && s.won != [] && s.plan == Resolution(s.won) && Acts(s.log) <= multiset(s.plan)
            && s.log[k].act in Resolution(s.won)
  {
    RunKeepsInv(events);
    LogPlanned(Run(events), k);
  }

  lemma LogPlanned(s: Sys, k: nat)
    requires LogInv(s) && PlanInv(s) && k < |s.log|
    ensures StillSo(s, s.won) && s.won != [] && s.plan == Resolution(s.won) && Acts(s.log) <= multiset(s.plan)
    ensures s.log[k].act in s.plan
  {
    ActsHold(s.log, k);
    assert s.log[k].act in multiset(s.plan);
  }

  /**
   * NO SIDE IS ANSWERED TWICE. Over any interleaving, however invocations race, die or are redelivered, a side is
   * handed at most one rebuttal, is told at most once that it did not finish, and never both.
   */
  lemma SideAnsweredOnce(events: seq<Event>, bot: string)
    ensures Acts(Run(events).log)[Dispatch(bot)] + Acts(Run(events).log)[Notice(bot)] <= 1
  {
    var s := Run(events);
    RunKeepsInv(events);
    if s.log != [] {
      PlannedAct(events, 0);
      PlannedOnce(s.won, bot);
      AtMost(Acts(s.log), multiset(s.plan), Dispatch(bot), Notice(bot));
    } else {
      assert Acts(s.log) == multiset{};
    }
  }

  lemma AtMost(made: multiset<Act>, plan: multiset<Act>, a: Act, b: Act)
    requires made <= plan && plan[a] + plan[b] <= 1
    ensures made[a] + made[b] <= 1
  {
  }

  lemma PlannedOnce(rows: seq<Row>, bot: string)
    requires DistinctBots(rows)
    ensures multiset(Resolution(rows))[Dispatch(bot)] + multiset(Resolution(rows))[Notice(bot)] <= 1
  {
    if k :| 0 <= k < |rows| && rows[k].bot == bot {
      ResolutionExactlyOnce(rows, k);
    } else {
      if Dispatch(bot) in Resolution(rows) { ActsNameSides(rows, Dispatch(bot)); }
      if Notice(bot) in Resolution(rows) { ActsNameSides(rows, Notice(bot)); }
      CountAbsent(Resolution(rows), Dispatch(bot));
      CountAbsent(Resolution(rows), Notice(bot));
    }
  }

  /** The act is one this row calls for. */
  predicate CallsFor(r: Row, a: Act) {
    || (a == Dispatch(r.bot) && r.state.Finished?)
    || (a == Notice(r.bot) && !r.state.Finished? && !r.state.Abandoned?)
  }

  lemma PlannedState(rows: seq<Row>, a: Act)
    requires DistinctBots(rows) && a in Resolution(rows) && !a.Close?
    ensures exists k :: 0 <= k < |rows| && CallsFor(rows[k], a)
  {
    ActsNameSides(rows, a);
    var k :| 0 <= k < |rows| && rows[k].bot == a.bot;
    ResolutionExactlyOnce(rows, k);
    assert multiset(Resolution(rows))[a] > 0;
    assert CallsFor(rows[k], a);
  }

  /** ONLY A FINISHED SIDE REBUTS. A side handed a rebuttal had finished the first round, and has still. */
  lemma DispatchedHasFinished(events: seq<Event>, k: nat)
    requires k < |Run(events).log| && Run(events).log[k].act.Dispatch?
    ensures var s := Run(events); s.log[k].act.bot in s.sides && s.sides[s.log[k].act.bot] == Finished
  {
    PlannedAct(events, k);
    DispatchReadFinished(Run(events), Run(events).log[k].act);
  }

  lemma DispatchReadFinished(s: Sys, a: Act)
    requires StillSo(s, s.won) && a in Resolution(s.won) && a.Dispatch?
    ensures a.bot in s.sides && s.sides[a.bot] == Finished
  {
    PlannedState(s.won, a);
    var i :| 0 <= i < |s.won| && CallsFor(s.won[i], a);
  }

  /**
   * WHO IS TOLD IT DID NOT FINISH. Where every side had stopped when the claiming invocation read them, a side told so
   * had failed, and has still; where the round went ahead on a deadline, it was then failed or running.
   */
  lemma NoticedHadNotFinished(events: seq<Event>, k: nat)
    requires k < |Run(events).log| && Run(events).log[k].act.Notice?
    ensures var s := Run(events);
            && (exists r :: r in s.won && r.bot == s.log[k].act.bot && (r.state.Failed? || Running(r.state)))
            && (AllTerminal(s.won) ==> s.log[k].act.bot in s.sides && s.sides[s.log[k].act.bot] == Failed)
  {
    var s := Run(events);
    PlannedAct(events, k);
    PlannedState(s.won, s.log[k].act);
    var i :| 0 <= i < |s.won| && CallsFor(s.won[i], s.log[k].act);
    assert s.won[i] in s.won;
  }

  /**
   * EVERY SIDE IS ANSWERED. When the claiming invocation is done, each side it read has had exactly one of a rebuttal,
   * for having finished, and a notice, for having neither finished nor been abandoned; an abandoned side has had
   * neither.
   */
  lemma ResolvedAnswersEverySide(events: seq<Event>, id: nat, k: nat)
    requires id in Run(events).phases && Run(events).phases[id].Resolved? && k < |Run(events).phases[id].rows|
    ensures var s := Run(events);
            var r := s.phases[id].rows[k];
            && Acts(s.log)[Dispatch(r.bot)] == (if r.state.Finished? then 1 else 0)
            && Acts(s.log)[Notice(r.bot)] == (if r.state.Finished? || r.state.Abandoned? then 0 else 1)
  {
    var s := Run(events);
    RunKeepsInv(events);
    assert PhaseInv(s, id);
    ResolutionExactlyOnce(s.won, k);
  }

  /** A DUEL A PERSON ENDED FIRST IS NOT RESOLVED. Once ending it takes the claim, nothing is said or handed out. */
  lemma EndedDuelIsSilent(events: seq<Event>)
    requires Run(events).claim == Some(Ender)
    ensures Run(events).log == []
  {
    RunKeepsInv(events);
  }

  // ---------------------------------------------------------------- the order of what is said

  /** Notices before anything else; and while some are still to be made, nothing else has been. */
  predicate OrderInv(s: Sys) {
    && (forall i, j :: 0 <= i < j < |s.log| && s.log[j].act.Notice? ==> s.log[i].act.Notice?)
    && (forall id, k :: id in s.phases && s.phases[id].Resolving? && s.phases[id].notices != [] && 0 <= k < |s.log| ==>
          s.log[k].act.Notice?)
    && (forall id :: id in s.phases && s.phases[id].Resolving? ==>
          && (forall k :: 0 <= k < |s.phases[id].notices| ==> s.phases[id].notices[k].Notice?)
          && (forall a :: a in s.phases[id].round ==> !a.Notice?))
  }

  lemma OneResolves(s: Sys, id: nat, other: nat)
    requires PhasesInv(s) && id in s.phases && s.phases[id].Resolving? && other in s.phases && other != id
    ensures !s.phases[other].Resolving?
  {
    assert PhaseInv(s, id) && PhaseInv(s, other);
  }

  lemma NotifyKeepsOrder(s: Sys, id: nat)
    requires PhasesInv(s) && OrderInv(s) && CanNotify(s, id)
    ensures OrderInv(Step(s, Notify(id)))
  {
    var t := Step(s, Notify(id));
    forall other | other in t.phases && other != id ensures !t.phases[other].Resolving? { OneResolves(s, id, other); }
    assert s.phases[id].notices[0].Notice?;
  }

  lemma HandKeepsOrder(s: Sys, id: nat, act: Act)
    requires PhasesInv(s) && OrderInv(s) && CanHand(s, id, act)
    ensures OrderInv(Step(s, Hand(id, act)))
  {
    var t := Step(s, Hand(id, act));
    forall other | other in t.phases && other != id ensures !t.phases[other].Resolving? { OneResolves(s, id, other); }
  }

  lemma RowsActs(rows: seq<Row>)
    ensures forall k :: 0 <= k < |NoticeActs(rows)| ==> NoticeActs(rows)[k].Notice?
    ensures forall a :: a in multiset(RoundActs(rows)) ==> !a.Notice?
  {
    forall a | a in RoundActs(rows) ensures !a.Notice? {
      var k :| 0 <= k < |RoundActs(rows)| && RoundActs(rows)[k] == a;
    }
  }

  lemma ClaimFrame(s: Sys, id: nat, fault: Fault)
    requires id in s.phases && s.phases[id].Claiming?
    ensures var t := Step(s, Claim(id, fault));
            && t.log == s.log
            && (forall other :: other in t.phases && other != id ==>
              other in s.phases && t.phases[other] == s.phases[other])
            && (id in t.phases && t.phases[id].Resolving? ==>
                  && s.claim.None? && t.phases[id].notices == NoticeActs(s.phases[id].rows)
                  && t.phases[id].round == multiset(RoundActs(s.phases[id].rows)))
  {
  }

  lemma ClaimKeepsOrder(s: Sys, id: nat, fault: Fault)
    requires PhasesInv(s) && LogInv(s) && OrderInv(s)
    ensures OrderInv(Step(s, Claim(id, fault)))
  {
    if id in s.phases && s.phases[id].Claiming? {
      RowsActs(s.phases[id].rows);
      ClaimFrame(s, id, fault);
      ClaimedOrder(s, Step(s, Claim(id, fault)), id);
    }
  }

  lemma ClaimedOrder(s: Sys, t: Sys, id: nat)
    requires OrderInv(s) && t.log == s.log
    requires forall other :: other in t.phases && other != id ==>
      other in s.phases && t.phases[other] == s.phases[other]
    requires id in t.phases && t.phases[id].Resolving? ==>
      && s.log == []
      && (forall k :: 0 <= k < |t.phases[id].notices| ==> t.phases[id].notices[k].Notice?)
      && (forall a :: a in t.phases[id].round ==> !a.Notice?)
    ensures OrderInv(t)
  {
  }

  lemma StillKeepsOrder(s: Sys, e: Event)
    requires OrderInv(s) && !e.Claim? && !ChangesLog(s, e)
    ensures OrderInv(Step(s, e))
  {
    var t := Step(s, e);
    StillFrame(s, e);
    forall id | id in t.phases && t.phases[id].Resolving? ensures id in s.phases && t.phases[id] == s.phases[id] {}
  }

  lemma {:induction false} RunKeepsOrder(events: seq<Event>)
    ensures OrderInv(Run(events))
  {
    if events != [] {
      var s, e := Run(events[..|events| - 1]), events[|events| - 1];
      RunKeepsOrder(events[..|events| - 1]);
      RunKeepsInv(events[..|events| - 1]);
      if e.Claim? {
        ClaimKeepsOrder(s, e.id, e.fault);
      } else if e.Notify? && CanNotify(s, e.id) {
        NotifyKeepsOrder(s, e.id);
      } else if e.Hand? && CanHand(s, e.id, e.act) {
        HandKeepsOrder(s, e.id, e.act);
      } else {
        StillKeepsOrder(s, e);
      }
    }
  }

  /** NOTICES FIRST. Over any interleaving, nothing is handed out, and no closing line said, before the last notice. */
  lemma NoticesBeforeRound(events: seq<Event>, i: nat, j: nat)
    requires i < j < |Run(events).log| && Run(events).log[j].act.Notice?
    ensures Run(events).log[i].act.Notice?
  {
    RunKeepsOrder(events);
  }

  // ---------------------------------------------------------------- the complete marker

  /** THE MARKER IS WRITTEN ONCE. Whatever follows, the marker first created is the one that stands. */
  lemma {:induction false} MarkerIsFinal(events: seq<Event>, more: seq<Event>)
    requires Run(events).complete.Some?
    ensures Run(events + more).complete == Run(events).complete
  {
    if more == [] {
      assert events + more == events;
    } else {
      var n := |more| - 1;
      MarkerIsFinal(events, more[..n]);
      assert (events + more)[..|events + more| - 1] == events + more[..n];
      MarkerStays(Run(events + more[..n]), more[n]);
    }
  }

  lemma MarkerStays(s: Sys, e: Event)
    requires s.complete.Some?
    ensures Step(s, e).complete == s.complete
  {
  }

  /** A marker that names a resolution tells the truth: the claiming invocation made every act its rows called for. */
  lemma ResolutionMarkIsTrue(events: seq<Event>)
    requires Run(events).complete.Some? && !Declines(Run(events).complete.value.reason)
    ensures var s := Run(events);
            && s.claim == Some(Orchestrator(s.complete.value.id))
            && Acts(s.log) == multiset(Resolution(s.won)) && s.complete.value.reason == ReasonOf(s.won)
  {
    var s := Run(events);
    RunKeepsInv(events);
    assert PhaseInv(s, s.complete.value.id);
  }

  // ---------------------------------------------------------------- a decline beside a resolution

  lemma RunTake(events: seq<Event>, k: nat)
    requires k < |events|
    ensures Run(events[..k + 1]) == Step(Run(events[..k]), events[k])
  {
    assert events[..k + 1][..k] == events[..k];
  }

  function FinishedSide(bot: string): Row {
    Row(bot, Finished, "", None)
  }

  lemma OneFinished(bot: string)
    ensures var rows := [FinishedSide(bot)]; NoticeActs(rows) == [] && RoundActs(rows) == [Dispatch(bot)]
  {
    var rows := [FinishedSide(bot)];
    FilterAll((r: Row) => r.state.Finished?, rows);
    FilterNone((r: Row) => !r.state.Finished? && !r.state.Abandoned?, rows);
  }

  /** A finished side, an invocation that finds no router, and another that does. */
  function DeclineThenResolve(): seq<Event> {
    [Stop("a", Finished), Invoke(1), Identify(1, true, false), Invoke(2), Identify(2, true, true),
     Read(2, [FinishedSide("a")], {}), Claim(2, NoFault), Hand(2, Dispatch("a"))]
  }

  function Declined(): Sys {
    Sys(map["a" := Finished], [map[], map["a" := Finished]], None, [], [], Some(Mark(1, NoRouter)), map[1 := Stopped],
      [])
  }

  lemma DeclineFirst()
    ensures Run(DeclineThenResolve()[..3]) == Declined()
  {
    var e := DeclineThenResolve();
    RunTake(e, 0);
    RunTake(e, 1);
    RunTake(e, 2);
  }

  function SecondAt(phase: Phase): Sys {
    Declined().(phases := map[1 := Stopped, 2 := phase])
  }

  lemma SecondIdentifies()
    ensures Step(Step(Declined(), Invoke(2)), Identify(2, true, true)) == SecondAt(Reading)
  {
    assert Step(Declined(), Invoke(2)) == SecondAt(Called);
  }

  lemma SecondReads()
    ensures Step(SecondAt(Reading), Read(2, [FinishedSide("a")], {})) == SecondAt(Claiming([FinishedSide("a")]))
  {
    ReadsOneSide();
  }

  function SecondClaimed(): Sys {
    var rows := [FinishedSide("a")];
    SecondAt(Resolving(rows, [], multiset{Dispatch("a")})).(claim := Some(Orchestrator(2)), won := rows,
      plan := [Dispatch("a")])
  }

  lemma SecondClaims()
    ensures Step(SecondAt(Claiming([FinishedSide("a")])), Claim(2, NoFault)) == SecondClaimed()
  {
    OneFinished("a");
    assert Resolution([FinishedSide("a")]) == [Dispatch("a")];
  }

  lemma SecondActs()
    ensures var s := Step(SecondClaimed(), Hand(2, Dispatch("a")));
            s.complete == Some(Mark(1, NoRouter)) && s.log == [Entry(2, Dispatch("a"))]
  {
  }

  lemma DeclineThenIdentify()
    ensures Run(DeclineThenResolve()[..5]) == SecondAt(Reading)
  {
    var e := DeclineThenResolve();
    DeclineFirst();
    SecondIdentifies();
    RunTake(e, 3);
    RunTake(e, 4);
  }

  lemma DeclineThenRead()
    ensures Run(DeclineThenResolve()[..6]) == SecondAt(Claiming([FinishedSide("a")]))
  {
    var e := DeclineThenResolve();
    DeclineThenIdentify();
    SecondReads();
    RunTake(e, 5);
  }

  lemma ReadsOneSide()
    ensures MayRead(SecondAt(Reading), [FinishedSide("a")]) && Proceeds([FinishedSide("a")], {})
  {
    var versions := SecondAt(Reading).versions;
    assert versions[1] == map["a" := Finished];
    assert Stood(versions, "a", Finished);
  }

  /**
   * A DECLINE MAY MISNAME THE END. An invocation that finds no router marks the duel over without the claim; another
   * may still claim it and hand the round out, and the marker goes on saying there was no router.
   */
  lemma DeclineMisnamesTheEnd()
    ensures var s := Run(DeclineThenResolve());
            s.complete == Some(Mark(1, NoRouter)) && s.log == [Entry(2, Dispatch("a"))]
  {
    var e := DeclineThenResolve();
    DeclineThenRead();
    SecondClaims();
    SecondActs();
    RunTake(e, 6);
    RunTake(e, 7);
    assert e[..8] == e;
  }
}
