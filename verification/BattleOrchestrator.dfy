/**
 * The orchestrator's handler from its call to its last write, with nothing beside it
 * (backend/lambda/src/battle-orchestrator.ts).
 */
module BattleOrchestrator {
  import opened Prelude
  import opened BattleResolution
  import opened BattleProtocol

  /** The claim is landed and told so. */
  predicate Wins(claimed: bool, fault: Fault) {
    !claimed && fault.NoFault?
  }

  /** What a call makes of the duel: nothing, unless it knows its router, may proceed and wins the claim. */
  function Made(rows: seq<Row>, claimed: bool, classified: bool, routed: bool, pastDue: set<string>,
      fault: Fault): seq<Act>
  {
    if classified && routed && Proceeds(rows, pastDue) && Wins(claimed, fault) then Resolution(rows) else []
  }

  function MarkedBy(rows: seq<Row>, claimed: bool, classified: bool, routed: bool, pastDue: set<string>,
      fault: Fault): Option<Reason>
  {
    if !classified then Some(NoClassification)
    else if !routed then Some(NoRouter)
    else if Proceeds(rows, pastDue) && Wins(claimed, fault) then Some(ReasonOf(rows)) else None
  }

  /** The first four steps of an invocation nothing else comes between. */
  function Began(s: Sys, id: nat, rows: seq<Row>, classified: bool, routed: bool, pastDue: set<string>,
      fault: Fault): Sys
  {
    Step(Step(Step(Step(s, Invoke(id)), Identify(id, classified, routed)), Read(id, rows, pastDue)), Claim(id, fault))
  }

  lemma IdentifiesIff(s: Sys, id: nat, classified: bool, routed: bool)
    requires id !in s.phases
    ensures var t := Step(Step(s, Invoke(id)), Identify(id, classified, routed));
            && t.claim == s.claim && t.versions == s.versions
            && t.phases == s.phases[id := if classified && routed then Reading else Stopped]
            && t.complete == if s.complete.Some? || (classified && routed) then s.complete
                             else Some(Mark(id, if classified then NoRouter else NoClassification))
  {
  }

  lemma ClaimsIff(s: Sys, id: nat, rows: seq<Row>, pastDue: set<string>, fault: Fault)
    requires id in s.phases && s.phases[id].Reading? && MayRead(s, rows)
    ensures var t := Step(Step(s, Read(id, rows, pastDue)), Claim(id, fault));
            && t.complete == s.complete && id in t.phases
            && t.phases[id] == if Proceeds(rows, pastDue) && Wins(s.claim.Some?, fault)
                               then Resolving(rows, NoticeActs(rows), multiset(RoundActs(rows))) else Stopped
  {
  }

  lemma StoppedStays(s: Sys, id: nat, rows: seq<Row>, pastDue: set<string>, fault: Fault)
    requires id in s.phases && s.phases[id].Stopped?
    ensures Step(Step(s, Read(id, rows, pastDue)), Claim(id, fault)) == s
  {
  }

  /** Rows that proceed always call for some act. */
  lemma ResolvesSomething(rows: seq<Row>)
    ensures Resolution(rows) != []
      && multiset(Resolution(rows)) == multiset(NoticeActs(rows)) + multiset(RoundActs(rows))
  {
    if Completed(rows) != [] { assert |DispatchActs(rows)| == |Completed(rows)|; }
  }

  /**
   * THE CALL AND THE PROTOCOL AGREE. Left alone, an invocation of the protocol comes to act exactly where a call of the
   * handler makes any act, and then has that call's acts to make; where it does not, both leave one marker.
   */
  lemma BeginsToActIff(s: Sys, id: nat, rows: seq<Row>, classified: bool, routed: bool, pastDue: set<string>,
      fault: Fault)
    requires id !in s.phases && MayRead(s, rows)
    ensures var t := Began(s, id, rows, classified, routed, pastDue, fault);
            var made := Made(rows, s.claim.Some?, classified, routed, pastDue, fault);
            && id in t.phases
            && (made != [] ==>
                  && t.phases[id].Resolving?
                  && multiset(t.phases[id].notices) + t.phases[id].round == multiset(made))
            && (made == [] ==> t.phases[id].Stopped?)
            && (made == [] && s.complete.None? ==>
                  t.complete == match MarkedBy(rows, s.claim.Some?, classified, routed, pastDue, fault)
                                case None => None
                                case Some(reason) => Some(Mark(id, reason)))
  {
    var t := Step(Step(s, Invoke(id)), Identify(id, classified, routed));
    IdentifiesIff(s, id, classified, routed);
    ResolvesSomething(rows);
    if classified && routed {
      ClaimsIff(t, id, rows, pastDue, fault);
    } else {
      StoppedStays(t, id, rows, pastDue, fault);
    }
  }

  class DuelTable {
    var rows: seq<Row>
    var claimed: bool
    var complete: Option<Reason>

    constructor (rows: seq<Row>)
      ensures this.rows == rows && !claimed && complete == None
    {
      this.rows, claimed, complete := rows, false, None;
    }

    /** A put that lands once; a caller told of an error does not know whether it landed. */
    method TryClaim(fault: Fault) returns (told: bool)
      modifies this`claimed
      ensures told == Wins(old(claimed), fault)
      ensures claimed == (old(claimed) || !fault.Unsent?)
    {
      told := false;
      if !fault.Unsent? {
        told := !claimed && fault.NoFault?;
        claimed := true;
      }
    }

    /** The marker is created where there is none. */
    method EmitComplete(reason: Reason)
      modifies this`complete
      ensures complete == if old(complete).Some? then old(complete) else Some(reason)
    {
      if complete.None? { complete := Some(reason); }
    }

    /** One call of the handler. */
    method Handle(classified: bool, routed: bool, pastDue: set<string>, fault: Fault) returns (acts: seq<Act>)
      modifies this`claimed, this`complete
      ensures acts == Made(rows, old(claimed), classified, routed, pastDue, fault)
      ensures claimed == (old(claimed) || (classified && routed && Proceeds(rows, pastDue) && !fault.Unsent?))
      ensures var mark := MarkedBy(rows, old(claimed), classified, routed, pastDue, fault);
              complete == if old(complete).Some? then old(complete) else mark
    {
      acts := [];
      if !classified {
        EmitComplete(NoClassification);
        return;
      }
      if !routed {
        EmitComplete(NoRouter);
        return;
      }
      if rows == [] { return; }
      if !AllTerminal(rows) {
        if !Stalled(rows, pastDue) { return; }
      }
      var told := TryClaim(fault);
      if !told { return; }
      var rebuttals, reason;
      acts, rebuttals, reason := Resolve(rows);
      EmitComplete(reason);
    }
  }
}
