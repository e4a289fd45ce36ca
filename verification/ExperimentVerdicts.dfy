/**
 * What each route answers, in fields of the row and of what the decision reads beside it: when it writes, when it
 * refuses and why, and every field of what it writes (backend/lambda/src/admin-experiments.ts).
 */
module ExperimentVerdicts {
  import opened Prelude
  import opened ExperimentRow
  import opened ExperimentLifecycle

  /** The edges of the lifecycle. */
  lemma TableEdges(from: Option<Status>, to: Status)
    ensures IsAllowedTransition(from, to) <==>
      || (from == Some(Draft) && (to == Active || to == Deleted))
      || (from == Some(Active) && (to == Paused || to == Completed || to == Deleted))
      || (from == Some(Paused) && (to == Active || to == Completed || to == Deleted))
      || (from == Some(Completed) && to == Deleted)
  {
  }

  /** Who an entry names, and how it is tagged. */
  lemma EntrySays(row: Row, action: Action, env: Env)
    requires Decide(Some(row), action, env).Put?
    ensures var row' := Decide(Some(row), action, env).row;
            var to := row'.status.value;
            row'.transitions == Some(Audit(row) + [match action
              case Upsert(_) => Entry(From(row.status), to, env.actor, env.now, "edit")
              case SetStatus(_, _) =>
                Entry(From(row.status), to, env.actor, env.now,
                  if to == Active then "status:active" else if to == Paused then "status:paused"
                    else "status:completed")
              case Promote(_, _) => Entry(From(row.status), to, env.actor, env.now, "promote")
              case Remove => Entry(From(row.status), to, env.actor, env.now, "delete:soft")
              case AutoComplete => Entry(From(row.status), to, "system", env.now, "auto:endDate")])
  {
    match action
    case Upsert(input) => EditEntry(row, input, env);
    case SetStatus(to, decision) => SetEntry(row, to, decision, env);
    case _ =>
  }

  // ---------------------------------------------------------------- a row that is not there

  /** With no row, nothing but a create writes; what is refused first is what is checked before the read. */
  lemma MissingRefused(action: Action, env: Env)
    requires !action.Upsert?
    ensures var verdict := Decide(None, action, env);
            && verdict.Refuse?
            && (verdict.why == StatusInvalid <==> action.SetStatus? && (action.to == Draft || action.to == Deleted))
            && (verdict.why == PromotionForbidden <==> action.Promote? && !env.managesProfiles)
            && (verdict.why == NoteInvalid <==> action.Promote? && env.managesProfiles && !action.noteValid)
            && (verdict.why in {StatusInvalid, PromotionForbidden, NoteInvalid, NotFound})
  {
  }

  // ---------------------------------------------------------------- promotion

  predicate Promotable(row: Row, noteValid: bool, env: Env) {
    && env.managesProfiles && noteValid
    && (row.status == Some(Active) || row.status == Some(Paused))
    && row.servesVersions && env.writerWired && env.promotion.Some?
  }

  /**
   * WHO PROMOTES. A promotion writes exactly when the caller manages profiles, the note is valid, the row runs or is
   * paused and serves versions, and the profile writer is there and answers; it completes the row as the treatment
   * promoted.
   */
  lemma PromotesIff(row: Row, note: Option<string>, noteValid: bool, env: Env)
    ensures var verdict := Decide(Some(row), Promote(note, noteValid), env);
            && (verdict.Put? <==> Promotable(row, noteValid, env))
            && !verdict.Drop?
            && (verdict.Put? ==>
                  && verdict.row.status == Some(Completed)
                  && verdict.row.decision == Some(Decision(PromotedTreatment, note, env.actor, env.now))
                  && verdict.row.promotion.Some?
                  && verdict.row.promotion.value.at == env.now && verdict.row.promotion.value.actor == env.actor
                  && verdict.row.promotion.value.profileName == env.promotion.value.profileName
                  && verdict.row.promotion.value.version == env.promotion.value.version
                  && verdict.row.promotion.value.configId == env.promotion.value.configId
                  && OnlyOutcome(row, verdict.row))
  {
  }

  /** One row is the other but for its status, its audit and its outcome. */
  predicate OnlyOutcome(row: Row, after: Row) {
    after == row.(status := after.status, transitions := after.transitions, decision := after.decision,
                  promotion := after.promotion)
  }

  /** Of what stands in a promotion's way, the first is the one named. */
  lemma PromotionRefusals(row: Row, note: Option<string>, noteValid: bool, env: Env)
    requires !Promotable(row, noteValid, env)
    ensures var why := Decide(Some(row), Promote(note, noteValid), env).why;
            && (why == PromotionForbidden <==> !env.managesProfiles)
            && (why == NoteInvalid <==> env.managesProfiles && !noteValid)
            && (why == NotRunning ==> row.status != Some(Active) && row.status != Some(Paused))
            && (why == NeedsTwoVersions ==> !row.servesVersions)
            && (why == PromotionUnavailable ==> !env.writerWired)
            && (why == PromotionDeclined <==>
                  && env.managesProfiles && noteValid && env.writerWired && row.servesVersions
                  && (row.status == Some(Active) || row.status == Some(Paused)))
            && why in {PromotionForbidden, NoteInvalid, NotRunning, NeedsTwoVersions, PromotionUnavailable,
                       PromotionDeclined}
  {
  }

  // ---------------------------------------------------------------- removal

  /** A removal drops exactly a draft none of whose variants saw traffic; of any other row it leaves a tombstone. */
  lemma RemovesIff(row: Row, env: Env)
    ensures var verdict := Decide(Some(row), Remove, env);
            && (verdict.Drop? <==>
                  row.status == Some(Draft) && forall k :: 0 <= k < |row.variants| ==>
                    row.variants[k].exchangeCount <= 0)
            && !verdict.Refuse?
            && (verdict.Put? ==>
                  verdict.row == row.(status := Some(Deleted), transitions := verdict.row.transitions))
  {
    forall v | v in row.variants ensures exists k :: 0 <= k < |row.variants| && row.variants[k] == v {}
  }

  // ---------------------------------------------------------------- what an active row's pins name

  /** The role whose assistants the row's two versions belong to, and the name of its live one. */
  predicate Compares(row: Row, names: Names, role: (string, string), live: string) {
    if row.experimentType == Some(Profile) && |row.variants| > 0 && row.variants[0].profileRef.Some? then
      && live == row.variants[0].profileRef.value.profileName
      && live in names.roleOfAssistant && names.roleOfAssistant[live] == role
    else
      && |row.tiers| == 1 && role == (row.tiers[0], "primary")
      && role in names.roleAssistantName && names.roleAssistantName[role] == live
  }

  /** The control pins a version of the live assistant, and the treatment one of its alt's, derived for this variant. */
  predicate PinsName(row: Row, env: Env, role: (string, string), live: string) {
    && |row.variants| >= 2
    && row.variants[0].controlPin.Some? && row.variants[1].altPin.Some?
    && var control, alt := row.variants[0].controlPin.value, row.variants[1].altPin.value;
    && control.profileName == live && control.version >= 1
    && role in env.names.altAssistantName
    && alt.profileName == env.names.altAssistantName[role] && alt.version >= 1
    && alt in env.derivedFrom && env.derivedFrom[alt] == (row.experimentId, row.variants[1].variantId)
  }

  lemma ArmableIff(row: Row, env: Env)
    ensures Armable(row, env) <==>
      exists role, live :: Compares(row, env.names, role, live) && PinsName(row, env, role, live)
  {
    var role, live := RoleOf(row, env.names), LiveAssistant(row, env.names);
    if role.Some? && live.Some? && Armable(row, env) {
      assert Compares(row, env.names, role.value, live.value) && PinsName(row, env, role.value, live.value);
    }
  }

  /** WHAT AN ACTIVE ROW SERVES, whichever route stored it: its two pins name its role's live assistant and its alt. */
  lemma ActivePinsName(existing: Option<Row>, action: Action, env: Env) returns (role: (string, string), live: string)
    requires Decide(existing, action, env).Put? && Decide(existing, action, env).row.status == Some(Active)
    ensures var row := Decide(existing, action, env).row;
            Compares(row, env.names, role, live) && PinsName(row, env, role, live)
  {
    var row := Decide(existing, action, env).row;
    ActiveWriteIsArmable(existing, action, env);
    ArmableIff(row, env);
    role, live :| Compares(row, env.names, role, live) && PinsName(row, env, role, live);
  }

  // ---------------------------------------------------------------- pins derived anew

  /**
   * The write derives both pins anew exactly when it sets a row active that is not already running with its versions.
   */
  lemma ArmsIff(existing: Option<Row>, action: Action, env: Env)
    requires Decide(existing, action, env).Put?
    ensures ArmsRow(existing, action, env) <==>
      && Decide(existing, action, env).row.status == Some(Active)
      && !(existing.Some? && existing.value.status == Some(Active) && existing.value.servesVersions)
  {
  }

  /**
   * The variants armed: as they are where no writer is wired, and otherwise the first two with the pins it answered.
   */
  predicate Pinned(before: seq<Variant>, after: seq<Variant>, d: Derivation) {
    match d
    case NotWired => after == before
    case Declined => false
    case Derived(controlPin, altPin) =>
      && |after| == 2
      && (|before| >= 1 ==> after[0] == before[0].(controlPin := Some(controlPin)))
      && (|before| >= 2 ==> after[1] == before[1].(altPin := Some(altPin)))
  }

  // ---------------------------------------------------------------- the status route

  /** What the status route is asked stands: the edge, the window, both limits, the pins, and the outcome recorded. */
  predicate MaySet(row: Row, to: Status, decision: Option<DecisionInput>, env: Env) {
    && (to == Active || to == Paused || to == Completed)
    && IsAllowedTransition(row.status, to)
    && (to == Active ==>
          && (row.endDate.None? || row.endDate.value > env.now)
          && !env.overCap && !env.classificationOccupied && !env.derivation.Declined?)
    && (to == Completed && decision.Some? ==> decision.value.outcome.Some? && decision.value.noteValid)
  }

  /**
   * WHAT THE STATUS ROUTE WRITES. It writes only where what it is asked stands, and then exactly unless it activates a
   * row whose pins do not name its role's assistants. Ending a row with a decision records that outcome and that note.
   */
  lemma SetsStatusIff(row: Row, to: Status, decision: Option<DecisionInput>, env: Env)
    ensures var verdict := Decide(Some(row), SetStatus(to, decision), env);
            && !verdict.Drop?
            && (to != Active ==> (verdict.Put? <==> MaySet(row, to, decision, env)))
            && (verdict.Put? ==> MaySet(row, to, decision, env))
            && (MaySet(row, to, decision, env) && verdict.Refuse? ==> verdict.why == NotArmable)
            && (verdict.Put? ==>
                  && verdict.row == row.(status := Some(to), transitions := verdict.row.transitions,
                       variants := verdict.row.variants, decision := verdict.row.decision,
                       servesVersions := row.servesVersions || to == Active)
                  && (if to == Active then Pinned(row.variants, verdict.row.variants, env.derivation)
                      else verdict.row.variants == row.variants)
                  && verdict.row.decision ==
                       if to == Completed && decision.Some?
                       then Some(Decision(decision.value.outcome.value, decision.value.note, env.actor, env.now))
                       else row.decision)
  {
  }

  /** An activation the status route may make is refused exactly when the pins it would store name no assistant's. */
  lemma ActivatesIff(row: Row, decision: Option<DecisionInput>, env: Env, armed: Row)
    requires MaySet(row, Active, decision, env) && |row.variants| >= 2
    requires Pinned(row.variants, armed.variants, env.derivation) && armed == row.(variants := armed.variants)
    ensures Decide(Some(row), SetStatus(Active, decision), env).Put? <==>
      exists role, live :: Compares(armed, env.names, role, live) && PinsName(armed, env, role, live)
  {
    ArmableIff(armed, env);
    var derived := DeriveVersions(row.variants, env.derivation);
    assert armed.variants == derived.value;
  }

  /** Of what stands in the status route's way, what is named. */
  lemma StatusRefusals(row: Row, to: Status, decision: Option<DecisionInput>, env: Env)
    requires !MaySet(row, to, decision, env)
    ensures var why := Decide(Some(row), SetStatus(to, decision), env).why;
            && (why == StatusInvalid <==> to == Draft || to == Deleted)
            && (why == InvalidTransition <==> to in {Active, Paused, Completed} && !IsAllowedTransition(row.status, to))
            && (why == WindowEnded ==> to == Active && row.endDate.Some? && row.endDate.value <= env.now)
            && (why == MaxActive ==> to == Active && env.overCap)
            && (why == ClassificationOccupied ==> to == Active && env.classificationOccupied && !env.overCap)
            && (why == DerivationDeclined ==> to == Active && env.derivation.Declined?)
            && (why == DecisionInvalid <==>
                  && to == Completed && IsAllowedTransition(row.status, to) && decision.Some?
                  && (decision.value.outcome.None? || !decision.value.noteValid))
            && why in {StatusInvalid, InvalidTransition, WindowEnded, MaxActive, ClassificationOccupied,
                       DerivationDeclined, DecisionInvalid}
  {
  }

  // ---------------------------------------------------------------- the list read's auto-complete

  /** A running or paused row is completed exactly when its end date has come. */
  lemma AutoCompletesIff(row: Row, env: Env)
    ensures var verdict := Decide(Some(row), AutoComplete, env);
            && (verdict.Put? <==>
                  && (row.status == Some(Active) || row.status == Some(Paused))
                  && row.endDate.Some? && row.endDate.value <= env.now)
            && !verdict.Drop?
            && (verdict.Put? ==>
                  verdict.row == row.(status := Some(Completed), transitions := verdict.row.transitions))
  {
  }

  // ---------------------------------------------------------------- create and edit

  /** The status an upsert asks for: the one named, or the one the row has, or active. */
  predicate AsksFor(existing: Option<Row>, input: Input, to: Status) {
    if input.status.Some? then to == input.status.value
    else if existing.Some? && existing.value.status.Some? then to == existing.value.status.value
    else to == Active
  }

  /** What an upsert asks stands, before any limit or pin is looked at. */
  predicate MayUpsert(existing: Option<Row>, input: Input, env: Env) {
    && env.valid && (input.battleEnabled ==> env.altProvisioned)
    && (existing.Some? ==>
          var row := existing.value;
          && row.status != Some(Completed) && row.status != Some(Deleted)
          && (input.status.Some? && input.status != row.status ==> IsAllowedTransition(row.status, input.status.value))
          && (row.status != Some(Draft) ==> ComparesSame(row, input)))
  }

  /** The edit asks for what the row compares: its type, intent, classifications and variants. */
  predicate ComparesSame(row: Row, input: Input) {
    && (if input.experimentType.Some? then input.experimentType.value else Intent)
       == (if row.experimentType.Some? then row.experimentType.value else Intent)
    && (if input.intent.Some? then input.intent.value else "") == (if row.intent.Some? then row.intent.value else "")
    && multiset(input.tiers) == multiset(row.tiers)
    && !VariantsChanged(input.variants, row.variants)
  }

  lemma KeptPasses(kept: seq<Variant>, input: seq<Variant>, stored: seq<Variant>)
    requires |kept| == |input| && forall i :: 0 <= i < |input| ==> IdentityOf(kept[i]) == IdentityOf(input[i])
    ensures VariantsChanged(kept, stored) <==> VariantsChanged(input, stored)
  {
    PassesIff(kept, stored);
    PassesIff(input, stored);
  }

  lemma SameProposed(row: Row, input: Input, env: Env)
    ensures ComparisonChanged(Proposed(input, Some(row), env), row) <==> !ComparesSame(row, input)
  {
    var kept := KeptVariants(input.variants, Some(row));
    forall i | 0 <= i < |kept| ensures IdentityOf(kept[i]) == IdentityOf(input.variants[i]) {
      assert kept[i] == KeepPins(input.variants[i], i, PriorOf(input.variants[i], Some(row)));
    }
    KeptPasses(kept, input.variants, row.variants);
  }

  /** An upsert that asks for a status other than active writes exactly when what it asks stands. */
  lemma UpsertsIff(existing: Option<Row>, input: Input, env: Env)
    ensures var verdict := Decide(existing, Upsert(input), env);
            && !verdict.Drop?
            && (verdict.Put? ==> MayUpsert(existing, input, env) && AsksFor(existing, input, verdict.row.status.value))
            && (MayUpsert(existing, input, env) && !AsksFor(existing, input, Active) ==> verdict.Put?)
            && (MayUpsert(existing, input, env) && AsksFor(existing, input, Active) ==>
                  && (verdict.Put? ==> !env.overCap && !env.classificationOccupied)
                  && (verdict.Refuse? ==>
                        && verdict.why in {MaxActive, ClassificationOccupied, DerivationDeclined, NotArmable}
                        && (verdict.why == MaxActive <==> env.overCap)
                        && (verdict.why == ClassificationOccupied <==> !env.overCap && env.classificationOccupied)))
  {
    if existing.Some? { SameProposed(existing.value, input, env); }
  }

  /** Of what stands in an upsert's way, what is named. */
  lemma UpsertRefusals(existing: Option<Row>, input: Input, env: Env)
    requires !MayUpsert(existing, input, env)
    ensures Decide(existing, Upsert(input), env).Refuse?
    ensures var why := Decide(existing, Upsert(input), env).why;
            && (why == TerminalRow <==>
                  existing.Some? && (existing.value.status == Some(Completed)
                    || existing.value.status == Some(Deleted)))
            && (why == InvalidTransition ==>
                  existing.Some? && input.status.Some?
                    && !IsAllowedTransition(existing.value.status, input.status.value))
            && (why == AltNotProvisioned ==> input.battleEnabled && !env.altProvisioned)
            && (why == ValidationFailed ==> !env.valid && (input.battleEnabled ==> env.altProvisioned))
            && (why == LiveEditLocked ==>
                  existing.Some? && existing.value.status != Some(Draft) && !ComparesSame(existing.value, input))
            && why in {TerminalRow, InvalidTransition, AltNotProvisioned, ValidationFailed, LiveEditLocked}
  {
    if existing.Some? { SameProposed(existing.value, input, env); }
  }

  /** A stored variant is the input's, but for the pins, which are the server's. */
  predicate SameButPins(v: Variant, input: Variant) {
    v == input.(controlPin := v.controlPin, altPin := v.altPin)
  }

  /**
   * WHAT AN UPSERT STORES: the input's fields, the server's record, and its variants with the server's pins; two of
   * them where the writer derived the pins anew, and otherwise all.
   */
  lemma UpsertStores(existing: Option<Row>, input: Input, env: Env)
    requires Decide(existing, Upsert(input), env).Put?
    ensures var row := Decide(existing, Upsert(input), env).row;
            && row.experimentId == input.experimentId
            && row.experimentType == Some(if input.experimentType.Some? then input.experimentType.value else Intent)
            && row.intent == input.intent && row.tiers == input.tiers && row.endDate == input.endDate
            && row.details == input.details && row.battleEnabled == input.battleEnabled
            && row.boundBy == (if input.battleEnabled then Some(env.actor) else input.boundBy)
            && row.boundAt == (if input.battleEnabled then Some(env.now) else input.boundAt)
            && row.createdAt == (if existing.Some? then existing.value.createdAt else env.now)
            && row.decision == (if existing.Some? then existing.value.decision else None)
            && row.promotion == None
  {
  }

  lemma StrippedVariants(existing: Option<Row>, input: Input, env: Env)
    ensures var vs := Stripped(Proposed(input, existing, env), existing).variants;
            |vs| == |input.variants|
            && forall k :: 0 <= k < |vs| ==> SameButPins(vs[k], input.variants[k])
  {
    var proposed := Proposed(input, existing, env);
    forall k | 0 <= k < |input.variants| ensures SameButPins(proposed.variants[k], input.variants[k]) {
      assert proposed.variants[k] == KeepPins(input.variants[k], k, PriorOf(input.variants[k], existing));
    }
  }

  lemma UpsertVariants(existing: Option<Row>, input: Input, env: Env)
    requires Decide(existing, Upsert(input), env).Put?
    ensures var row := Decide(existing, Upsert(input), env).row;
            && (forall k :: 0 <= k < |row.variants| && k < |input.variants| ==>
                  SameButPins(row.variants[k], input.variants[k]))
            && |row.variants| == if ArmsRow(existing, Upsert(input), env) && env.derivation.Derived? then 2
                                 else |input.variants|
  {
    StrippedVariants(existing, input, env);
    KeepsOrArms(Stripped(Proposed(input, existing, env), existing), existing, env);
  }

  lemma KeepsOrArms(row: Row, existing: Option<Row>, env: Env)
    requires ArmOrKeep(row, existing, env).Put?
    ensures ArmOrKeep(row, existing, env).row.variants ==
            if Arms(row, existing) then DeriveVersions(row.variants, env.derivation).value else row.variants
  {
  }

  /** A client's pins never reach a created row: what it stores is what the writer answered, or nothing. */
  lemma CreatedPins(input: Input, env: Env)
    requires Decide(None, Upsert(input), env).Put?
    ensures var row := Decide(None, Upsert(input), env).row;
            && row.servesVersions == (row.status == Some(Active))
            && forall k :: 0 <= k < |row.variants| ==>
              && (row.variants[k].controlPin.Some? ==>
                    k == 0 && env.derivation.Derived? && row.variants[k].controlPin.value == env.derivation.controlPin)
              && (row.variants[k].altPin.Some? ==>
                    k == 1 && env.derivation.Derived? && row.variants[k].altPin.value == env.derivation.altPin)
  {
    var proposed := Proposed(input, None, env);
    forall k | 0 <= k < |input.variants|
      ensures proposed.variants[k].controlPin.None? && proposed.variants[k].altPin.None?
    {
      assert proposed.variants[k] == KeepPins(input.variants[k], k, PriorOf(input.variants[k], None));
    }
  }
}
