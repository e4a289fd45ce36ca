/**
 * What each admin action decides from the row it read (backend/lambda/src/admin-experiments.ts). Every
 * decision is a refusal, a whole new row, or the removal of the row; the write itself is guarded
 * (`ExperimentProtocol`).
 */
module ExperimentLifecycle {
  import opened Prelude
  import opened ExperimentRow

  /** An upsert's body. The pins, `servesVersions`, the audit and the decision are never read from it. */
  datatype Input = Input(
    experimentId: string,
    status: Option<Status>,
    experimentType: Option<ExperimentType>,
    intent: Option<string>,
    tiers: seq<string>,
    variants: seq<Variant>,
    endDate: Option<nat>,
    details: Details,
    battleEnabled: bool,
    boundBy: Option<string>,
    boundAt: Option<nat>)

  /** An operator's recorded outcome; `outcome` is absent when it is none of the three. */
  datatype DecisionInput = DecisionInput(outcome: Option<Outcome>, note: Option<string>, noteValid: bool)

  datatype Action =
    | SetStatus(to: Status, decision: Option<DecisionInput>)
    | Promote(note: Option<string>, noteValid: bool)
    | Remove
    | Upsert(input: Input)
    | AutoComplete

  /** What the profile writer answers when it is asked to pin the two versions. */
  datatype Derivation = NotWired | Declined | Derived(controlPin: Pin, altPin: Pin)

  /** The names the registry declares, as the arming check reads them. */
  datatype Names = Names(
    roleOfAssistant: map<string, (string, string)>,
    altAssistantName: map<(string, string), string>,
    roleAssistantName: map<(string, string), string>)

  /**
   * Everything a decision reads besides the row: the clock, the caller, the other rows, the validator's
   * verdict, the profile writer's answers, and the `derivedFrom` of each readable version.
   */
  datatype Env = Env(
    now: nat,
    actor: string,
    managesProfiles: bool,
    writerWired: bool,
    valid: bool,
    altProvisioned: bool,
    overCap: bool,
    classificationOccupied: bool,
    derivation: Derivation,
    names: Names,
    derivedFrom: map<Pin, (string, string)>,
    promotion: Option<Promotion>)

  datatype Refusal =
    | NotFound | StatusInvalid | InvalidTransition | WindowEnded | MaxActive | ClassificationOccupied
    | DerivationDeclined | NotArmable | DecisionInvalid | PromotionForbidden | NoteInvalid | NotRunning
    | NeedsTwoVersions | PromotionUnavailable | PromotionDeclined | TerminalRow | AltNotProvisioned
    | ValidationFailed | LiveEditLocked | NotExpired

  datatype Verdict = Refuse(why: Refusal) | Put(row: Row) | Drop

  const DUEL_ROLE := "primary"

  function Append(row: Option<Row>, entry: Entry): Option<seq<Entry>> {
    Some((if row.Some? then Audit(row.value) else []) + [entry])
  }

  // ---------------------------------------------------------------- arming

  /** The two variants with their pins, or a refusal. A variant the row lacks is one with no id. */
  function DeriveVersions(vs: seq<Variant>, d: Derivation): Option<seq<Variant>> {
    match d
    case NotWired => Some(vs)
    case Declined => None
    case Derived(controlPin, altPin) =>
      Some([At(vs, 0).(controlPin := Some(controlPin)), At(vs, 1).(altPin := Some(altPin))])
  }

  function At(vs: seq<Variant>, i: nat): Variant {
    if i < |vs| then vs[i] else Variant("", None, None, None, None, 0, 0, None, None)
  }

  predicate NamesVersionOf(pin: Option<Pin>, assistant: string) {
    pin.Some? && pin.value.profileName == assistant && pin.value.version >= 1
  }

  /** The role whose live assistant and alt an experiment compares. */
  function RoleOf(row: Row, names: Names): Option<(string, string)> {
    if TypeOf(row) == Profile && |row.variants| > 0 && row.variants[0].profileRef.Some? then
      var name := row.variants[0].profileRef.value.profileName;
      if name in names.roleOfAssistant then Some(names.roleOfAssistant[name]) else None
    else if |row.tiers| == 1 then Some((row.tiers[0], DUEL_ROLE))
    else None
  }

  function LiveAssistant(row: Row, names: Names): Option<string> {
    if TypeOf(row) == Profile && |row.variants| > 0 && row.variants[0].profileRef.Some? then
      Some(row.variants[0].profileRef.value.profileName)
    else
      var role := RoleOf(row, names);
      if role.Some? && role.value in names.roleAssistantName then Some(names.roleAssistantName[role.value]) else None
  }

  /** An experiment arms only with both versions pinned, the treatment's derived for this experiment. */
  predicate Armable(row: Row, env: Env) {
    var role := RoleOf(row, env.names);
    && role.Some? && role.value in env.names.altAssistantName
    && |row.variants| >= 2
    && var treatment := row.variants[1];
    && NamesVersionOf(treatment.altPin, env.names.altAssistantName[role.value])
    && treatment.altPin.value in env.derivedFrom
    && env.derivedFrom[treatment.altPin.value] == (row.experimentId, treatment.variantId)
    && var live := LiveAssistant(row, env.names);
    && live.Some?
    && NamesVersionOf(row.variants[0].controlPin, live.value)
  }

  // ---------------------------------------------------------------- POST /{id}/status

  predicate Ended(row: Row, now: nat) {
    row.endDate.Some? && row.endDate.value <= now
  }

  /** The statuses an operator may ask for. */
  const REQUESTABLE := {Active, Paused, Completed}

  /** How the audit tags a status change by hand. */
  function StatusReason(to: Status): string {
    match to
    case Draft => "status:draft"
    case Active => "status:active"
    case Paused => "status:paused"
    case Completed => "status:completed"
    case Deleted => "status:deleted"
  }

  function DecideStatus(row: Row, to: Status, decision: Option<DecisionInput>, env: Env): Verdict {
    if to !in REQUESTABLE then Refuse(StatusInvalid)
    else if !IsAllowedTransition(row.status, to) then Refuse(InvalidTransition)
    else if to == Active && Ended(row, env.now) then Refuse(WindowEnded)
    else if to == Active && env.overCap then Refuse(MaxActive)
    else if to == Active && env.classificationOccupied then Refuse(ClassificationOccupied)
    else
      var armed := if to == Active then DeriveVersions(row.variants, env.derivation) else Some(row.variants);
      if armed.None? then Refuse(DerivationDeclined)
      else if to == Active && !Armable(row.(variants := armed.value), env) then Refuse(NotArmable)
      else if to == Completed && decision.Some? && (decision.value.outcome.None? || !decision.value.noteValid) then
        Refuse(DecisionInvalid)
      else
        var entry := Entry(From(row.status), to, env.actor, env.now, StatusReason(to));
        var moved := row.(status := Some(to), transitions := Append(Some(row), entry), variants := armed.value,
          servesVersions := row.servesVersions || to == Active);
        Put(if to == Completed && decision.Some?
            then moved.(decision := Some(Decision(decision.value.outcome.value, decision.value.note, env.actor,
              env.now)))
            else moved)
  }

  // ---------------------------------------------------------------- POST /{id}/promote

  function DecidePromote(row: Row, note: Option<string>, noteValid: bool, env: Env): Verdict {
    if !env.managesProfiles then Refuse(PromotionForbidden)
    else if !noteValid then Refuse(NoteInvalid)
    else if row.status != Some(Active) && row.status != Some(Paused) then Refuse(NotRunning)
    else if !row.servesVersions then Refuse(NeedsTwoVersions)
    else if !env.writerWired then Refuse(PromotionUnavailable)
    else if env.promotion.None? then Refuse(PromotionDeclined)
    else
      var entry := Entry(From(row.status), Completed, env.actor, env.now, "promote");
      Put(row.(status := Some(Completed), transitions := Append(Some(row), entry),
        decision := Some(Decision(PromotedTreatment, note, env.actor, env.now)),
        promotion := Some(env.promotion.value.(at := env.now, actor := env.actor))))
  }

  // ---------------------------------------------------------------- DELETE /{id}

  predicate HasAccruedTraffic(row: Row) {
    exists v :: v in row.variants && v.exchangeCount > 0
  }

  function DecideRemove(row: Row, env: Env): Verdict {
    if row.status == Some(Draft) && !HasAccruedTraffic(row) then Drop
    else
      var entry := Entry(From(row.status), Deleted, env.actor, env.now, "delete:soft");
      Put(row.(status := Some(Deleted), transitions := Append(Some(row), entry)))
  }

  // ---------------------------------------------------------------- the list read's auto-complete

  predicate Expired(row: Row, now: nat) {
    (row.status == Some(Active) || row.status == Some(Paused)) && Ended(row, now)
  }

  function DecideAutoComplete(row: Row, now: nat): Verdict {
    if !Expired(row, now) then Refuse(NotExpired)
    else
      var entry := Entry(From(row.status), Completed, "system", now, "auto:endDate");
      Put(row.(status := Some(Completed), transitions := Append(Some(row), entry)))
  }

  // ---------------------------------------------------------------- POST / (create or edit)

  function FindVariant(vs: seq<Variant>, id: string): (r: Option<Variant>)
    ensures r.Some? ==> r.value in vs && r.value.variantId == id
    ensures r.None? ==> forall v :: v in vs ==> v.variantId != id
  {
    if vs == [] then None
    else if vs[0].variantId == id then Some(vs[0])
    else FindVariant(vs[1..], id)
  }

  /** Place `i` of an edit: the client's variant, with the stored variant's pin where it keeps one. */
  function KeepPins(v: Variant, i: nat, prior: Option<Variant>): Variant {
    v.(controlPin := if prior.Some? && i == 0 then prior.value.controlPin else None,
       altPin := if prior.Some? && i == 1 then prior.value.altPin else None)
  }

  function KeptVariants(input: seq<Variant>, existing: Option<Row>): (r: seq<Variant>)
    ensures |r| == |input|
    ensures forall i :: 0 <= i < |input| ==> r[i] == KeepPins(input[i], i, PriorOf(input[i], existing))
  {
    seq(|input|, i requires 0 <= i < |input| => KeepPins(input[i], i, PriorOf(input[i], existing)))
  }

  /** The stored variant an edit's variant keeps its pin from: the first of its id on a row armed before. */
  function PriorOf(v: Variant, existing: Option<Row>): Option<Variant> {
    if KeepsPins(existing) then FindVariant(existing.value.variants, v.variantId) else None
  }

  predicate KeepsPins(existing: Option<Row>) {
    existing.Some? && existing.value.servesVersions
  }

  function StatusOf(input: Input, existing: Option<Row>): Status {
    if input.status.Some? then input.status.value
    else if existing.Some? && existing.value.status.Some? then existing.value.status.value
    else Active
  }

  /** The row an upsert proposes, before the lock, the draft's stripping and the arming. */
  function Proposed(input: Input, existing: Option<Row>, env: Env): Row {
    var status := StatusOf(input, existing);
    Row(input.experimentId, Some(status),
      Some(if input.experimentType.Some? then input.experimentType.value else Intent),
      input.intent, input.tiers, KeptVariants(input.variants, existing), input.endDate,
      if existing.Some? then existing.value.createdAt else env.now,
      input.details, input.battleEnabled,
      if input.battleEnabled then Some(env.actor) else input.boundBy,
      if input.battleEnabled then Some(env.now) else input.boundAt,
      if existing.Some? then existing.value.decision else None,
      Append(existing, Entry(if existing.Some? then From(existing.value.status) else Create, status, env.actor, env.now,
        if existing.Some? then "edit" else "create")),
      KeepsPins(existing), None)
  }

  function WithoutPins(vs: seq<Variant>): (r: seq<Variant>)
    ensures |r| == |vs|
    ensures forall i :: 0 <= i < |vs| ==> r[i] == vs[i].(controlPin := None, altPin := None)
  {
    seq(|vs|, i requires 0 <= i < |vs| => vs[i].(controlPin := None, altPin := None))
  }

  /** A draft that changes what it compares drops the pins it holds. */
  function Stripped(row: Row, existing: Option<Row>): Row {
    if KeepsPins(existing) && existing.value.status == Some(Draft) && ComparisonChanged(row, existing.value)
    then row.(variants := WithoutPins(row.variants), servesVersions := false)
    else row
  }

  /** The upsert pins the two versions now: it makes the row active and the row is not already running pinned. */
  predicate Arms(row: Row, existing: Option<Row>) {
    row.status == Some(Active)
    && (!row.servesVersions || existing.None? || existing.value.status != Some(Active))
  }

  function DecideUpsert(existing: Option<Row>, input: Input, env: Env): Verdict {
    if existing.Some? && IsTerminal(existing.value.status) then Refuse(TerminalRow)
    else if existing.Some? && input.status.Some? && input.status != existing.value.status
            && !IsAllowedTransition(existing.value.status, input.status.value) then Refuse(InvalidTransition)
    else if input.battleEnabled && !env.altProvisioned then Refuse(AltNotProvisioned)
    else if !env.valid then Refuse(ValidationFailed)
    else
      var proposed := Proposed(input, existing, env);
      if existing.Some? && existing.value.status != Some(Draft) && ComparisonChanged(proposed, existing.value) then
        Refuse(LiveEditLocked)
      else ArmOrKeep(Stripped(proposed, existing), existing, env)
  }

  function ArmOrKeep(row: Row, existing: Option<Row>, env: Env): Verdict {
    if row.status != Some(Active) then Put(row)
    else if env.overCap then Refuse(MaxActive)
    else if env.classificationOccupied then Refuse(ClassificationOccupied)
    else if !Arms(row, existing) then (if Armable(row, env) then Put(row) else Refuse(NotArmable))
    else
      var armed := DeriveVersions(row.variants, env.derivation);
      if armed.None? then Refuse(DerivationDeclined)
      else
        var pinned := row.(variants := armed.value, servesVersions := true);
        if Armable(pinned, env) then Put(pinned) else Refuse(NotArmable)
  }

  /** What is refused before a row is found missing: the status and the promotion routes check their input first. */
  function Missing(action: Action, env: Env): Verdict {
    match action
    case SetStatus(to, _) => Refuse(if to in REQUESTABLE then NotFound else StatusInvalid)
    case Promote(_, noteValid) =>
      Refuse(if !env.managesProfiles then PromotionForbidden else if !noteValid then NoteInvalid else NotFound)
    case _ => Refuse(NotFound)
  }

  function Decide(existing: Option<Row>, action: Action, env: Env): Verdict {
    match action
    case Upsert(input) => DecideUpsert(existing, input, env)
    case _ => if existing.None? then Missing(action, env) else DecideStored(existing.value, action, env)
  }

  function DecideStored(row: Row, action: Action, env: Env): Verdict {
    match action
    case Upsert(input) => DecideUpsert(Some(row), input, env)
    case SetStatus(to, decision) => DecideStatus(row, to, decision, env)
    case Promote(note, noteValid) => DecidePromote(row, note, noteValid, env)
    case Remove => DecideRemove(row, env)
    case AutoComplete => DecideAutoComplete(row, env.now)
  }

  /** The write arms the row: it derives the two pins anew. */
  predicate ArmsRow(existing: Option<Row>, action: Action, env: Env) {
    match action
    case SetStatus(to, _) => to == Active
    case Upsert(input) => Arms(Stripped(Proposed(input, existing, env), existing), existing)
    case _ => false
  }

  // ---------------------------------------------------------------- an accepted arming

  lemma ArmedIsArmable(row: Row, existing: Option<Row>, env: Env)
    requires ArmOrKeep(row, existing, env).Put? && ArmOrKeep(row, existing, env).row.status == Some(Active)
    ensures Armable(ArmOrKeep(row, existing, env).row, env) && !env.overCap && !env.classificationOccupied
    ensures ArmOrKeep(row, existing, env).row.servesVersions
  {
  }

  lemma SetIsArmable(row: Row, to: Status, decision: Option<DecisionInput>, env: Env)
    requires DecideStatus(row, to, decision, env).Put?
      && DecideStatus(row, to, decision, env).row.status == Some(Active)
    ensures Armable(DecideStatus(row, to, decision, env).row, env) && !env.overCap && !env.classificationOccupied
    ensures DecideStatus(row, to, decision, env).row.servesVersions
  {
  }

  /** NOTHING RUNS UNPINNED. Whatever route stores an active row, it was armable, with room under both limits. */
  lemma ActiveWriteIsArmable(existing: Option<Row>, action: Action, env: Env)
    requires Decide(existing, action, env).Put? && Decide(existing, action, env).row.status == Some(Active)
    ensures Armable(Decide(existing, action, env).row, env) && !env.overCap && !env.classificationOccupied
    ensures Decide(existing, action, env).row.servesVersions
  {
    match action
    case Upsert(input) => ArmedIsArmable(Stripped(Proposed(input, existing, env), existing), existing, env);
    case SetStatus(to, decision) => SetIsArmable(existing.value, to, decision, env);
    case _ =>
  }

  lemma CheapRefusal(row: Row, existing: Option<Row>, env: Env, other: Derivation)
    requires !Arms(row, existing) || env.overCap || env.classificationOccupied
    ensures ArmOrKeep(row, existing, env) == ArmOrKeep(row, existing, env.(derivation := other))
  {
  }

  lemma CheapStatusRefusal(row: Row, to: Status, decision: Option<DecisionInput>, env: Env, other: Derivation)
    requires to != Active || env.overCap || env.classificationOccupied
    ensures DecideStatus(row, to, decision, env) == DecideStatus(row, to, decision, env.(derivation := other))
  {
  }

  /**
   * A refusal that costs nothing comes before the profile writer is asked: it is the same whatever the writer would
   * answer.
   */
  lemma CheapRefusalsComeFirst(existing: Option<Row>, action: Action, env: Env, other: Derivation)
    requires !ArmsRow(existing, action, env) || env.overCap || env.classificationOccupied
    ensures Decide(existing, action, env) == Decide(existing, action, env.(derivation := other))
  {
    match action
    case Upsert(input) => CheapRefusal(Stripped(Proposed(input, existing, env), existing), existing, env, other);
    case SetStatus(to, decision) =>
      if existing.Some? { CheapStatusRefusal(existing.value, to, decision, env, other); }
    case _ =>
  }

  /** Two rows alike but for the times written in them. */
  predicate SameButTimes(a: Row, b: Row) {
    b == a.(createdAt := b.createdAt, boundAt := b.boundAt, transitions := b.transitions)
  }

  lemma ArmableAtAnyTime(a: Row, b: Row, env: Env, later: nat)
    requires SameButTimes(a, b)
    ensures Armable(a, env) == Armable(b, env.(now := later))
  {
  }

  lemma ArmsAtAnyTime(a: Row, b: Row, existing: Option<Row>, env: Env, later: nat)
    requires SameButTimes(a, b)
    ensures ArmOrKeep(a, existing, env).Put? == ArmOrKeep(b, existing, env.(now := later)).Put?
  {
    ArmableAtAnyTime(a, b, env, later);
    var armed := DeriveVersions(a.variants, env.derivation);
    if armed.Some? {
      ArmableAtAnyTime(a.(variants := armed.value, servesVersions := true),
        b.(variants := armed.value, servesVersions := true), env, later);
    }
  }

  lemma ProposedAtAnyTime(input: Input, existing: Option<Row>, env: Env, later: nat)
    ensures var a, b := Proposed(input, existing, env), Proposed(input, existing, env.(now := later));
            && SameButTimes(a, b) && SameButTimes(Stripped(a, existing), Stripped(b, existing))
            && (existing.Some? ==> ComparisonChanged(a, existing.value) == ComparisonChanged(b, existing.value))
  {
  }

  /**
   * ONLY THE STATUS ROUTE READS THE WINDOW. It never activates an experiment whose end date has passed; a create or an
   * edit is accepted or refused alike at any hour, so it may.
   */
  lemma OnlyStatusReadsWindow(existing: Option<Row>, input: Input, row: Row, decision: Option<DecisionInput>, env: Env,
      later: nat)
    ensures Decide(Some(row), SetStatus(Active, decision), env).Put? ==> !Ended(row, env.now)
    ensures Decide(existing, Upsert(input), env).Put? <==> Decide(existing, Upsert(input), env.(now := later)).Put?
  {
    ProposedAtAnyTime(input, existing, env, later);
    ArmsAtAnyTime(Stripped(Proposed(input, existing, env), existing),
      Stripped(Proposed(input, existing, env.(now := later)), existing), existing, env, later);
  }

  // ---------------------------------------------------------------- an ended experiment made active

  /** The action is an upsert that names, keeps or defaults to active, with an end date already past. */
  predicate AsksEndedActive(existing: Option<Row>, action: Action, env: Env) {
    && action.Upsert?
    && StatusOf(action.input, existing) == Active
    && action.input.endDate.Some? && action.input.endDate.value <= env.now
  }

  /**
   * WHEN AN ENDED EXPERIMENT IS STORED ACTIVE. An accepted action stores an active row whose end date has passed
   * exactly when it is an upsert to active that carries such a date; no other route does.
   */
  lemma StoresEndedActiveIff(existing: Option<Row>, action: Action, env: Env)
    requires Decide(existing, action, env).Put?
    ensures var row := Decide(existing, action, env).row;
            row.status == Some(Active) && Ended(row, env.now) <==> AsksEndedActive(existing, action, env)
  {
    if action.Upsert? {
      var proposed := Proposed(action.input, existing, env);
      assert Stripped(proposed, existing).status == proposed.status
        && Stripped(proposed, existing).endDate == proposed.endDate;
    }
  }

  /** A paused experiment whose window closed at 5. */
  function PausedEnded(): Row {
    Row("e", Some(Paused), Some(Intent), Some("x"), ["t"],
      [Variant("a", None, None, None, None, 50, 0, Some(Pin("live", 1)), None),
       Variant("b", Some("m"), None, None, None, 50, 0, None, Some(Pin("alt", 1)))],
      Some(5), 1, Details("", "", ""), false, None, None, None,
      Some([Entry(Create, Active, "admin", 1, "create"), Entry(From(Some(Active)), Paused, "admin", 2, "status")]),
        true, None)
  }

  /** The edit that sets it active and leaves everything else. */
  function ActivatingEdit(): Input {
    var row := PausedEnded();
    Input("e", Some(Active), row.experimentType, row.intent, row.tiers, row.variants, row.endDate, row.details, false,
      None, None)
  }

  /** At 10, with a wired profile writer that pins the live and the alt versions. */
  function AtTen(): Env {
    Env(10, "admin", true, true, true, true, false, false, Derived(Pin("live", 1), Pin("alt", 1)),
      Names(map[], map[("t", DUEL_ROLE) := "alt"], map[("t", DUEL_ROLE) := "live"]), map[Pin("alt", 1) := ("e", "b")],
        None)
  }

  lemma StatusRefusesEnded()
    ensures Decide(Some(PausedEnded()), SetStatus(Active, None), AtTen()) == Refuse(WindowEnded)
  {
  }

  /** The edit compares what the row compares, and keeps both its variants in place. */
  lemma EditKeepsPaused()
    ensures var proposed := Proposed(ActivatingEdit(), Some(PausedEnded()), AtTen());
            !ComparisonChanged(proposed, PausedEnded()) && |proposed.variants| == 2
              && proposed.variants[1].variantId == "b"
  {
  }

  /** The status route refuses to activate it, and the edit route does. */
  lemma EditActivatesEnded()
    ensures Decide(Some(PausedEnded()), SetStatus(Active, None), AtTen()) == Refuse(WindowEnded)
    ensures var verdict := Decide(Some(PausedEnded()), Upsert(ActivatingEdit()), AtTen());
            verdict.Put? && verdict.row.status == Some(Active) && Ended(verdict.row, AtTen().now)
  {
    StatusRefusesEnded();
    EditKeepsPaused();
  }

  // ---------------------------------------------------------------- one write, one entry

  /** What an accepted edit appends, and the statuses it goes between. */
  lemma EditEntry(row: Row, input: Input, env: Env)
    requires DecideUpsert(Some(row), input, env).Put?
    ensures var row' := DecideUpsert(Some(row), input, env).row;
            && row'.status == Some(StatusOf(input, Some(row))) && row'.createdAt == row.createdAt
            && row'.transitions ==
                 Some(Audit(row) + [Entry(From(row.status), row'.status.value, env.actor, env.now, "edit")])
    ensures var to := StatusOf(input, Some(row));
            !IsTerminal(row.status) && (row.status == Some(to) || row.status.None?
              || IsAllowedTransition(row.status, to))
  {
  }

  lemma SetEntry(row: Row, to: Status, decision: Option<DecisionInput>, env: Env)
    requires DecideStatus(row, to, decision, env).Put?
    ensures var row' := DecideStatus(row, to, decision, env).row;
            && row'.status == Some(to) && row'.createdAt == row.createdAt && IsAllowedTransition(row.status, to)
            && row'.transitions ==
                 Some(Audit(row) + [Entry(From(row.status), to, env.actor, env.now, StatusReason(to))])
  {
  }

  /** Every accepted write appends exactly one entry and leaves the row with a status and an audit. */
  lemma OneEntryPerWrite(row: Row, action: Action, env: Env)
    requires Decide(Some(row), action, env).Put?
    ensures var row' := Decide(Some(row), action, env).row;
            && row'.transitions.Some?
            && |Audit(row')| == |Audit(row)| + 1
            && Audit(row) <= Audit(row')
            && row'.status == Some(Audit(row')[|Audit(row)|].to)
            && Audit(row')[|Audit(row)|].from == From(row.status)
            && row'.createdAt == row.createdAt
  {
    match action
    case Upsert(input) => EditEntry(row, input, env);
    case SetStatus(to, decision) => SetEntry(row, to, decision, env);
    case _ =>
  }

  // ---------------------------------------------------------------- the audit

  /**
   * An audit step the routes can write: a creation, an edit that keeps a live status, a table edge, or a
   * tombstone deleted again, which the delete route does not refuse although the table has no such edge.
   */
  predicate LegalEntry(e: Entry) {
    match e.from
    case Create => true
    case From(s) =>
      || (s.Some? && s.value == e.to && !IsTerminal(s))
      || IsAllowedTransition(s, e.to)
      || (s == Some(Deleted) && e.to == Deleted)
  }

  /**
   * The audit replays: it starts at the creation, each entry starts where the one before ended, and it ends at
   * `status`.
   */
  predicate Replays(audit: seq<Entry>, status: Option<Status>) {
    && |audit| > 0
    && (forall k :: 0 <= k < |audit| ==> (audit[k].from == Create <==> k == 0))
    && (forall k :: 0 < k < |audit| ==> audit[k].from == From(Some(audit[k - 1].to)))
    && (forall k :: 0 <= k < |audit| ==> LegalEntry(audit[k]))
    && status == Some(audit[|audit| - 1].to)
  }

  lemma CreationReplays(input: Input, env: Env)
    requires Decide(None, Upsert(input), env).Put?
    ensures var row := Decide(None, Upsert(input), env).row;
            row.transitions.Some? && |Audit(row)| == 1 && Replays(Audit(row), row.status)
  {
  }

  lemma EntryIsLegal(row: Row, action: Action, env: Env)
    requires row.status.Some? && Decide(Some(row), action, env).Put?
    ensures LegalEntry(Audit(Decide(Some(row), action, env).row)[|Audit(row)|])
  {
    OneEntryPerWrite(row, action, env);
    match action
    case Upsert(input) => EditEntry(row, input, env);
    case SetStatus(to, decision) => SetEntry(row, to, decision, env);
    case _ =>
  }

  lemma AppendReplays(audit: seq<Entry>, status: Option<Status>, e: Entry)
    requires Replays(audit, status) && e.from == From(status) && LegalEntry(e)
    ensures Replays(audit + [e], Some(e.to))
  {
  }

  lemma WriteReplays(row: Row, action: Action, env: Env)
    requires Replays(Audit(row), row.status)
    requires Decide(Some(row), action, env).Put?
    ensures var row' := Decide(Some(row), action, env).row; Replays(Audit(row'), row'.status)
  {
    OneEntryPerWrite(row, action, env);
    EntryIsLegal(row, action, env);
    var row' := Decide(Some(row), action, env).row;
    var n := |Audit(row)|;
    assert Audit(row') == Audit(row) + [Audit(row')[n]];
    AppendReplays(Audit(row), row.status, Audit(row')[n]);
  }

  /**
   * WHERE THE TABLE BINDS. An accepted write leaves the status it read (an edit), or takes a table edge, exactly when
   * the row it read has a status and is no tombstone: of a row with none, whatever is accepted is off the table.
   */
  lemma OffTableExactly(row: Row, action: Action, env: Env)
    requires Decide(Some(row), action, env).Put?
    ensures var to := Decide(Some(row), action, env).row.status.value;
            (row.status == Some(to) && action.Upsert?) || IsAllowedTransition(row.status, to)
            <==> row.status.Some? && row.status != Some(Deleted)
    ensures row.status == Some(Deleted) <==> action.Remove? && Decide(Some(row), action, env).row.status == row.status
  {
    match action
    case Upsert(input) => EditEntry(row, input, env);
    case SetStatus(to, decision) => SetEntry(row, to, decision, env);
    case _ =>
  }

  /** Once completed or deleted, every later entry is a deletion: the row is never draft, active or paused again. */
  lemma {:induction false} TerminalStaysTerminal(audit: seq<Entry>, status: Option<Status>, i: nat, j: nat)
    requires Replays(audit, status) && i < j < |audit|
    requires audit[i].to == Completed || audit[i].to == Deleted
    ensures audit[j].to == Deleted
    decreases j - i
  {
    assert LegalEntry(audit[i + 1]) && audit[i + 1].from == From(Some(audit[i].to));
    if i + 1 < j { TerminalStaysTerminal(audit, status, i + 1, j); }
  }

  /** Nothing returns to draft, so an audit that ends at draft never left it. */
  lemma {:induction false} DraftNeverLeft(audit: seq<Entry>, status: Option<Status>, k: nat)
    requires Replays(audit, status) && k < |audit| && status == Some(Draft)
    ensures audit[k].to == Draft
    decreases |audit| - k
  {
    if k + 1 < |audit| {
      DraftNeverLeft(audit, status, k + 1);
      assert LegalEntry(audit[k + 1]) && audit[k + 1].from == From(Some(audit[k].to));
    }
  }

  /** A hard delete is decided only from a draft whose whole audit is draft. */
  lemma DropOnlyNeverStarted(row: Row, action: Action, env: Env)
    requires Replays(Audit(row), row.status)
    requires Decide(Some(row), action, env).Drop?
    ensures row.status == Some(Draft)
    ensures forall k :: 0 <= k < |Audit(row)| ==> Audit(row)[k].to == Draft
  {
    forall k | 0 <= k < |Audit(row)| ensures Audit(row)[k].to == Draft {
      DraftNeverLeft(Audit(row), row.status, k);
    }
  }
}
