/**
 * What an armed experiment keeps: its pins, and the comparison the pins were derived from.
 */
module ExperimentArming {
  import opened Prelude
  import opened ExperimentRow
  import opened ExperimentLifecycle

  /** A running row serves two pinned versions: the control's on the first variant, the treatment's on the second. */
  predicate ActivePinned(row: Row) {
    row.status == Some(Active) ==> row.servesVersions && BothPinned(row)
  }

  predicate BothPinned(row: Row) {
    && |row.variants| >= 2
    && row.variants[0].controlPin.Some? && row.variants[0].controlPin.value.version >= 1
    && row.variants[1].altPin.Some? && row.variants[1].altPin.value.version >= 1
  }

  predicate Pinless(vs: seq<Variant>) {
    forall i :: 0 <= i < |vs| ==> vs[i].controlPin.None? && vs[i].altPin.None?
  }

  /** A control pin is the first variant's and an alt pin the second's. */
  predicate PinsPlaced(vs: seq<Variant>) {
    forall i :: 0 <= i < |vs| ==> (vs[i].controlPin.Some? ==> i == 0) && (vs[i].altPin.Some? ==> i == 1)
  }

  /** A row that was never armed holds no pin, and a draft was never armed. */
  predicate PinsFollowArming(row: Row) {
    && (!row.servesVersions ==> Pinless(row.variants))
    && (row.status == Some(Draft) ==> !row.servesVersions)
  }

  /** An outcome is recorded only by ending the experiment, and a promotion only beside its decision. */
  predicate OutcomeFollowsEnd(row: Row) {
    && (row.decision.Some? ==> IsTerminal(row.status))
    && (row.promotion.Some? ==> row.decision.Some? && row.decision.value.outcome == PromotedTreatment)
  }

  predicate RowInv(row: Row) {
    ActivePinned(row) && PinsPlaced(row.variants) && PinsFollowArming(row) && OutcomeFollowsEnd(row)
  }

  lemma KeptPlaced(input: seq<Variant>, existing: Option<Row>)
    ensures PinsPlaced(KeptVariants(input, existing))
    ensures !KeepsPins(existing) ==> Pinless(KeptVariants(input, existing))
  {
  }

  lemma DerivedPlaced(vs: seq<Variant>, d: Derivation)
    requires PinsPlaced(vs)
    ensures var r := DeriveVersions(vs, d); r.Some? ==> PinsPlaced(r.value)
  {
  }

  lemma CreationKeepsRowInv(input: Input, env: Env)
    requires Decide(None, Upsert(input), env).Put?
    ensures RowInv(Decide(None, Upsert(input), env).row)
  {
    KeptPlaced(input.variants, None);
    DerivedPlaced(KeptVariants(input.variants, None), env.derivation);
  }

  lemma StatusKeepsRowInv(row: Row, to: Status, decision: Option<DecisionInput>, env: Env)
    requires RowInv(row) && DecideStatus(row, to, decision, env).Put?
    ensures RowInv(DecideStatus(row, to, decision, env).row)
  {
    DerivedPlaced(row.variants, env.derivation);
  }

  lemma EditKeepsRowInv(row: Row, input: Input, env: Env)
    requires RowInv(row) && DecideUpsert(Some(row), input, env).Put?
    ensures RowInv(DecideUpsert(Some(row), input, env).row)
    ensures Stripped(Proposed(input, Some(row), env), Some(row)) == Proposed(input, Some(row), env)
  {
    KeptPlaced(input.variants, Some(row));
    DerivedPlaced(KeptVariants(input.variants, Some(row)), env.derivation);
    var proposed := Proposed(input, Some(row), env);
    assert row.decision.None? && proposed.promotion.None?;
    assert proposed.status == Some(Draft) ==> row.status == Some(Draft);
  }

  /** Every accepted write keeps the row's invariant. */
  lemma WriteKeepsRowInv(row: Row, action: Action, env: Env)
    requires RowInv(row) && Decide(Some(row), action, env).Put?
    ensures RowInv(Decide(Some(row), action, env).row)
  {
    match action
    case Upsert(input) => EditKeepsRowInv(row, input, env);
    case SetStatus(to, decision) => StatusKeepsRowInv(row, to, decision, env);
    case _ =>
  }

  /** Once armed, always armed: no accepted write clears `servesVersions`. */
  lemma ArmedStaysArmed(row: Row, action: Action, env: Env)
    requires RowInv(row) && row.servesVersions && Decide(Some(row), action, env).Put?
    ensures Decide(Some(row), action, env).row.servesVersions
  {
  }

  // ---------------------------------------------------------------- the comparison

  lemma KeptSame(input: seq<Variant>, existing: Option<Row>)
    ensures Identities(KeptVariants(input, existing)) == Identities(input)
    ensures DistinctIds(input) ==> DistinctIds(KeptVariants(input, existing))
  {
    forall i | 0 <= i < |input|
      ensures Identities(KeptVariants(input, existing))[i] == Identities(input)[i]
      ensures KeptVariants(input, existing)[i].variantId == input[i].variantId
    {
      assert KeptVariants(input, existing)[i] == KeepPins(input[i], i, PriorOf(input[i], existing));
    }
  }

  /**
   * WHAT THE LOCK KEEPS. An accepted edit of an armed row that does not arm it again compares what the row compared
   * exactly when the edit names each variant once: validation asks for no such thing.
   */
  lemma EditKeepsComparisonIff(row: Row, input: Input, env: Env)
    requires RowInv(row) && row.servesVersions && DistinctIds(row.variants)
    requires DecideUpsert(Some(row), input, env).Put? && !ArmsRow(Some(row), Upsert(input), env)
    ensures SameComparison(DecideUpsert(Some(row), input, env).row, row) <==> DistinctIds(input.variants)
  {
    var proposed := Proposed(input, Some(row), env);
    EditKeepsRowInv(row, input, env);
    KeptIds(input.variants, Some(row));
    LockedExactly(proposed.variants, row.variants);
  }

  lemma KeptIds(input: seq<Variant>, existing: Option<Row>)
    ensures DistinctIds(KeptVariants(input, existing)) <==> DistinctIds(input)
  {
    var kept := KeptVariants(input, existing);
    forall i | 0 <= i < |input| ensures kept[i].variantId == input[i].variantId {
      assert kept[i] == KeepPins(input[i], i, PriorOf(input[i], existing));
    }
    if !DistinctIds(input) {
      var i, j :| 0 <= i < j < |input| && input[i].variantId == input[j].variantId;
      assert kept[i].variantId == kept[j].variantId;
    }
  }

  lemma WriteKeepsComparison(row: Row, action: Action, env: Env)
    requires RowInv(row) && row.servesVersions && DistinctIds(row.variants)
    requires action.Upsert? ==> DistinctIds(action.input.variants)
    requires Decide(Some(row), action, env).Put? && !ArmsRow(Some(row), action, env)
    ensures SameComparison(Decide(Some(row), action, env).row, row)
  {
    if action.Upsert? { EditKeepsComparisonIff(row, action.input, env); }
  }

  /** Whatever passes the lock is drawn from what is stored. */
  lemma PassedIsStored(incoming: seq<Variant>, existing: seq<Variant>)
    requires !VariantsChanged(incoming, existing)
    ensures |incoming| == |existing| && Elems(Identities(incoming)) <= Elems(Identities(existing))
  {
    forall x | x in Elems(Identities(incoming)) ensures x in Elems(Identities(existing)) {
      var i :| 0 <= i < |incoming| && Identities(incoming)[i] == x;
      assert incoming[i] in incoming && Unchanged(incoming[i], ById(existing));
      var k :| 0 <= k < |existing| && existing[k] == ById(existing)[incoming[i].variantId];
      assert Identities(existing)[k] == x;
    }
  }

  /**
   * One row's comparison is drawn from the other's: of one type, intent and classifications, with no configuration new.
   */
  predicate DrawnFrom(a: Row, b: Row) {
    && TypeOf(a) == TypeOf(b) && IntentOf(a) == IntentOf(b) && multiset(a.tiers) == multiset(b.tiers)
    && |a.variants| == |b.variants| && Elems(Identities(a.variants)) <= Elems(Identities(b.variants))
  }

  lemma EditDraws(row: Row, input: Input, env: Env)
    requires RowInv(row) && row.servesVersions
    requires DecideUpsert(Some(row), input, env).Put? && !ArmsRow(Some(row), Upsert(input), env)
    ensures var row' := DecideUpsert(Some(row), input, env).row;
            DrawnFrom(row', row) && (DistinctIds(row'.variants) <==> DistinctIds(input.variants))
  {
    EditKeepsRowInv(row, input, env);
    KeptIds(input.variants, Some(row));
    PassedIsStored(Proposed(input, Some(row), env).variants, row.variants);
  }

  /**
   * A write that does not arm an armed row draws on what the row compares, and leaves its variants unless it is an
   * edit.
   */
  lemma WriteDraws(row: Row, action: Action, env: Env)
    requires RowInv(row) && row.servesVersions
    requires Decide(Some(row), action, env).Put? && !ArmsRow(Some(row), action, env)
    ensures var row' := Decide(Some(row), action, env).row;
            DrawnFrom(row', row)
            && (DistinctIds(row'.variants)
              <==> DistinctIds(if action.Upsert? then action.input.variants else row.variants))
  {
    if action.Upsert? { EditDraws(row, action.input, env); }
  }

  /** Drawn from distinct ids without losing a configuration, a list has distinct ids. */
  lemma DrawnWhole(a: seq<Variant>, b: seq<Variant>)
    requires DistinctIds(b) && |a| == |b| && Elems(Identities(a)) == Elems(Identities(b))
    ensures DistinctIds(a) && Permuted(a, b)
  {
    var x, y := Identities(a), Identities(b);
    DistinctIdsDistinctIdentities(b);
    DistinctCard(x);
    DistinctCard(y);
    Pigeonhole(x, y);
    PermutedIsUnchanged(a, b);
  }

  // ---------------------------------------------------------------- where the lock and the pins give way

  /** `row` as an edit that changes nothing but the order and content of its variants. */
  function EditOf(row: Row, variants: seq<Variant>): Input {
    Input(row.experimentId, None, row.experimentType, row.intent, row.tiers, variants, row.endDate, row.details,
      row.battleEnabled, row.boundBy, row.boundAt)
  }

  predicate PausedPair(row: Row) {
    && RowInv(row) && row.status == Some(Paused) && row.servesVersions
    && BothPinned(row) && |row.variants| == 2 && DistinctIds(row.variants)
  }

  /** The pins a row serves: the control's and the treatment's. */
  function PinsOf(row: Row): (Option<Pin>, Option<Pin>)
    requires |row.variants| >= 2
  {
    (row.variants[0].controlPin, row.variants[1].altPin)
  }

  /**
   * WHEN AN EDIT KEEPS BOTH PINS. An edit of an armed row that does not arm it again carries both pins over
   * exactly when its first two variants are the stored first two, in place.
   */
  lemma PinsKeptExactlyInPlace(row: Row, input: Input, env: Env)
    requires RowInv(row) && row.servesVersions && BothPinned(row) && DistinctIds(row.variants)
    requires DecideUpsert(Some(row), input, env).Put? && !ArmsRow(Some(row), Upsert(input), env)
    ensures var row' := DecideUpsert(Some(row), input, env).row;
            && |row'.variants| == |row.variants| == |input.variants|
            && (PinsOf(row') == PinsOf(row) <==>
                  && input.variants[0].variantId == row.variants[0].variantId
                  && input.variants[1].variantId == row.variants[1].variantId)
  {
    EditKeepsRowInv(row, input, env);
    var proposed := Proposed(input, Some(row), env);
    assert row.status != Some(Draft);
    assert |proposed.variants| == |row.variants|;
    forall i | 0 <= i < 2
      ensures PriorOf(input.variants[i], Some(row)) == Some(row.variants[i])
        <==> input.variants[i].variantId == row.variants[i].variantId
      ensures proposed.variants[i].variantId == input.variants[i].variantId
    {
      var prior := PriorOf(input.variants[i], Some(row));
      if prior.Some? { var k :| 0 <= k < |row.variants| && row.variants[k] == prior.value; }
      assert row.variants[i] in row.variants;
    }
  }

  lemma SwapPermutes(kept: seq<Variant>, stored: seq<Variant>)
    requires |kept| == |stored| == 2
    requires IdentityOf(kept[0]) == IdentityOf(stored[1]) && IdentityOf(kept[1]) == IdentityOf(stored[0])
    ensures Permuted(kept, stored)
  {
    var a, b := Identities(kept), Identities(stored);
    assert a == [b[1], b[0]] && b == [b[0], b[1]];
  }

  lemma {:induction false} FindsStored(vs: seq<Variant>, k: nat)
    requires DistinctIds(vs) && k < |vs|
    ensures FindVariant(vs, vs[k].variantId) == Some(vs[k])
  {
    if k > 0 { FindsStored(vs[1..], k - 1); }
  }

  /** The swap keeps the comparison and leaves no place holding the pin it would keep. */
  lemma SwapUnpins(row: Row, env: Env)
    requires PausedPair(row)
    ensures var kept := KeptVariants([row.variants[1], row.variants[0]], Some(row));
            !VariantsChanged(kept, row.variants) && Pinless(kept)
  {
    var kept := KeptVariants([row.variants[1], row.variants[0]], Some(row));
    FindsStored(row.variants, 0);
    FindsStored(row.variants, 1);
    SwapPermutes(kept, row.variants);
    PermutedIsUnchanged(kept, row.variants);
  }

  /** A paused edit that swaps the two variants is accepted, and the row it stores is armed with no pin. */
  lemma PausedSwapDropsPins(row: Row, env: Env)
    requires PausedPair(row) && env.valid && env.altProvisioned
    ensures var edit := Upsert(EditOf(row, [row.variants[1], row.variants[0]]));
            var verdict := Decide(Some(row), edit, env);
            verdict.Put? && verdict.row.status == Some(Paused) && verdict.row.servesVersions
              && Pinless(verdict.row.variants)
  {
    SwapUnpins(row, env);
  }

  /** The first variant twice passes for the stored two and is not a permutation of them. */
  lemma RepeatUnchanged(kept: seq<Variant>, stored: seq<Variant>)
    requires |kept| == |stored| == 2 && DistinctIds(stored)
    requires IdentityOf(kept[0]) == IdentityOf(stored[0]) && IdentityOf(kept[1]) == IdentityOf(stored[0])
    requires kept[0].variantId == kept[1].variantId == stored[0].variantId
    ensures !VariantsChanged(kept, stored) && !Permuted(kept, stored)
  {
    IndexedVariant(stored, 0);
    forall v | v in kept ensures Unchanged(v, ById(stored)) {
      var i :| 0 <= i < 2 && kept[i] == v;
    }
    LockedExactly(kept, stored);
  }

  lemma RepeatKeeps(row: Row)
    requires |row.variants| == 2 && DistinctIds(row.variants)
    ensures var kept := KeptVariants([row.variants[0], row.variants[0]], Some(row));
            !VariantsChanged(kept, row.variants) && !Permuted(kept, row.variants)
  {
    KeptSame([row.variants[0], row.variants[0]], Some(row));
    var kept := KeptVariants([row.variants[0], row.variants[0]], Some(row));
    assert Identities(kept)[0] == IdentityOf(row.variants[0]) && Identities(kept)[1] == IdentityOf(row.variants[0]);
    RepeatUnchanged(kept, row.variants);
  }

  /** A paused edit that repeats the control is accepted, and the row then compares something else. */
  lemma PausedRepeatEvadesLock(row: Row, env: Env)
    requires PausedPair(row) && env.valid && env.altProvisioned
    ensures var edit := Upsert(EditOf(row, [row.variants[0], row.variants[0]]));
            var verdict := Decide(Some(row), edit, env);
            verdict.Put? && verdict.row.servesVersions && !SameComparison(verdict.row, row)
  {
    RepeatKeeps(row);
  }
}
