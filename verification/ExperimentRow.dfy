/**
 * The experiment row as the admin API stores it, and what an experiment compares
 * (backend/lambda/src/lib/experiment-manager.ts, backend/lambda/src/admin-experiments.ts).
 */
module ExperimentRow {
  import opened Prelude

  datatype Status = Draft | Active | Paused | Completed | Deleted

  datatype ExperimentType = Intent | BaseModel | Classification | Profile

  datatype Pin = Pin(profileName: string, version: int)

  datatype ProfileRef = ProfileRef(profileName: string, version: Option<int>)

  datatype Variant = Variant(
    variantId: string,
    modelKey: Option<string>,
    profileRef: Option<ProfileRef>,
    imageGenModelKey: Option<string>,
    systemPromptAddendum: Option<string>,
    weight: int,
    exchangeCount: int,
    controlPin: Option<Pin>,
    altPin: Option<Pin>)

  /** Where an audit entry starts: a creation, or the status read (absent on a legacy row). */
  datatype Origin = Create | From(status: Option<Status>)

  datatype Entry = Entry(from: Origin, to: Status, actor: string, at: nat, reason: string)

  datatype Outcome = PromotedTreatment | KeptControl | NoDecision

  datatype Decision = Decision(outcome: Outcome, note: Option<string>, actor: string, at: nat)

  datatype Promotion = Promotion(profileName: string, version: int, configId: string, at: nat, actor: string)

  /** The fields an edit may always replace and no rule below reads. */
  datatype Details = Details(startDate: string, description: string, objective: string)

  /** A stored row. `status` and `transitions` are absent on a row written before those attributes existed. */
  datatype Row = Row(
    experimentId: string,
    status: Option<Status>,
    experimentType: Option<ExperimentType>,
    intent: Option<string>,
    tiers: seq<string>,
    variants: seq<Variant>,
    endDate: Option<nat>,
    createdAt: nat,
    details: Details,
    battleEnabled: bool,
    boundBy: Option<string>,
    boundAt: Option<nat>,
    decision: Option<Decision>,
    transitions: Option<seq<Entry>>,
    servesVersions: bool,
    promotion: Option<Promotion>)

  function Audit(row: Row): seq<Entry> {
    if row.transitions.Some? then row.transitions.value else []
  }

  // ---------------------------------------------------------------- the lifecycle table

  function AllowedFrom(from: Status): set<Status> {
    match from
    case Draft => {Active, Deleted}
    case Active => {Paused, Completed, Deleted}
    case Paused => {Active, Completed, Deleted}
    case Completed => {Deleted}
    case Deleted => {}
  }

  /** A legal status change. A row with no status has no entry in the table, so nothing is legal from it. */
  predicate IsAllowedTransition(from: Option<Status>, to: Status) {
    from.Some? && from.value != to && to in AllowedFrom(from.value)
  }

  predicate IsTerminal(status: Option<Status>) {
    status == Some(Completed) || status == Some(Deleted)
  }

  // ---------------------------------------------------------------- what an experiment compares

  /** A variant's tested configuration: everything but its weight, its traffic and its pins. */
  datatype Identity = Identity(
    variantId: string,
    modelKey: Option<string>,
    profileRef: Option<ProfileRef>,
    imageGenModelKey: Option<string>,
    systemPromptAddendum: Option<string>)

  function IdentityOf(v: Variant): Identity {
    Identity(v.variantId, v.modelKey, v.profileRef, v.imageGenModelKey, v.systemPromptAddendum)
  }

  function Identities(vs: seq<Variant>): (r: seq<Identity>)
    ensures |r| == |vs| && forall i :: 0 <= i < |vs| ==> r[i] == IdentityOf(vs[i])
  {
    seq(|vs|, i requires 0 <= i < |vs| => IdentityOf(vs[i]))
  }

  /** The two are tested alike, field by field; weight, traffic and pins are not looked at. */
  predicate TestedAlike(v: Variant, w: Variant) {
    && v.variantId == w.variantId
    && v.modelKey == w.modelKey
    && v.profileRef == w.profileRef
    && v.imageGenModelKey == w.imageGenModelKey
    && v.systemPromptAddendum == w.systemPromptAddendum
  }

  lemma IdentityIsFields(v: Variant, w: Variant)
    ensures IdentityOf(v) == IdentityOf(w) <==> TestedAlike(v, w)
    ensures IdentityOf(v).variantId == v.variantId
  {
  }

  predicate DistinctIds(vs: seq<Variant>) {
    forall i, j :: 0 <= i < j < |vs| ==> vs[i].variantId != vs[j].variantId
  }

  /** The index the check builds: a later variant replaces an earlier one of the same id. */
  function ById(vs: seq<Variant>): (m: map<string, Variant>)
    ensures forall id :: id in m ==> m[id] in vs && m[id].variantId == id
    ensures forall v :: v in vs ==> v.variantId in m
  {
    if vs == [] then map[] else ById(vs[..|vs| - 1])[vs[|vs| - 1].variantId := vs[|vs| - 1]]
  }

  predicate Unchanged(v: Variant, index: map<string, Variant>) {
    v.variantId in index && IdentityOf(v) == IdentityOf(index[v.variantId])
  }

  predicate VariantsChanged(incoming: seq<Variant>, existing: seq<Variant>) {
    |incoming| != |existing| || exists v :: v in incoming && !Unchanged(v, ById(existing))
  }

  method VariantModelOrCountChanged(incoming: seq<Variant>, existing: seq<Variant>) returns (changed: bool)
    ensures changed <==> VariantsChanged(incoming, existing)
    ensures DistinctIds(existing) ==> (changed <==> !DrawsOn(incoming, existing))
  {
    if DistinctIds(existing) { PassesFieldwise(incoming, existing); }
    if |incoming| != |existing| { return true; }
    var index := ById(existing);
    for i := 0 to |incoming|
      invariant forall k :: 0 <= k < i ==> Unchanged(incoming[k], index)
    {
      var v := incoming[i];
      if v.variantId !in index || IdentityOf(v) != IdentityOf(index[v.variantId]) {
        assert v in incoming && !Unchanged(v, index);
        return true;
      }
    }
    return false;
  }

  /** The two lists are one list of tested configurations in some order. */
  predicate Permuted(a: seq<Variant>, b: seq<Variant>) {
    multiset(Identities(a)) == multiset(Identities(b))
  }

  lemma DistinctIdsDistinctIdentities(vs: seq<Variant>)
    requires DistinctIds(vs)
    ensures Distinct(Identities(vs))
  {
  }

  lemma IndexedVariant(vs: seq<Variant>, k: nat)
    requires DistinctIds(vs) && k < |vs|
    ensures vs[k].variantId in ById(vs) && ById(vs)[vs[k].variantId] == vs[k]
  {
    var w := ById(vs)[vs[k].variantId];
    var j :| 0 <= j < |vs| && vs[j] == w;
    assert vs[j].variantId == vs[k].variantId;
  }

  /** A permutation of a list with distinct ids has distinct ids, and the check passes it. */
  lemma PermutedIsUnchanged(incoming: seq<Variant>, existing: seq<Variant>)
    requires DistinctIds(existing) && Permuted(incoming, existing)
    ensures DistinctIds(incoming) && !VariantsChanged(incoming, existing)
  {
    var a, b := Identities(incoming), Identities(existing);
    DistinctIdsDistinctIdentities(existing);
    MultisetElems(b, a);
    assert |multiset(a)| == |multiset(b)|;
    forall i | 0 <= i < |incoming|
      ensures Unchanged(incoming[i], ById(existing))
    {
      assert a[i] in Elems(b);
      var k :| 0 <= k < |b| && b[k] == a[i];
      IndexedVariant(existing, k);
    }
    forall i, j | 0 <= i < j < |incoming|
      ensures incoming[i].variantId != incoming[j].variantId
    {
      assert Unchanged(incoming[i], ById(existing)) && Unchanged(incoming[j], ById(existing));
      assert a[i] != a[j];
    }
  }

  /**
   * THE LOCKED COMPARISON. Against a stored row whose variant ids are distinct, the check passes an edit
   * with distinct ids exactly when it is a permutation of the stored configurations.
   */
  lemma LockedExactly(incoming: seq<Variant>, existing: seq<Variant>)
    requires DistinctIds(existing)
    ensures !VariantsChanged(incoming, existing) && DistinctIds(incoming) <==> Permuted(incoming, existing)
  {
    if Permuted(incoming, existing) {
      PermutedIsUnchanged(incoming, existing);
    } else if !VariantsChanged(incoming, existing) && DistinctIds(incoming) {
      var a, b := Identities(incoming), Identities(existing);
      DistinctIdsDistinctIdentities(incoming);
      DistinctIdsDistinctIdentities(existing);
      forall x | x in Elems(a) ensures x in Elems(b) {
        var i :| 0 <= i < |a| && a[i] == x;
        assert Unchanged(incoming[i], ById(existing));
        var w := ById(existing)[incoming[i].variantId];
        var k :| 0 <= k < |existing| && existing[k] == w;
        assert b[k] == x;
      }
      Pigeonhole(a, b);
    }
  }

  /** One list has the other's variants, tested alike, as many of them. */
  predicate DrawsOn(incoming: seq<Variant>, existing: seq<Variant>) {
    |incoming| == |existing| && forall v :: v in incoming ==> exists w :: w in existing && TestedAlike(v, w)
  }

  /**
   * THE LOCK, FIELD BY FIELD. Against distinct stored ids, what passes is exactly what draws on the stored variants.
   */
  lemma PassesFieldwise(incoming: seq<Variant>, existing: seq<Variant>)
    requires DistinctIds(existing)
    ensures !VariantsChanged(incoming, existing) <==> DrawsOn(incoming, existing)
  {
    forall v | v in incoming ensures Unchanged(v, ById(existing)) <==> exists w :: w in existing && TestedAlike(v, w) {
      if w :| w in existing && TestedAlike(v, w) {
        var k :| 0 <= k < |existing| && existing[k] == w;
        IndexedVariant(existing, k);
        IdentityIsFields(v, w);
      }
      if Unchanged(v, ById(existing)) { IdentityIsFields(v, ById(existing)[v.variantId]); }
    }
  }

  /** Weight, traffic and pins never lock an edit: lists that test alike, place by place, pass or fail together. */
  lemma LockSeesOnlyTests(a: seq<Variant>, b: seq<Variant>, existing: seq<Variant>)
    requires |a| == |b| && forall i :: 0 <= i < |a| ==> TestedAlike(a[i], b[i])
    ensures VariantsChanged(a, existing) <==> VariantsChanged(b, existing)
    ensures VariantsChanged(existing, a) <==> VariantsChanged(existing, b)
  {
    forall i | 0 <= i < |a| ensures IdentityOf(a[i]) == IdentityOf(b[i]) { IdentityIsFields(a[i], b[i]); }
    PassesIff(a, existing);
    PassesIff(b, existing);
    PassesIff(existing, a);
    PassesIff(existing, b);
    forall x ensures LastStored(a, x) <==> LastStored(b, x) { LastAlike(a, b, x); }
  }

  lemma LastAlike(a: seq<Variant>, b: seq<Variant>, x: Identity)
    requires |a| == |b| && forall i :: 0 <= i < |a| ==> TestedAlike(a[i], b[i]) && IdentityOf(a[i]) == IdentityOf(b[i])
    ensures LastStored(a, x) <==> LastStored(b, x)
  {
    forall k | 0 <= k < |a| ensures LastOfId(a, k) <==> LastOfId(b, k) {}
  }

  // ---------------------------------------------------------------- stored lists that repeat an id

  /** The configuration is the last stored of its id: the one the check's index holds. */
  predicate LastStored(existing: seq<Variant>, x: Identity) {
    exists k :: 0 <= k < |existing| && IdentityOf(existing[k]) == x && LastOfId(existing, k)
  }

  predicate LastOfId(existing: seq<Variant>, k: nat)
    requires k < |existing|
  {
    forall j :: k < j < |existing| ==> existing[j].variantId != existing[k].variantId
  }

  /** Stored variants of one id are one configuration. */
  predicate IdsAgree(existing: seq<Variant>) {
    forall i, j :: 0 <= i < j < |existing| && existing[i].variantId == existing[j].variantId ==>
      IdentityOf(existing[i]) == IdentityOf(existing[j])
  }

  /** A variant passes the lookup exactly when its configuration is the last stored of its id. */
  lemma {:induction false} UnchangedIsLast(v: Variant, existing: seq<Variant>)
    ensures Unchanged(v, ById(existing)) <==> LastStored(existing, IdentityOf(v))
  {
    if existing != [] {
      var n := |existing| - 1;
      UnchangedIsLast(v, existing[..n]);
      if existing[n].variantId == v.variantId {
        assert LastOfId(existing, n);
      } else {
        LastBefore(existing, IdentityOf(v));
      }
    }
  }

  lemma LastBefore(existing: seq<Variant>, x: Identity)
    requires existing != [] && existing[|existing| - 1].variantId != x.variantId
    ensures LastStored(existing, x) <==> LastStored(existing[..|existing| - 1], x)
  {
    var rest := existing[..|existing| - 1];
    if k :| 0 <= k < |existing| && IdentityOf(existing[k]) == x && LastOfId(existing, k) {
      assert IdentityOf(rest[k]) == x && LastOfId(rest, k);
    }
    if k :| 0 <= k < |rest| && IdentityOf(rest[k]) == x && LastOfId(rest, k) {
      assert IdentityOf(existing[k]) == x && LastOfId(existing, k);
    }
  }

  lemma {:induction false} LastOfItsId(existing: seq<Variant>, i: nat) returns (k: nat)
    requires i < |existing|
    ensures i <= k < |existing| && existing[k].variantId == existing[i].variantId && LastOfId(existing, k)
    decreases |existing| - i
  {
    if LastOfId(existing, i) {
      k := i;
    } else {
      var j :| i < j < |existing| && existing[j].variantId == existing[i].variantId;
      k := LastOfItsId(existing, j);
    }
  }

  /** Every stored configuration is the last of its id exactly when ids agree. */
  lemma AgreeIsLast(existing: seq<Variant>)
    ensures IdsAgree(existing) <==> forall k :: 0 <= k < |existing| ==> LastStored(existing, IdentityOf(existing[k]))
  {
    if IdsAgree(existing) {
      forall i | 0 <= i < |existing| ensures LastStored(existing, IdentityOf(existing[i])) {
        var k := LastOfItsId(existing, i);
        assert IdentityOf(existing[k]) == IdentityOf(existing[i]);
      }
    }
    if forall k :: 0 <= k < |existing| ==> LastStored(existing, IdentityOf(existing[k])) {
      forall i, j | 0 <= i < j < |existing| && existing[i].variantId == existing[j].variantId
        ensures IdentityOf(existing[i]) == IdentityOf(existing[j])
      {
        OneLast(existing, i, j);
      }
    }
  }

  lemma OneLast(existing: seq<Variant>, i: nat, j: nat)
    requires i < |existing| && j < |existing| && existing[i].variantId == existing[j].variantId
    requires LastStored(existing, IdentityOf(existing[i])) && LastStored(existing, IdentityOf(existing[j]))
    ensures IdentityOf(existing[i]) == IdentityOf(existing[j])
  {
    var p :| 0 <= p < |existing| && IdentityOf(existing[p]) == IdentityOf(existing[i]) && LastOfId(existing, p);
    var q :| 0 <= q < |existing| && IdentityOf(existing[q]) == IdentityOf(existing[j]) && LastOfId(existing, q);
    assert existing[p].variantId == existing[q].variantId;
    assert p == q;
  }

  lemma PassesIff(incoming: seq<Variant>, existing: seq<Variant>)
    ensures !VariantsChanged(incoming, existing) <==>
      |incoming| == |existing| && forall k :: 0 <= k < |incoming| ==> LastStored(existing, IdentityOf(incoming[k]))
  {
    forall k | 0 <= k < |incoming|
      ensures Unchanged(incoming[k], ById(existing)) <==> LastStored(existing, IdentityOf(incoming[k]))
    {
      UnchangedIsLast(incoming[k], existing);
    }
    if v :| v in incoming && !Unchanged(v, ById(existing)) {
      var k :| 0 <= k < |incoming| && incoming[k] == v;
    }
    if !VariantsChanged(incoming, existing) {
      forall k | 0 <= k < |incoming|
        ensures LastStored(existing, IdentityOf(incoming[k]))
      {
        assert incoming[k] in incoming;
      }
    }
  }

  predicate AllLast(xs: set<Identity>, existing: seq<Variant>) {
    forall x :: x in xs ==> LastStored(existing, x)
  }

  lemma AllLastByPlace(vs: seq<Variant>, existing: seq<Variant>)
    ensures AllLast(Elems(Identities(vs)), existing) <==>
      forall k :: 0 <= k < |vs| ==> LastStored(existing, IdentityOf(vs[k]))
  {
    forall k | 0 <= k < |vs|
      ensures IdentityOf(vs[k]) in Elems(Identities(vs))
    {
      assert Identities(vs)[k] in Identities(vs);
    }
  }

  lemma PermutedPassesIff(incoming: seq<Variant>, existing: seq<Variant>)
    requires Permuted(incoming, existing)
    ensures !VariantsChanged(incoming, existing) <==> IdsAgree(existing)
  {
    PassesIff(incoming, existing);
    AgreeIsLast(existing);
    AllLastByPlace(incoming, existing);
    AllLastByPlace(existing, existing);
    MultisetElems(Identities(incoming), Identities(existing));
    assert |multiset(Identities(incoming))| == |multiset(Identities(existing))|;
  }

  /**
   * WHEN THE CHECK IS EXACT, whatever ids are repeated. It refuses just what is not a permutation exactly when the edit
   * is one and stored variants of one id agree; or it is none, and is of another length or holds a configuration that
   * is not the last stored of its id.
   */
  lemma LockIsExactIff(incoming: seq<Variant>, existing: seq<Variant>)
    ensures (VariantsChanged(incoming, existing) <==> !Permuted(incoming, existing)) <==>
      if Permuted(incoming, existing) then IdsAgree(existing)
      else |incoming| != |existing| || exists k :: 0 <= k < |incoming| && !LastStored(existing, IdentityOf(incoming[k]))
  {
    PassesIff(incoming, existing);
    if Permuted(incoming, existing) { PermutedPassesIff(incoming, existing); }
  }

  /** The check refuses the stored list itself exactly when two stored variants share an id and differ. */
  lemma StoredRefusedIff(existing: seq<Variant>)
    ensures VariantsChanged(existing, existing) <==> !IdsAgree(existing)
  {
    PermutedPassesIff(existing, existing);
  }

  /**
   * Against distinct stored ids: exact just when the edit names each id once, is of another length, or holds what is
   * not stored.
   */
  lemma LockIsExactForDistinct(incoming: seq<Variant>, existing: seq<Variant>)
    requires DistinctIds(existing)
    ensures (VariantsChanged(incoming, existing) <==> !Permuted(incoming, existing))
       <==> (DistinctIds(incoming) || |incoming| != |existing|
             || exists k :: 0 <= k < |incoming| && Identities(incoming)[k] !in Identities(existing))
  {
    LockedExactly(incoming, existing);
    forall k | 0 <= k < |incoming|
      ensures Unchanged(incoming[k], ById(existing)) <==> Identities(incoming)[k] in Identities(existing)
    {
      UnchangedIsStored(incoming[k], existing);
    }
    if v :| v in incoming && !Unchanged(v, ById(existing)) {
      var k :| 0 <= k < |incoming| && incoming[k] == v;
      assert Identities(incoming)[k] !in Identities(existing);
    }
    if k :| 0 <= k < |incoming| && Identities(incoming)[k] !in Identities(existing) {
      assert incoming[k] in incoming && !Unchanged(incoming[k], ById(existing));
    }
  }

  /** Looked up by its id, a variant is unchanged exactly when its configuration is stored. */
  lemma UnchangedIsStored(v: Variant, existing: seq<Variant>)
    requires DistinctIds(existing)
    ensures Unchanged(v, ById(existing)) <==> IdentityOf(v) in Identities(existing)
  {
    if Unchanged(v, ById(existing)) {
      var k :| 0 <= k < |existing| && existing[k] == ById(existing)[v.variantId];
      assert Identities(existing)[k] == IdentityOf(v);
    }
    if IdentityOf(v) in Identities(existing) {
      var k :| 0 <= k < |existing| && Identities(existing)[k] == IdentityOf(v);
      IndexedVariant(existing, k);
    }
  }

  function Plain(id: string, modelKey: string, weight: int): Variant {
    Variant(id, Some(modelKey), None, None, None, weight, 0, None, None)
  }

  lemma RepeatedIdEvadesTheLock()
    ensures var stored := [Plain("control", "haiku", 50), Plain("treatment", "sonnet", 50)];
            var edit := [Plain("control", "haiku", 50), Plain("control", "haiku", 50)];
            DistinctIds(stored) && !VariantsChanged(edit, stored) && !Permuted(edit, stored)
  {
    var stored := [Plain("control", "haiku", 50), Plain("treatment", "sonnet", 50)];
    var edit := [Plain("control", "haiku", 50), Plain("control", "haiku", 50)];
    assert "control" != "treatment" by { assert "control"[0] != "treatment"[0]; }
    IndexedVariant(stored, 0);
    assert forall v :: v in edit ==> v == stored[0];
    LockedExactly(edit, stored);
    assert edit[0].variantId == edit[1].variantId;
  }

  /** The rest of what the pinned versions are derived from. Sorted lists of classifications are compared. */
  function TypeOf(row: Row): ExperimentType {
    if row.experimentType.Some? then row.experimentType.value else Intent
  }

  function IntentOf(row: Row): string {
    if row.intent.Some? then row.intent.value else ""
  }

  predicate ComparisonChanged(incoming: Row, existing: Row) {
    || VariantsChanged(incoming.variants, existing.variants)
    || TypeOf(incoming) != TypeOf(existing)
    || IntentOf(incoming) != IntentOf(existing)
    || multiset(incoming.tiers) != multiset(existing.tiers)
  }

  /** Both rows compare the same thing: type, intent, classifications and tested configurations. */
  predicate SameComparison(a: Row, b: Row) {
    && TypeOf(a) == TypeOf(b)
    && IntentOf(a) == IntentOf(b)
    && multiset(a.tiers) == multiset(b.tiers)
    && Permuted(a.variants, b.variants)
  }
}
