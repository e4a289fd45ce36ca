/**
 * The clearance groups a confirmed sign-up is left in (backend/lambda/cognito-triggers/post-confirmation.js), over the
 * groups the trigger assembled from the registry's rows.
 */
module ClearanceSweep {
  import opened Prelude
  import opened Sorting
  import opened Registry
  import opened Admission
  import opened RowAssembly

  const SIGN_UP_CONFIRMED := "PostConfirmation_ConfirmSignUp"

  /** How the directory answered: the listing, if it answered, and which changes it refused. */
  datatype Calls = Calls(listed: Option<seq<string>>, attributesFail: bool, removeFails: set<string>, addFails: bool)

  function Existing(calls: Calls): set<string> {
    if calls.listed.Some? then Elems(calls.listed.value) else {}
  }

  function Removed(tierGroups: seq<string>, tier: string, calls: Calls): set<string> {
    set other | other in tierGroups && other != tier && other in Existing(calls) && other !in calls.removeFails
  }

  /** The memberships a sync leaves. A tier no clearance group is named for, and the empty one, leave them alone. */
  function Synced(groups: set<string>, tierGroups: seq<string>, tier: string, calls: Calls): set<string> {
    if tier !in tierGroups || tier == "" then groups
    else
      var added := if tier !in Existing(calls) && !calls.addFails then {tier} else {};
      groups - Removed(tierGroups, tier, calls) + added
  }

  class User {
    var groups: set<string>
    var approved: bool
    var tier: string

    constructor (groups: set<string>, approved: bool, tier: string)
      ensures this.groups == groups && this.approved == approved && this.tier == tier
    {
      this.groups, this.approved, this.tier := groups, approved, tier;
    }

    method SyncTierGroup(tierGroups: seq<string>, requested: string, calls: Calls)
      modifies this`groups
      ensures groups == Synced(old(groups), tierGroups, requested, calls)
    {
      var target := if requested in tierGroups then requested else "";
      if target == "" { return; }
      var existing := Existing(calls);
      for i := 0 to |tierGroups|
        invariant groups == old(groups) - Removed(tierGroups[..i], target, calls)
      {
        var other := tierGroups[i];
        assert tierGroups[..i + 1] == tierGroups[..i] + [other];
        if other != target && other in existing {
          if other !in calls.removeFails { groups := groups - {other}; }
        }
      }
      assert tierGroups[..|tierGroups|] == tierGroups;
      if target !in existing {
        if !calls.addFails { groups := groups + {target}; }
      }
    }

    /** The trigger. Anything but a confirmed sign-up leaves the user alone. */
    method Confirm(source: string, tierGroups: seq<string>, calls: Calls)
      modifies this
      ensures source != "PostConfirmation_ConfirmSignUp" ==>
        groups == old(groups) && approved == old(approved) && tier == old(tier)
      ensures source == "PostConfirmation_ConfirmSignUp" ==> groups == Synced(old(groups), tierGroups, old(tier), calls)
      ensures source == "PostConfirmation_ConfirmSignUp" && !calls.attributesFail ==>
        !approved && tier == if old(tier) in tierGroups then old(tier) else ""
      ensures source == "PostConfirmation_ConfirmSignUp" && calls.attributesFail ==>
        approved == old(approved) && tier == old(tier)
    {
      if source != SIGN_UP_CONFIRMED { return; }
      var target := if tier in tierGroups then tier else "";
      if !calls.attributesFail { approved, tier := false, target; }
      SyncTierGroup(tierGroups, target, calls);
    }
  }

  // ---------------------------------------------------------------- what a sync leaves

  /**
   * EXACTLY ONE CLEARANCE GROUP, EXACTLY WHEN THE CALLS SUCCEED. Where the directory lists only groups the person is
   * in, the sync leaves the tier's group as the one clearance group just when every other clearance group held was
   * listed and could be removed, and the tier's was held or could be added.
   */
  lemma SyncLeavesOneIff(groups: set<string>, tierGroups: seq<string>, tier: string, calls: Calls)
    requires tier in tierGroups && tier != "" && Existing(calls) <= groups
    ensures Synced(groups, tierGroups, tier, calls) * Elems(tierGroups) == {tier} <==>
            && (forall other :: other in groups && other in tierGroups && other != tier ==>
                  other in Existing(calls) && other !in calls.removeFails)
            && (tier in groups || !calls.addFails)
  {
    var after := Synced(groups, tierGroups, tier, calls);
    assert tier in after <==> tier in groups || !calls.addFails;
    assert forall other :: other != tier ==>
      (other in after <==> other in groups && other !in Removed(tierGroups, tier, calls));
    if after * Elems(tierGroups) == {tier} {
      assert tier in after * Elems(tierGroups);
      forall other | other in groups && other in tierGroups && other != tier
        ensures other in Existing(calls) && other !in calls.removeFails
      {
        assert other !in after * Elems(tierGroups);
      }
    }
  }

  /** Whatever fails, no membership outside the clearance groups changes. */
  lemma SyncSparesOthers(groups: set<string>, tierGroups: seq<string>, tier: string, calls: Calls)
    ensures Synced(groups, tierGroups, tier, calls) - Elems(tierGroups) == groups - Elems(tierGroups)
  {
    forall g
      ensures g in Synced(groups, tierGroups, tier, calls) - Elems(tierGroups) <==> g in groups - Elems(tierGroups)
    {
      assert g in tierGroups <==> g in Elems(tierGroups);
    }
  }

  // ---------------------------------------------------------------- the groups the trigger sweeps

  predicate Excludes(order: seq<string>, plane: seq<string>, e: (string, string)) {
    e.1 in order && e.1 !in plane
  }

  lemma ExclusiveIff(entries: Entries, order: seq<string>, plane: seq<string>, group: string)
    ensures group in ExclusiveGroups(entries, order, plane) <==>
      exists e :: e in entries && e.0 == group && Excludes(order, plane, e)
  {
    var kept := Filter((e: (string, string)) => e.1 in order && e.1 !in plane, entries);
    var le := (a: (string, string), b: (string, string)) => IndexOf(order, a.1) <= IndexOf(order, b.1);
    var sorted := Sort((a: (string, string), b: (string, string)) => IndexOf(order, a.1) <= IndexOf(order, b.1), kept);
    SortElems((a: (string, string), b: (string, string)) => IndexOf(order, a.1) <= IndexOf(order, b.1), kept);
    var groups := ExclusiveGroups(entries, order, plane);
    if group in groups {
      var i :| 0 <= i < |groups| && groups[i] == group;
      assert sorted[i] in Elems(kept);
      assert Excludes(order, plane, sorted[i]);
    }
    if e :| e in entries && e.0 == group && Excludes(order, plane, e) {
      assert e in Elems(sorted);
      var i :| 0 <= i < |sorted| && sorted[i] == e;
      assert groups[i] == group;
    }
  }

  /** A clearance group is exactly a group that clears for a declared classification off the admin plane. */
  lemma ClearanceGroupIff(entries: Entries, order: seq<string>, plane: seq<string>, group: string)
    requires Distinct(Keys(entries))
    ensures group in ExclusiveGroups(entries, order, plane) <==>
      Lookup(entries, group).Some? && Excludes(order, plane, (group, Lookup(entries, group).value))
  {
    ExclusiveIff(entries, order, plane, group);
    if e :| e in entries && e.0 == group && Excludes(order, plane, e) { KeyedLookup(entries, e); }
  }

  /** The clearance groups stand in the order their classifications are declared. */
  lemma ClearanceGroupsInOrder(entries: Entries, order: seq<string>, plane: seq<string>, i: nat, j: nat)
    requires Distinct(Keys(entries)) && i < j < |ExclusiveGroups(entries, order, plane)|
    ensures var groups := ExclusiveGroups(entries, order, plane);
            && Lookup(entries, groups[i]).Some? && Lookup(entries, groups[j]).Some?
            && IndexOf(order, Lookup(entries, groups[i]).value) <= IndexOf(order, Lookup(entries, groups[j]).value)
  {
    var le := (a: (string, string), b: (string, string)) => IndexOf(order, a.1) <= IndexOf(order, b.1);
    var kept := Filter((e: (string, string)) => e.1 in order && e.1 !in plane, entries);
    var sorted := Sort((a: (string, string), b: (string, string)) => IndexOf(order, a.1) <= IndexOf(order, b.1), kept);
    SortSorted((a: (string, string), b: (string, string)) => IndexOf(order, a.1) <= IndexOf(order, b.1), kept);
    SortElems((a: (string, string), b: (string, string)) => IndexOf(order, a.1) <= IndexOf(order, b.1), kept);
    assert sorted[i] in Elems(kept) && sorted[j] in Elems(kept);
    KeyedLookup(entries, sorted[i]);
    KeyedLookup(entries, sorted[j]);
  }

  /**
   * NO ADMINISTRATOR IS DEMOTED. Whatever rows the trigger reads and whichever calls fail, a group that clears for the
   * admin plane is held after a sync exactly when it was held before.
   */
  lemma SyncSparesAdminPlane(rows: seq<Row>, groups: set<string>, tier: string, calls: Calls, group: string)
    requires AdmissionOfRows(rows).Some?
    requires var adm := AdmissionOfRows(rows).value;
             Lookup(adm.groupClearance, group).Some? && Lookup(adm.groupClearance, group).value in adm.adminPlane
    ensures var adm := AdmissionOfRows(rows).value;
            group in Synced(groups, adm.clearanceGroups, tier, calls) <==> group in groups
  {
    var adm := AdmissionOfRows(rows).value;
    var sorted := Sort(RowLe, rows);
    MergedKeysDistinct(sorted);
    ClearanceGroupIff(adm.groupClearance, ValuesOf(sorted), PlanesOf(sorted), group);
    assert group !in adm.clearanceGroups;
    SyncSparesOthers(groups, adm.clearanceGroups, tier, calls);
    assert group in Synced(groups, adm.clearanceGroups, tier, calls) - Elems(adm.clearanceGroups)
           <==> group in groups - Elems(adm.clearanceGroups);
  }

  // ---------------------------------------------------------------- the holder a sync makes

  lemma ConfigKeysDistinct(cfg: Config)
    requires WellFormed(cfg)
    ensures Distinct(Keys(cfg.groupClearance))
  {
  }

  lemma GroupOfCleared(cfg: Config, group: string, v: string)
    requires WellFormed(cfg) && Lookup(cfg.groupClearance, group) == Some(v)
    ensures v in Declared(cfg)
    ensures group in ClearanceGroups(cfg) <==> !IsPlane(cfg, v)
  {
    assert (group, v) in cfg.groupClearance;
    ConfigKeysDistinct(cfg);
    PlaneValuesArePlanes(cfg, v);
    ClearanceGroupIff(cfg.groupClearance, Declared(cfg), AdminPlaneValues(cfg), group);
  }

  lemma HeldMemberIff(cfg: Config, groups: seq<string>, u: string)
    ensures u in MembersHeld(cfg, groups) <==> !IsPlane(cfg, u) && ClearsFor(cfg, groups, u)
  {
    ClearanceElems(cfg, groups);
    HeldExactly(cfg, groups, u);
  }

  lemma OnlyMember(cfg: Config, groups: seq<string>, tier: string, u: string)
    requires WellFormed(cfg) && Elems(groups) * Elems(ClearanceGroups(cfg)) == {tier}
    requires u in MembersHeld(cfg, groups)
    ensures Lookup(cfg.groupClearance, tier) == Some(u)
  {
    HeldMemberIff(cfg, groups, u);
    var g := ClearingGroup(cfg, groups, u);
    GroupOfCleared(cfg, g, u);
    OnlyCommon(groups, ClearanceGroups(cfg), tier, g);
  }

  lemma ClearingGroup(cfg: Config, groups: seq<string>, u: string) returns (g: string)
    requires ClearsFor(cfg, groups, u)
    ensures g in groups && Lookup(cfg.groupClearance, g) == Some(u)
  {
    g :| g in groups && Lookup(cfg.groupClearance, g) == Some(u);
  }

  lemma OnlyCommon(a: seq<string>, b: seq<string>, x: string, g: string)
    requires Elems(a) * Elems(b) == {x} && g in a && g in b
    ensures g == x
  {
    assert g in Elems(a) * Elems(b);
  }

  lemma OnlyValue(s: seq<string>, v: string)
    requires Distinct(s) && v in s && forall i :: 0 <= i < |s| ==> s[i] == v
    ensures s == [v]
  {
    DistinctCard(s);
    assert Elems(s) == {v};
  }

  /** In one clearance group, a person holds the one member classification it clears for. */
  lemma OneGroupOneMember(cfg: Config, groups: seq<string>, tier: string, v: string)
    requires WellFormed(cfg) && Elems(groups) * Elems(ClearanceGroups(cfg)) == {tier}
    requires Lookup(cfg.groupClearance, tier) == Some(v)
    ensures MembersHeld(cfg, groups) == [v] && v in Declared(cfg) && !IsPlane(cfg, v)
  {
    var m := MembersHeld(cfg, groups);
    assert tier in Elems(groups) * Elems(ClearanceGroups(cfg));
    GroupOfCleared(cfg, tier, v);
    HeldMemberIff(cfg, groups, v);
    forall i | 0 <= i < |m| ensures m[i] == v { OnlyMember(cfg, groups, tier, m[i]); }
    MembersDistinct(cfg, groups);
    OnlyValue(m, v);
  }

  lemma MembersDistinct(cfg: Config, groups: seq<string>)
    ensures Distinct(MembersHeld(cfg, groups))
  {
    ClearanceElems(cfg, groups);
    FilterDistinct(v => !IsPlane(cfg, v), ClearancesForGroups(cfg, groups));
  }

  lemma SyncedTierGroup(cfg: Config, groups: set<string>, tier: string, calls: Calls)
    requires tier in ClearanceGroups(cfg) && tier != ""
    requires Existing(calls) == groups && calls.removeFails == {} && !calls.addFails
    ensures Synced(groups, ClearanceGroups(cfg), tier, calls) * Elems(ClearanceGroups(cfg)) == {tier}
  {
    SyncLeavesOneIff(groups, ClearanceGroups(cfg), tier, calls);
  }

  lemma PlaneGroupKept(cfg: Config, groups: set<string>, tier: string, calls: Calls, group: string)
    requires WellFormed(cfg)
    requires Lookup(cfg.groupClearance, group).Some? && IsPlane(cfg, Lookup(cfg.groupClearance, group).value)
    ensures group in Synced(groups, ClearanceGroups(cfg), tier, calls) <==> group in groups
  {
    GroupOfCleared(cfg, group, Lookup(cfg.groupClearance, group).value);
    SyncSparesOthers(groups, ClearanceGroups(cfg), tier, calls);
    assert group in Synced(groups, ClearanceGroups(cfg), tier, calls) - Elems(ClearanceGroups(cfg))
           <==> group in groups - Elems(ClearanceGroups(cfg));
  }

  /** A classification held alone is its own token exactly when its list repeats nothing and nothing overtakes it. */
  lemma OwnTokenIff(cfg: Config, c: Classification)
    requires WellFormed(cfg) && c in cfg.classifications
    ensures TokenForUnion(cfg, [c.value]) == Some(c.value) <==> Distinct(c.grants) && !Overtaken(cfg, Elems(c.grants))
  {
    OneHeld(cfg, c);
    if TokenForUnion(cfg, [c.value]) == Some(c.value) {
      TokenGrantsUnionIff(cfg, [c.value], c);
      assert Exactly(c, Elems(c.grants));
      PlainTokenIff(cfg, [c.value]);
    }
    if Distinct(c.grants) && !Overtaken(cfg, Elems(c.grants)) { UnovertakenOwn(cfg, c); }
  }

  lemma UnovertakenAt(cfg: Config, union: set<string>, f: nat, j: nat)
    requires WellFormed(cfg) && FirstInside(cfg.classifications, union, f) && !Overtaken(cfg, union)
    requires j < |cfg.classifications| && Exactly(cfg.classifications[j], union)
    ensures f == j
  {
    PlainFirst(cfg, union, f, j);
    InsideEither(cfg.classifications[f], union);
    ExactlyOnce(cfg, union, f, j);
  }

  lemma UnovertakenOwn(cfg: Config, c: Classification)
    requires WellFormed(cfg) && c in cfg.classifications
    requires Distinct(c.grants) && !Overtaken(cfg, Elems(c.grants))
    ensures TokenForUnion(cfg, [c.value]) == Some(c.value)
  {
    OneHeld(cfg, c);
    InsideEither(c, Elems(c.grants));
    var f := TokenAt(cfg, [c.value]);
    UnovertakenAt(cfg, Elems(c.grants), f, PlaceOf(cfg, c));
  }

  /**
   * A SYNC LEAVES ONE CLEARANCE. When its calls succeed, the person keeps whatever admin plane they held, and their
   * token is the classification their tier's group clears for; exactly where that one's list repeats nothing and no
   * list that repeats a value overtakes it.
   */
  lemma SyncedHolder(cfg: Config, groups: set<string>, tier: string, v: string, calls: Calls, after: seq<string>)
    requires WellFormed(cfg)
    requires tier in ClearanceGroups(cfg) && tier != "" && Lookup(cfg.groupClearance, tier) == Some(v)
    requires Existing(calls) == groups && calls.removeFails == {} && !calls.addFails
    requires Elems(after) == Synced(groups, ClearanceGroups(cfg), tier, calls)
    ensures v in Declared(cfg) && MembersHeld(cfg, after) == [v]
    ensures var c := DeclaredAt(cfg, v);
            HolderForGroups(cfg, after).token == Some(v) <==> Distinct(c.grants) && !Overtaken(cfg, Elems(c.grants))
    ensures forall g :: Lookup(cfg.groupClearance, g).Some? && IsPlane(cfg, Lookup(cfg.groupClearance, g).value) ==>
      (g in Elems(after) <==> g in groups)
  {
    SyncedTierGroup(cfg, groups, tier, calls);
    OneGroupOneMember(cfg, after, tier, v);
    OwnTokenIff(cfg, DeclaredAt(cfg, v));
    forall g | Lookup(cfg.groupClearance, g).Some? && IsPlane(cfg, Lookup(cfg.groupClearance, g).value)
      ensures g in Elems(after) <==> g in groups
    {
      PlaneGroupKept(cfg, groups, tier, calls, g);
    }
  }
}
