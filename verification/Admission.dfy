/**
 * The registry's decision data as one object a handler applies locally (backend/lib/classification-admission.ts),
 * and the share handler's own reading of it (backend/lambda/share-conversation/index.js).
 */
module Admission {
  import opened Prelude
  import opened Sorting
  import opened Registry

  datatype Admission = Admission(
    groupClearance: Entries,
    grants: seq<(string, seq<string>)>,
    clearanceGroups: seq<string>,
    adminPlane: seq<string>)

  function GrantsAt(grants: seq<(string, seq<string>)>, value: string): (r: Option<seq<string>>)
    ensures r.Some? ==> (value, r.value) in grants
    ensures r.None? ==> forall e :: e in grants ==> e.0 != value
  {
    if grants == [] then None else if grants[0].0 == value then Some(grants[0].1) else GrantsAt(grants[1..], value)
  }

  /**
   * The groups exclusive of each other: those clearing for a declared value that is not the admin plane, in declaration
   * order.
   */
  function ExclusiveGroups(entries: Entries, order: seq<string>, plane: seq<string>): seq<string> {
    Map((e: (string, string)) => e.0,
      Sort((a: (string, string), b: (string, string)) => IndexOf(order, a.1) <= IndexOf(order, b.1),
        Filter((e: (string, string)) => e.1 in order && e.1 !in plane, entries)))
  }

  function ClearanceGroups(cfg: Config): seq<string> {
    ExclusiveGroups(cfg.groupClearance, Declared(cfg), AdminPlaneValues(cfg))
  }

  function GrantsOf(cfg: Config): seq<(string, seq<string>)> {
    Map(v => (v, GrantsFor(cfg, v)), Declared(cfg))
  }

  function ClassificationAdmission(cfg: Config): Admission {
    Admission(cfg.groupClearance, GrantsOf(cfg), ClearanceGroups(cfg), AdminPlaneValues(cfg))
  }

  lemma GrantsAtDeclared(cfg: Config, v: string)
    requires Distinct(Declared(cfg))
    ensures GrantsAt(GrantsOf(cfg), v) == if v in Declared(cfg) then Some(GrantsFor(cfg, v)) else None
  {
    var r := GrantsAt(GrantsOf(cfg), v);
    if r.Some? {
      var i :| 0 <= i < |GrantsOf(cfg)| && GrantsOf(cfg)[i] == (v, r.value);
    }
    if v in Declared(cfg) {
      assert GrantsOf(cfg)[IndexOf(Declared(cfg), v)] in GrantsOf(cfg);
    }
  }

  // ---------------------------------------------------------------- reachableClassifications

  function ShareHeld(adm: Admission, groups: seq<string>): seq<string> {
    if groups == [] then []
    else
      var before := ShareHeld(adm, groups[..|groups| - 1]);
      var target := Lookup(adm.groupClearance, groups[|groups| - 1]);
      if target.Some? && GrantsAt(adm.grants, target.value).Some? && target.value !in before
      then before + [target.value]
      else before
  }

  function ShareFlat(adm: Admission, held: seq<string>): seq<string> {
    if held == [] then []
    else
      var g := GrantsAt(adm.grants, held[0]);
      (if g.Some? then g.value else []) + ShareFlat(adm, held[1..])
  }

  function ShareMembers(adm: Admission, held: seq<string>): seq<string> {
    Filter(c => c !in adm.adminPlane, held)
  }

  function SharePlanes(adm: Admission, held: seq<string>): seq<string> {
    Filter(c => c in adm.adminPlane, held)
  }

  function ShareUnion(adm: Admission, held: seq<string>): seq<string> {
    Sort(StringLe, Dedup(ShareFlat(adm, ShareMembers(adm, held))))
  }

  predicate ShareNames(adm: Admission, union: seq<string>) {
    exists e :: e in adm.grants && Sort(StringLe, e.1) == union
  }

  /** Every classification a recipient reaches, as the share handler computes it from the admission data. */
  function ReachableClassifications(adm: Admission, groups: seq<string>): seq<string> {
    var held := ShareHeld(adm, groups);
    if held == [] then []
    else if ShareMembers(adm, held) == [] || ShareNames(adm, ShareUnion(adm, held))
    then Sort(StringLe, Dedup(ShareUnion(adm, held) + SharePlanes(adm, held)))
    else []
  }

  lemma {:induction false} ShareHeldIsHeld(cfg: Config, groups: seq<string>)
    requires Distinct(Declared(cfg))
    ensures ShareHeld(ClassificationAdmission(cfg), groups) == Held(cfg, groups)
  {
    if groups != [] {
      ShareHeldIsHeld(cfg, groups[..|groups| - 1]);
      var target := Lookup(cfg.groupClearance, groups[|groups| - 1]);
      if target.Some? { GrantsAtDeclared(cfg, target.value); }
    }
  }

  lemma {:induction false} ShareFlatIsFlat(cfg: Config, held: seq<string>)
    requires Distinct(Declared(cfg))
    requires forall v :: v in held ==> v in Declared(cfg)
    ensures ShareFlat(ClassificationAdmission(cfg), held) == FlatGrants(cfg, held)
  {
    if held != [] {
      ShareFlatIsFlat(cfg, held[1..]);
      GrantsAtDeclared(cfg, held[0]);
    }
  }

  lemma {:induction false} DedupDistinct(s: seq<string>)
    ensures Distinct(Dedup(s))
  {
    if s != [] { DedupDistinct(s[..|s| - 1]); }
  }

  /** Two sorted lists are one list exactly when they were one list in some order. */
  lemma SortedSame(a: seq<string>, b: seq<string>)
    ensures Sort(StringLe, a) == Sort(StringLe, b) <==> multiset(a) == multiset(b)
  {
    SortMultiset(StringLe, a);
    SortMultiset(StringLe, b);
    StringOrders();
    if multiset(a) == multiset(b) { SortForgetsOrder(StringLe, a, b); }
  }

  /** Some declared list is the set, each value once. */
  predicate NamedPlainly(cfg: Config, union: set<string>) {
    exists c :: c in cfg.classifications && Exactly(c, union)
  }

  /** The share handler's sorted comparison names a union exactly when a declared list is it, each value once. */
  lemma SharedNameIsName(cfg: Config, flat: seq<string>)
    requires WellFormed(cfg)
    ensures ShareNames(ClassificationAdmission(cfg), Sort(StringLe, Dedup(flat))) <==> NamedPlainly(cfg, Elems(flat))
  {
    var union := Dedup(flat);
    forall c | c in cfg.classifications
      ensures Sort(StringLe, GrantsFor(cfg, c.value)) == Sort(StringLe, union) <==> Exactly(c, Elems(flat))
    {
      NamesAlike(cfg, c, flat);
    }
    if e :| e in GrantsOf(cfg) && Sort(StringLe, e.1) == Sort(StringLe, union) {
      var i :| 0 <= i < |GrantsOf(cfg)| && GrantsOf(cfg)[i] == e;
      assert e.1 == GrantsFor(cfg, cfg.classifications[i].value);
      assert cfg.classifications[i] in cfg.classifications;
    }
    if c :| c in cfg.classifications && Exactly(c, Elems(flat)) {
      var i := PlaceOf(cfg, c);
      assert GrantsOf(cfg)[i] in GrantsOf(cfg);
    }
  }

  lemma NamesAlike(cfg: Config, c: Classification, flat: seq<string>)
    requires WellFormed(cfg) && c in cfg.classifications
    ensures Sort(StringLe, GrantsFor(cfg, c.value)) == Sort(StringLe, Dedup(flat)) <==> Exactly(c, Elems(flat))
  {
    DedupDistinct(flat);
    GrantsOfDeclared(cfg, c);
    SortedSame(GrantsFor(cfg, c.value), Dedup(flat));
    if Exactly(c, Elems(flat)) {
      DistinctMultiset(c.grants);
      DistinctMultiset(Dedup(flat));
    } else if multiset(GrantsFor(cfg, c.value)) == multiset(Dedup(flat)) {
      MultisetElems(Dedup(flat), c.grants);
    }
  }

  /**
   * What the share handler admits: the union held and the planes held, where a list that repeats nothing names the
   * union.
   */
  predicate HoldingNamed(cfg: Config, groups: seq<string>) {
    MembersHeld(cfg, groups) == [] || NamedPlainly(cfg, Union(cfg, MembersHeld(cfg, groups)))
  }

  lemma HeldPart(cfg: Config, groups: seq<string>, v: string)
    requires WellFormed(cfg)
    ensures v in ShareMembers(ClassificationAdmission(cfg), Held(cfg, groups)) <==> v in MembersHeld(cfg, groups)
    ensures v in SharePlanes(ClassificationAdmission(cfg), Held(cfg, groups)) <==> v in PlanesHeld(cfg, groups)
    ensures v in Held(cfg, groups) ==> v in Declared(cfg)
  {
    ClearanceElems(cfg, groups);
    PlaneValuesArePlanes(cfg, v);
    HeldExactly(cfg, groups, v);
  }

  lemma SameElems(a: seq<string>, b: seq<string>)
    requires forall v :: v in a <==> v in b
    ensures Elems(a) == Elems(b)
  {
  }

  lemma HeldMembersAlike(cfg: Config, groups: seq<string>)
    requires WellFormed(cfg)
    ensures Elems(ShareMembers(ClassificationAdmission(cfg), Held(cfg, groups))) == Elems(MembersHeld(cfg, groups))
  {
    var share, registry := ShareMembers(ClassificationAdmission(cfg), Held(cfg, groups)), MembersHeld(cfg, groups);
    forall v ensures v in share <==> v in registry { HeldPart(cfg, groups, v); }
    SameElems(share, registry);
  }

  lemma HeldPlanesAlike(cfg: Config, groups: seq<string>)
    requires WellFormed(cfg)
    ensures Elems(SharePlanes(ClassificationAdmission(cfg), Held(cfg, groups))) == Elems(PlanesHeld(cfg, groups))
  {
    var share, registry := SharePlanes(ClassificationAdmission(cfg), Held(cfg, groups)), PlanesHeld(cfg, groups);
    forall v ensures v in share <==> v in registry { HeldPart(cfg, groups, v); }
    SameElems(share, registry);
  }

  lemma HeldAreDeclared(cfg: Config, groups: seq<string>)
    ensures forall v :: v in Held(cfg, groups) ==> v in Declared(cfg)
  {
    forall v | v in Held(cfg, groups) ensures v in Declared(cfg) { HeldExactly(cfg, groups, v); }
  }

  lemma EmptyElems(s: seq<string>)
    ensures s == [] <==> Elems(s) == {}
  {
    if s != [] { assert s[0] in Elems(s); }
  }

  lemma ConcatElems(a: seq<string>, b: seq<string>)
    ensures Elems(a + b) == Elems(a) + Elems(b)
  {
  }

  /** The grants the share handler gathers are those of the member classifications held. */
  lemma ShareFlatElems(cfg: Config, groups: seq<string>)
    requires WellFormed(cfg)
    ensures var adm := ClassificationAdmission(cfg);
            var members := ShareMembers(adm, Held(cfg, groups));
            ShareFlat(adm, members) == FlatGrants(cfg, members)
            && Elems(FlatGrants(cfg, members)) == Union(cfg, MembersHeld(cfg, groups))
  {
    var members := ShareMembers(ClassificationAdmission(cfg), Held(cfg, groups));
    HeldMembersAlike(cfg, groups);
    HeldAreDeclared(cfg, groups);
    ShareFlatIsFlat(cfg, members);
    UnionGrows(cfg, members, MembersHeld(cfg, groups));
    UnionGrows(cfg, MembersHeld(cfg, groups), members);
  }

  lemma ShareUnionIsUnion(cfg: Config, groups: seq<string>)
    requires WellFormed(cfg)
    ensures var adm, held := ClassificationAdmission(cfg), Held(cfg, groups);
            && Elems(ShareUnion(adm, held)) == Union(cfg, MembersHeld(cfg, groups))
            && (ShareNames(adm, ShareUnion(adm, held)) <==> NamedPlainly(cfg, Union(cfg, MembersHeld(cfg, groups))))
  {
    var flat := FlatGrants(cfg, ShareMembers(ClassificationAdmission(cfg), Held(cfg, groups)));
    ShareFlatElems(cfg, groups);
    SharedNameIsName(cfg, flat);
    SortElems(StringLe, Dedup(flat));
  }

  /** What the share handler admits to a person in these groups. */
  function Shared(cfg: Config, groups: seq<string>): set<string> {
    Elems(ReachableClassifications(ClassificationAdmission(cfg), groups))
  }

  /** What the registry says the person reaches. */
  function Reached(cfg: Config, groups: seq<string>): set<string> {
    Elems(ReachOf(cfg, HolderForGroups(cfg, groups)))
  }

  /** WHAT IS SHARED, on any set validation accepts. */
  lemma ShareFormula(cfg: Config, groups: seq<string>)
    requires WellFormed(cfg)
    ensures Shared(cfg, groups) ==
            if HoldingNamed(cfg, groups)
            then Union(cfg, MembersHeld(cfg, groups)) + Elems(PlanesHeld(cfg, groups))
            else {}
  {
    var adm, held := ClassificationAdmission(cfg), Held(cfg, groups);
    ShareHeldIsHeld(cfg, groups);
    HeldMembersAlike(cfg, groups);
    HeldPlanesAlike(cfg, groups);
    ShareUnionIsUnion(cfg, groups);
    EmptyElems(ShareMembers(adm, held));
    EmptyElems(MembersHeld(cfg, groups));
    EmptyElems(PlanesHeld(cfg, groups));
    var both := ShareUnion(adm, held) + SharePlanes(adm, held);
    SortElems(StringLe, Dedup(both));
    ConcatElems(ShareUnion(adm, held), SharePlanes(adm, held));
  }

  lemma NoMembersNoUnion(cfg: Config, groups: seq<string>)
    ensures MembersHeld(cfg, groups) == [] ==> Union(cfg, MembersHeld(cfg, groups)) == {}
  {
  }

  lemma PlanesHeldArePlanes(cfg: Config, groups: seq<string>)
    requires WellFormed(cfg)
    ensures Elems(PlanesHeld(cfg, groups)) <= Elems(AdminPlaneValues(cfg))
    ensures Union(cfg, MembersHeld(cfg, groups)) !! Elems(AdminPlaneValues(cfg))
  {
    MembersUnion(cfg, groups);
    forall v
      ensures v in PlanesHeld(cfg, groups) ==> v in AdminPlaneValues(cfg)
      ensures v in AdminPlaneValues(cfg) ==> v !in Union(cfg, MembersHeld(cfg, groups))
    {
      PlaneValuesArePlanes(cfg, v);
    }
  }

  // ---------------------------------------------------------------- where it refines the registry

  /** A list that repeats a value is as long as the set and inside it, and stands before the list that is the set. */
  predicate Overtaken(cfg: Config, union: set<string>) {
    exists i, j :: 0 <= i < j < |cfg.classifications| && OvertakenAt(cfg.classifications, union, i, j)
  }

  predicate OvertakenAt(cs: seq<Classification>, union: set<string>, i: nat, j: nat) {
    i < j < |cs| && !Distinct(cs[i].grants) && Inside(cs[i], union) && Exactly(cs[j], union)
  }

  /** A set has one name: no two declared lists are it, each value once. */
  lemma ExactlyOnce(cfg: Config, union: set<string>, i: nat, j: nat)
    requires WellFormed(cfg) && i < |cfg.classifications| && j < |cfg.classifications|
    requires Exactly(cfg.classifications[i], union) && Exactly(cfg.classifications[j], union)
    ensures i == j
  {
    var c, d := cfg.classifications[i], cfg.classifications[j];
    assert c in cfg.classifications && d in cfg.classifications;
    NamedOnce(cfg, c, d);
    assert Declared(cfg)[i] == Declared(cfg)[j];
  }

  /** The list the token's test comes to first: `f`, as long as the union and inside it, and none before it is. */
  predicate FirstInside(cs: seq<Classification>, union: set<string>, f: nat) {
    f < |cs| && Inside(cs[f], union) && forall k :: 0 <= k < f ==> !Inside(cs[k], union)
  }

  lemma FirstBefore(cs: seq<Classification>, union: set<string>, f: nat, a: nat, b: nat)
    requires FirstInside(cs, union, f) && OvertakenAt(cs, union, a, b)
    ensures f < b && (union <= Elems(cs[f].grants) ==> Exactly(cs[f], union))
  {
    InsideEither(cs[f], union);
  }

  lemma OvertakenFirst(cfg: Config, union: set<string>, f: nat)
    requires WellFormed(cfg) && FirstInside(cfg.classifications, union, f) && Overtaken(cfg, union)
    ensures !(union <= Elems(cfg.classifications[f].grants))
  {
    var a, b :| 0 <= a < b < |cfg.classifications| && OvertakenAt(cfg.classifications, union, a, b);
    FirstBefore(cfg.classifications, union, f, a, b);
    if Exactly(cfg.classifications[f], union) { ExactlyOnce(cfg, union, f, b); }
  }

  lemma PlainFirst(cfg: Config, union: set<string>, f: nat, j: nat)
    requires FirstInside(cfg.classifications, union, f) && !Overtaken(cfg, union)
    requires j < |cfg.classifications| && Exactly(cfg.classifications[j], union)
    ensures Elems(cfg.classifications[f].grants) == union
  {
    InsideEither(cfg.classifications[j], union);
    InsideEither(cfg.classifications[f], union);
    assert f <= j;
    if !Distinct(cfg.classifications[f].grants) { assert OvertakenAt(cfg.classifications, union, f, j); }
  }

  lemma TokenFirst(cfg: Config, held: seq<string>) returns (f: nat)
    requires WellFormed(cfg) && held != [] && NamedPlainly(cfg, Union(cfg, held))
    ensures FirstInside(cfg.classifications, Union(cfg, held), f)
    ensures TokenReach(cfg, TokenForUnion(cfg, held)) == Elems(cfg.classifications[f].grants)
  {
    f := TokenAt(cfg, held);
    var c :| c in cfg.classifications && Exactly(c, Union(cfg, held));
    InsideEither(c, Union(cfg, held));
    assert cfg.classifications[PlaceOf(cfg, c)] == c;
  }

  /** Where a plain list names the union, the token's grants are the union exactly when nothing overtakes that list. */
  lemma PlainTokenIff(cfg: Config, held: seq<string>)
    requires WellFormed(cfg) && held != [] && NamedPlainly(cfg, Union(cfg, held))
    ensures Union(cfg, held) <= TokenReach(cfg, TokenForUnion(cfg, held)) <==> !Overtaken(cfg, Union(cfg, held))
  {
    var union := Union(cfg, held);
    var f := TokenFirst(cfg, held);
    if Overtaken(cfg, union) {
      OvertakenFirst(cfg, union, f);
    } else {
      var c :| c in cfg.classifications && Exactly(c, union);
      PlainFirst(cfg, union, f, PlaceOf(cfg, c));
    }
  }

  lemma MembersOff(cfg: Config, groups: seq<string>)
    requires WellFormed(cfg)
    ensures Union(cfg, MembersHeld(cfg, groups)) !! PlaneReach(cfg, groups)
    ensures Elems(PlanesHeld(cfg, groups)) <= PlaneReach(cfg, groups) <= Elems(AdminPlaneValues(cfg))
  {
    PlanesHeldArePlanes(cfg, groups);
    EmptyElems(PlanesHeld(cfg, groups));
  }

  lemma WithinBeside(u: set<string>, r: set<string>, p: set<string>, q: set<string>)
    requires u !! q && p <= q
    ensures u + p <= r + q <==> u <= r
  {
    if u + p <= r + q {
      forall v | v in u ensures v in r { assert v in u + p; }
    }
  }

  /**
   * WHEN THE SHARE HANDLER STAYS WITHIN THE REGISTRY. What it admits to a person is within what the registry says they
   * reach exactly when no list that repeats a value overtakes the name of what they hold. On any set validation
   * accepts.
   */
  lemma ShareWithinIff(cfg: Config, groups: seq<string>)
    requires WellFormed(cfg)
    ensures Shared(cfg, groups) <= Reached(cfg, groups)
       <==> MembersHeld(cfg, groups) == [] || !Overtaken(cfg, Union(cfg, MembersHeld(cfg, groups)))
  {
    var m := MembersHeld(cfg, groups);
    ShareFormula(cfg, groups);
    ReachElems(cfg, HolderForGroups(cfg, groups));
    MembersOff(cfg, groups);
    NoMembersNoUnion(cfg, groups);
    if m != [] {
      if NamedPlainly(cfg, Union(cfg, m)) {
        PlainTokenIff(cfg, m);
        WithinBeside(Union(cfg, m), TokenReach(cfg, TokenForUnion(cfg, m)), Elems(PlanesHeld(cfg, groups)),
          PlaneReach(cfg, groups));
      } else {
        NotOvertaken(cfg, Union(cfg, m));
      }
    }
  }

  lemma NotOvertaken(cfg: Config, union: set<string>)
    requires !NamedPlainly(cfg, union)
    ensures !Overtaken(cfg, union)
  {
    forall j | 0 <= j < |cfg.classifications| ensures !Exactly(cfg.classifications[j], union) {
      assert cfg.classifications[j] in cfg.classifications;
    }
  }

  /** Some clearance groups' members hold exactly this union between them. */
  predicate Cleared(cfg: Config, union: set<string>) {
    forall g :: g in union ==>
      exists e :: e in cfg.groupClearance && ClearsInside(cfg, e, union) && g in Grants(cfg, e.1)
  }

  predicate ClearsInside(cfg: Config, e: (string, string), union: set<string>) {
    !IsPlane(cfg, e.1) && Grants(cfg, e.1) <= union
  }

  /**
   * No list that repeats a value stands before, and as long as and inside, a plain list whose set people may come to
   * hold.
   */
  predicate NothingOvertakes(cfg: Config) {
    var cs := cfg.classifications;
    forall i, j ::
      (0 <= i < j < |cs| && !Distinct(cs[i].grants) && Distinct(cs[j].grants) && Inside(cs[i], Elems(cs[j].grants))) ==>
        !Cleared(cfg, Elems(cs[j].grants))
  }

  lemma HeldIsCleared(cfg: Config, groups: seq<string>)
    requires WellFormed(cfg)
    ensures Cleared(cfg, Union(cfg, MembersHeld(cfg, groups)))
  {
    var m := MembersHeld(cfg, groups);
    forall g | g in Union(cfg, m)
      ensures exists e :: e in cfg.groupClearance && ClearsInside(cfg, e, Union(cfg, m)) && g in Grants(cfg, e.1)
    {
      UnionMember(cfg, m, g);
      var v :| v in m && g in Grants(cfg, v);
      ClearanceElems(cfg, groups);
      HeldExactly(cfg, groups, v);
      var group :| group in groups && Lookup(cfg.groupClearance, group) == Some(v);
      forall x | x in Grants(cfg, v) ensures x in Union(cfg, m) { UnionMember(cfg, m, x); }
      assert ClearsInside(cfg, (group, v), Union(cfg, m)) && (group, v) in cfg.groupClearance;
    }
  }

  /** The groups that clear for something inside the union. */
  function GroupsInside(cfg: Config, union: set<string>): seq<string> {
    Map((e: (string, string)) => e.0, Filter((e: (string, string)) => ClearsInside(cfg, e, union), cfg.groupClearance))
  }

  lemma InMapped<T(!new)>(f: T -> string, p: T -> bool, s: seq<T>, v: string)
    ensures v in Map(f, Filter(p, s)) <==> exists e :: e in s && p(e) && f(e) == v
  {
    var kept := Filter(p, s);
    if v in Map(f, kept) {
      var i :| 0 <= i < |kept| && Map(f, kept)[i] == v;
      assert kept[i] in kept;
    }
    if e :| e in s && p(e) && f(e) == v {
      var i :| 0 <= i < |kept| && kept[i] == e;
      assert Map(f, kept)[i] == v;
    }
  }

  lemma InGroupsInside(cfg: Config, union: set<string>, group: string)
    requires WellFormed(cfg)
    ensures group in GroupsInside(cfg, union) <==>
      Lookup(cfg.groupClearance, group).Some?
        && ClearsInside(cfg, (group, Lookup(cfg.groupClearance, group).value), union)
  {
    var found := Lookup(cfg.groupClearance, group);
    InMapped((e: (string, string)) => e.0, (e: (string, string)) => ClearsInside(cfg, e, union), cfg.groupClearance,
      group);
    if e :| e in cfg.groupClearance && ClearsInside(cfg, e, union) && e.0 == group {
      LookupOf(cfg, e);
    }
  }

  lemma LookupOf(cfg: Config, e: (string, string))
    requires WellFormed(cfg) && e in cfg.groupClearance
    ensures Lookup(cfg.groupClearance, e.0) == Some(e.1)
  {
    var found := Lookup(cfg.groupClearance, e.0);
    var i :| 0 <= i < |cfg.groupClearance| && cfg.groupClearance[i] == e;
    var j :| 0 <= j < |cfg.groupClearance| && cfg.groupClearance[j] == (e.0, found.value);
    assert i == j;
  }

  lemma InsideUnion(cfg: Config, union: set<string>, g: string)
    requires WellFormed(cfg) && Cleared(cfg, union)
    ensures g in Union(cfg, MembersHeld(cfg, GroupsInside(cfg, union))) <==> g in union
  {
    var gs := GroupsInside(cfg, union);
    var m := MembersHeld(cfg, gs);
    UnionMember(cfg, m, g);
    ClearanceElems(cfg, gs);
    if v :| v in m && g in Grants(cfg, v) {
      HeldExactly(cfg, gs, v);
      var group :| group in gs && Lookup(cfg.groupClearance, group) == Some(v);
      InGroupsInside(cfg, union, group);
    }
    if g in union {
      var e :| e in cfg.groupClearance && ClearsInside(cfg, e, union) && g in Grants(cfg, e.1);
      LookupOf(cfg, e);
      InGroupsInside(cfg, union, e.0);
      HeldExactly(cfg, gs, e.1);
      assert e.1 in m;
    }
  }

  /** A cleared union is held by the people in the groups inside it. */
  lemma ClearedIsHeld(cfg: Config, union: set<string>)
    requires WellFormed(cfg) && Cleared(cfg, union) && union != {}
    ensures MembersHeld(cfg, GroupsInside(cfg, union)) != []
    ensures Union(cfg, MembersHeld(cfg, GroupsInside(cfg, union))) == union
  {
    var gs := GroupsInside(cfg, union);
    ClearedUnion(cfg, union);
    NoMembersNoUnion(cfg, gs);
  }

  lemma ClearedUnion(cfg: Config, union: set<string>)
    requires WellFormed(cfg) && Cleared(cfg, union)
    ensures Union(cfg, MembersHeld(cfg, GroupsInside(cfg, union))) == union
  {
    forall g ensures g in Union(cfg, MembersHeld(cfg, GroupsInside(cfg, union))) <==> g in union {
      InsideUnion(cfg, union, g);
    }
  }

  lemma OvertakenExceeds(cfg: Config, i: nat, j: nat)
    requires WellFormed(cfg) && i < j < |cfg.classifications|
    requires !Distinct(cfg.classifications[i].grants) && Distinct(cfg.classifications[j].grants)
    requires Inside(cfg.classifications[i], Elems(cfg.classifications[j].grants))
      && Cleared(cfg, Elems(cfg.classifications[j].grants))
    ensures var groups := GroupsInside(cfg, Elems(cfg.classifications[j].grants));
            !(Shared(cfg, groups) <= Reached(cfg, groups))
  {
    var c := cfg.classifications[j];
    assert c in cfg.classifications && c.value in Elems(c.grants);
    ClearedIsHeld(cfg, Elems(c.grants));
    assert OvertakenAt(cfg.classifications, Elems(c.grants), i, j);
    ShareWithinIff(cfg, GroupsInside(cfg, Elems(c.grants)));
  }

  lemma HeldNotOvertaken(cfg: Config, groups: seq<string>)
    requires WellFormed(cfg) && NothingOvertakes(cfg)
    ensures !Overtaken(cfg, Union(cfg, MembersHeld(cfg, groups)))
  {
    HeldIsCleared(cfg, groups);
  }

  /**
   * WHEN THE SHARE HANDLER NEVER EXCEEDS THE REGISTRY. For every person at once, exactly when no list that repeats a
   * value stands before, and as long as and inside, a plain list whose set some groups clear for between them.
   */
  lemma ShareNeverExceedsIff(cfg: Config)
    requires WellFormed(cfg)
    ensures (forall groups :: Shared(cfg, groups) <= Reached(cfg, groups)) <==> NothingOvertakes(cfg)
  {
    if NothingOvertakes(cfg) {
      forall groups ensures Shared(cfg, groups) <= Reached(cfg, groups) {
        ShareWithinIff(cfg, groups);
        HeldNotOvertaken(cfg, groups);
      }
    } else {
      var cs := cfg.classifications;
      var i, j :| 0 <= i < j < |cs| && !Distinct(cs[i].grants) && Distinct(cs[j].grants)
        && Inside(cs[i], Elems(cs[j].grants)) && Cleared(cfg, Elems(cs[j].grants));
      OvertakenExceeds(cfg, i, j);
    }
  }

  lemma RepeatedGrantNamed()
    ensures NamedPlainly(RepeatedGrantConfig(), {"a", "b"})
  {
    assert Exactly(RepeatedB(), {"a", "b"});
    assert RepeatedGrantConfig().classifications[1] in RepeatedGrantConfig().classifications;
  }

  lemma NamedIsShared(cfg: Config, groups: seq<string>, v: string)
    requires WellFormed(cfg) && HoldingNamed(cfg, groups) && v in Union(cfg, MembersHeld(cfg, groups))
    ensures v in Shared(cfg, groups)
  {
    ShareFormula(cfg, groups);
  }

  lemma RepeatedGrantShared()
    ensures "b" in Shared(RepeatedGrantConfig(), ["g"])
  {
    RepeatedGrantValid();
    RepeatedGrantMembers();
    RepeatedGrantUnion();
    RepeatedGrantNamed();
    NamedIsShared(RepeatedGrantConfig(), ["g"], "b");
  }

  /** A validated set whose share handler admits the holder of `b` to `b`, which the registry says they do not reach. */
  lemma RepeatedGrantShares()
    ensures WellFormed(RepeatedGrantConfig())
    ensures "b" in Shared(RepeatedGrantConfig(), ["g"]) && "b" !in Reached(RepeatedGrantConfig(), ["g"])
  {
    RepeatedGrantShared();
    RepeatedGrantMisnames();
  }

  /**
   * THE SHARE HANDLER REFINES THE REGISTRY. Where no repeated list shadows what a person holds, it admits no more than
   * the registry reaches, and the same exactly when no plane is held, or the holding is named and every plane is held.
   */
  lemma ShareRefinesRegistry(cfg: Config, groups: seq<string>)
    requires WellFormed(cfg) && HoldingClear(cfg, groups)
    ensures Shared(cfg, groups) <= Reached(cfg, groups)
    ensures Shared(cfg, groups) == Reached(cfg, groups) <==>
      || PlanesHeld(cfg, groups) == []
      || (HoldingNamed(cfg, groups) && Elems(PlanesHeld(cfg, groups)) == Elems(AdminPlaneValues(cfg)))
  {
    ShareFormula(cfg, groups);
    ReachFormulaIff(cfg, groups);
    if MembersHeld(cfg, groups) != [] { ClearNamedPlainly(cfg, groups); }
    NoMembersNoUnion(cfg, groups);
    PlanesHeldArePlanes(cfg, groups);
    EmptyElems(PlanesHeld(cfg, groups));
    SetSplit(Union(cfg, MembersHeld(cfg, groups)), Elems(PlanesHeld(cfg, groups)), Elems(AdminPlaneValues(cfg)));
  }

  /** Where nothing shadows a holding, a name is a plain name. */
  lemma ClearNamedPlainly(cfg: Config, groups: seq<string>)
    requires HoldingClear(cfg, groups) && MembersHeld(cfg, groups) != []
    ensures var union := Union(cfg, MembersHeld(cfg, groups)); NamedPlainly(cfg, union) <==> Named(cfg, union)
  {
    var cs, union := cfg.classifications, Union(cfg, MembersHeld(cfg, groups));
    if c :| c in cs && Elems(c.grants) == union && !Distinct(c.grants) {
      var i := PlaceOf(cfg, c);
      var j :| 0 <= j < |cs| && Exactly(cs[j], union);
      assert cs[j] in cs;
    }
  }

  /** Two unions with one disjoint part are equal exactly when their other parts are. */
  lemma SetSplit(u: set<string>, p: set<string>, q: set<string>)
    requires u !! q && p <= q
    ensures u + p == u + q <==> p == q
  {
    if u + p == u + q {
      forall v | v in q ensures v in p { assert v in u + p; }
    }
  }
}
