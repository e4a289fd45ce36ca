/**
 * A conversation type's group and its classifications (backend/lib/conversation-type-grants.ts): the check made when
 * a deployment is synthesized, and what it promises about the people later added through the group.
 */
module TypeGroups {
  import opened Prelude
  import opened Sorting
  import opened Registry

  /** `group` is empty for a type that takes its people from no group; no list of classifications means every one. */
  datatype ConversationType = ConversationType(key: string, group: string, classifications: Option<seq<string>>)

  datatype Problem =
    | GroupClears(key: string, group: string)
    | GroupUndeclared(key: string, group: string)
    | NotReached(key: string, group: string, required: string, at: string)

  predicate IsKnown(cfg: Config, value: string) {
    value != "" && Resolve(cfg, value).Some?
  }

  predicate TypeIsServed(cfg: Config, t: ConversationType) {
    t.classifications.None? || exists c :: c in t.classifications.value && IsKnown(cfg, c)
  }

  /** The classifications a type is created at. */
  function CreatedAt(cfg: Config, t: ConversationType): seq<string> {
    if t.classifications.Some? then t.classifications.value else Declared(cfg)
  }

  /** What a membership group requires of its members. */
  function Required(cfg: Config, group: string): Option<string> {
    if group in cfg.membershipGroups && cfg.membershipGroups[group] != "" then Some(cfg.membershipGroups[group])
      else None
  }

  function ReachedFrom(cfg: Config, holder: string): string -> bool {
    c => Reaches(cfg, holder, c)
  }

  function Shortfalls(reached: string -> bool, t: ConversationType, required: string, at: seq<string>): seq<Problem> {
    if at == [] then []
    else
      var c := at[|at| - 1];
      Shortfalls(reached, t, required, at[..|at| - 1])
        + (if reached(c) then [] else [NotReached(t.key, t.group, required, c)])
  }

  function TypeProblems(cfg: Config, t: ConversationType): seq<Problem> {
    if t.group == "" || !TypeIsServed(cfg, t) then []
    else if Lookup(cfg.groupClearance, t.group).Some? then [GroupClears(t.key, t.group)]
    else
      var required := Required(cfg, t.group);
      if required.None? then [GroupUndeclared(t.key, t.group)]
      else Shortfalls(ReachedFrom(cfg, required.value), t, required.value, CreatedAt(cfg, t))
  }

  function Contradictions(cfg: Config, types: seq<ConversationType>): seq<Problem> {
    if types == [] then []
    else Contradictions(cfg, types[..|types| - 1]) + TypeProblems(cfg, types[|types| - 1])
  }

  lemma ShortfallsSnoc(reached: string -> bool, t: ConversationType, required: string, at: seq<string>, j: nat)
    requires j < |at|
    ensures Shortfalls(reached, t, required, at[..j + 1]) == Shortfalls(reached, t, required, at[..j])
            + (if reached(at[j]) then [] else [NotReached(t.key, t.group, required, at[j])])
  {
    assert at[..j + 1][..j] == at[..j];
  }

  lemma {:induction false} NoShortfalls(reached: string -> bool, t: ConversationType, required: string, at: seq<string>)
    ensures Shortfalls(reached, t, required, at) == [] <==> forall c :: c in at ==> reached(c)
  {
    if at != [] {
      NoShortfalls(reached, t, required, at[..|at| - 1]);
      assert at == at[..|at| - 1] + [at[|at| - 1]];
    }
  }

  lemma ContradictionsSnoc(cfg: Config, types: seq<ConversationType>, i: nat)
    requires i < |types|
    ensures Contradictions(cfg, types[..i + 1]) == Contradictions(cfg, types[..i]) + TypeProblems(cfg, types[i])
  {
    assert types[..i + 1][..i] == types[..i];
  }

  /** The inner loop: one problem more for each classification the type is created at and its group does not require. */
  method AppendShortfalls(reached: string -> bool, t: ConversationType, required: string, at: seq<string>,
      before: seq<Problem>)
    returns (problems: seq<Problem>)
    ensures problems == before + Shortfalls(reached, t, required, at)
  {
    problems := before;
    for j := 0 to |at|
      invariant problems == before + Shortfalls(reached, t, required, at[..j])
    {
      ShortfallsSnoc(reached, t, required, at, j);
      if !reached(at[j]) {
        problems := problems + [NotReached(t.key, t.group, required, at[j])];
      }
    }
    assert at[..|at|] == at;
  }

  /** Every contradiction, type by type in declaration order. */
  method TypeGroupContradictions(cfg: Config, types: seq<ConversationType>) returns (problems: seq<Problem>)
    ensures problems == Contradictions(cfg, types)
  {
    problems := [];
    for i := 0 to |types|
      invariant problems == Contradictions(cfg, types[..i])
    {
      var t := types[i];
      ContradictionsSnoc(cfg, types, i);
      if t.group == "" || !TypeIsServed(cfg, t) { continue; }
      if Lookup(cfg.groupClearance, t.group).Some? {
        problems := problems + [GroupClears(t.key, t.group)];
        continue;
      }
      var required := Required(cfg, t.group);
      if required.None? {
        problems := problems + [GroupUndeclared(t.key, t.group)];
        continue;
      }
      problems := AppendShortfalls(ReachedFrom(cfg, required.value), t, required.value, CreatedAt(cfg, t), problems);
    }
    assert types[..|types|] == types;
  }

  // ---------------------------------------------------------------- what the check reports

  /** The type names some classification the deployment declares, by its value or an alias; or names none. */
  predicate NamesDeclared(cfg: Config, t: ConversationType) {
    t.classifications.None? || exists v :: v in t.classifications.value && v != "" && DeclaredTag(cfg, v)
  }

  predicate DeclaredTag(cfg: Config, tag: string) {
    exists c :: c in cfg.classifications && (c.value == tag || tag in c.aliases)
  }

  lemma KnownIff(cfg: Config, tag: string)
    ensures IsKnown(cfg, tag) <==> tag != "" && DeclaredTag(cfg, tag)
  {
    if !DeclaredTag(cfg, tag) { UnknownIs(cfg, tag); }
  }

  lemma ServedIff(cfg: Config, t: ConversationType)
    ensures TypeIsServed(cfg, t) <==> NamesDeclared(cfg, t)
  {
    if t.classifications.Some? {
      forall v | v in t.classifications.value ensures IsKnown(cfg, v) <==> v != "" && DeclaredTag(cfg, v) {
        KnownIff(cfg, v);
      }
    }
  }

  predicate Clears(cfg: Config, group: string) {
    exists e :: e in cfg.groupClearance && e.0 == group
  }

  /** The group requires `r`, and the classification `r` does not grant `c`. */
  predicate FallsShort(cfg: Config, group: string, r: string, c: string) {
    && group in cfg.membershipGroups && cfg.membershipGroups[group] == r && r != ""
    && forall d :: d in cfg.classifications && d.value == r ==> c !in d.grants
  }

  /** The type is made at the classification: one it names, or, where it names none, any declared one. */
  predicate MakesAt(cfg: Config, t: ConversationType, c: string) {
    if t.classifications.Some? then c in t.classifications.value
    else exists d :: d in cfg.classifications && d.value == c
  }

  /** What is wrong with a type that is served and takes its people from a group. */
  predicate Reported(cfg: Config, t: ConversationType, p: Problem) {
    && t.group != "" && NamesDeclared(cfg, t)
    && match p
       case GroupClears(key, group) => key == t.key && group == t.group && Clears(cfg, group)
       case GroupUndeclared(key, group) =>
         && key == t.key && group == t.group && !Clears(cfg, group)
         && (group !in cfg.membershipGroups || cfg.membershipGroups[group] == "")
       case NotReached(key, group, r, c) =>
         && key == t.key && group == t.group && !Clears(cfg, group) && FallsShort(cfg, group, r, c)
         && MakesAt(cfg, t, c)
  }

  lemma {:induction false} ShortfallIff(reached: string -> bool, t: ConversationType, required: string,
      at: seq<string>, p: Problem)
    ensures p in Shortfalls(reached, t, required, at) <==>
      p.NotReached? && p.key == t.key && p.group == t.group && p.required == required && p.at in at && !reached(p.at)
  {
    if at != [] {
      ShortfallIff(reached, t, required, at[..|at| - 1], p);
      assert at == at[..|at| - 1] + [at[|at| - 1]];
    }
  }

  lemma RequiredGrants(cfg: Config, r: string, c: string)
    requires WellFormed(cfg) && r in Declared(cfg)
    ensures Reaches(cfg, r, c) <==> !(forall d :: d in cfg.classifications && d.value == r ==> c !in d.grants)
  {
    var own := DeclaredAt(cfg, r);
    GrantsOfDeclared(cfg, own);
    assert c in Grants(cfg, r) <==> c in Elems(own.grants);
    forall d | d in cfg.classifications && d.value == r ensures d == own {
      FindDeclared(cfg, d);
      FindDeclared(cfg, own);
    }
  }

  lemma CreatedAtIff(cfg: Config, t: ConversationType, c: string)
    ensures c in CreatedAt(cfg, t) <==>
      if t.classifications.Some? then c in t.classifications.value
      else exists d :: d in cfg.classifications && d.value == c
  {
    if c in Declared(cfg) { assert DeclaredAt(cfg, c).value == c; }
    if d :| d in cfg.classifications && d.value == c { assert Declared(cfg)[PlaceOf(cfg, d)] == c; }
  }

  lemma RequiredDeclared(cfg: Config, group: string)
    requires WellFormed(cfg) && Required(cfg, group).Some?
    ensures Required(cfg, group).value in Declared(cfg)
    ensures group in cfg.membershipGroups && Required(cfg, group).value == cfg.membershipGroups[group] != ""
  {
  }

  lemma ReachedIff(cfg: Config, group: string, c: string)
    requires WellFormed(cfg) && Required(cfg, group).Some?
    ensures var r := Required(cfg, group).value;
            FallsShort(cfg, group, r, c) <==> !ReachedFrom(cfg, r)(c)
  {
    RequiredDeclared(cfg, group);
    RequiredGrants(cfg, Required(cfg, group).value, c);
  }

  lemma ShortNotReached(cfg: Config, t: ConversationType, p: Problem)
    requires WellFormed(cfg) && Required(cfg, t.group).Some?
    requires p.NotReached? && p.key == t.key && p.group == t.group && p.required == Required(cfg, t.group).value
    ensures p in Shortfalls(ReachedFrom(cfg, p.required), t, p.required, CreatedAt(cfg, t)) <==>
      FallsShort(cfg, t.group, p.required, p.at) && MakesAt(cfg, t, p.at)
  {
    ShortfallIff(ReachedFrom(cfg, p.required), t, p.required, CreatedAt(cfg, t), p);
    CreatedAtIff(cfg, t, p.at);
    ReachedIff(cfg, t.group, p.at);
  }

  lemma RequiredIs(cfg: Config, t: ConversationType, p: Problem)
    requires WellFormed(cfg) && Required(cfg, t.group).Some? && Reported(cfg, t, p) && !Clears(cfg, t.group)
    ensures p.NotReached? && p.key == t.key && p.group == t.group && p.required == Required(cfg, t.group).value
    ensures FallsShort(cfg, t.group, p.required, p.at) && MakesAt(cfg, t, p.at)
  {
  }

  /**
   * Of a type whose group requires something and clears for nothing, what is reported is what the group falls short of.
   */
  lemma ShortProblemIff(cfg: Config, t: ConversationType, p: Problem)
    requires WellFormed(cfg) && t.group != "" && NamesDeclared(cfg, t) && !Clears(cfg, t.group)
    requires Required(cfg, t.group).Some?
    ensures var r := Required(cfg, t.group).value;
            p in Shortfalls(ReachedFrom(cfg, r), t, r, CreatedAt(cfg, t)) <==> Reported(cfg, t, p)
  {
    var r := Required(cfg, t.group).value;
    if p in Shortfalls(ReachedFrom(cfg, r), t, r, CreatedAt(cfg, t)) {
      ShortfallIff(ReachedFrom(cfg, r), t, r, CreatedAt(cfg, t), p);
      ShortNotReached(cfg, t, p);
    }
    if Reported(cfg, t, p) {
      RequiredIs(cfg, t, p);
      ShortNotReached(cfg, t, p);
    }
  }

  lemma ProblemIff(cfg: Config, t: ConversationType, p: Problem)
    requires WellFormed(cfg)
    ensures p in TypeProblems(cfg, t) <==> Reported(cfg, t, p)
  {
    ServedIff(cfg, t);
    ClearsIff(cfg, t.group);
    if t.group != "" && NamesDeclared(cfg, t) && !Clears(cfg, t.group) && Required(cfg, t.group).Some? {
      ShortProblemIff(cfg, t, p);
    }
  }

  lemma ClearsIff(cfg: Config, group: string)
    ensures Lookup(cfg.groupClearance, group).Some? <==> Clears(cfg, group)
  {
  }

  /** WHAT THE CHECK REPORTS: of each type, exactly what is wrong with it, in declared groups, grants and values. */
  lemma {:induction false} ReportedIff(cfg: Config, types: seq<ConversationType>, p: Problem)
    requires WellFormed(cfg)
    ensures p in Contradictions(cfg, types) <==> exists t :: t in types && Reported(cfg, t, p)
  {
    if types != [] {
      var rest, last := types[..|types| - 1], types[|types| - 1];
      ReportedIff(cfg, rest, p);
      ProblemIff(cfg, last, p);
      assert types == rest + [last];
      assert forall t :: t in types <==> t in rest || t == last;
    }
  }

  // ---------------------------------------------------------------- what the check promises

  /** May a person in `groups` be in this membership group? */
  predicate MeetsMembershipRequirement(cfg: Config, groups: seq<string>, group: string) {
    var required := Required(cfg, group);
    required.Some? && HolderReaches(cfg, HolderForGroups(cfg, groups), required.value)
  }

  /** Whoever the type's group may hold reaches every classification the type is created at. */
  predicate SoundFor(cfg: Config, t: ConversationType, groups: seq<string>) {
    t.group != "" && TypeIsServed(cfg, t) && MeetsMembershipRequirement(cfg, groups, t.group) ==>
      forall c :: c in CreatedAt(cfg, t) ==> HolderReaches(cfg, HolderForGroups(cfg, groups), c)
  }

  /** Whatever types a deployment without contradictions declares, and whatever groups a person is in. */
  ghost predicate Sound(cfg: Config) {
    forall types, t, groups :: Contradictions(cfg, types) == [] && t in types ==> SoundFor(cfg, t, groups)
  }

  predicate ClosedFor(cfg: Config, clearance: string, m: string)
    requires m in cfg.membershipGroups
  {
    var required := cfg.membershipGroups[m];
    required != "" && required in Grants(cfg, clearance) ==> Grants(cfg, required) <= Grants(cfg, clearance)
  }

  /** Where a clearance reaches what a membership group requires, it reaches everything that reaches. */
  predicate RequirementsClosed(cfg: Config) {
    forall e, m :: e in cfg.groupClearance && m in cfg.membershipGroups && m != "" ==> ClosedFor(cfg, e.1, m)
  }

  predicate GrantsTransitive(cfg: Config) {
    forall v, g :: v in Declared(cfg) && g in Grants(cfg, v) ==> Grants(cfg, g) <= Grants(cfg, v)
  }

  lemma {:induction false} NoTypeProblems(cfg: Config, types: seq<ConversationType>, t: ConversationType)
    requires Contradictions(cfg, types) == [] && t in types
    ensures TypeProblems(cfg, t) == []
  {
    if t != types[|types| - 1] {
      assert types == types[..|types| - 1] + [types[|types| - 1]];
      NoTypeProblems(cfg, types[..|types| - 1], t);
    }
  }

  lemma UncontradictedReaches(cfg: Config, t: ConversationType, c: string)
    requires TypeProblems(cfg, t) == [] && t.group != "" && TypeIsServed(cfg, t) && c in CreatedAt(cfg, t)
    ensures Required(cfg, t.group).Some? && Reaches(cfg, Required(cfg, t.group).value, c)
  {
    NoShortfalls(ReachedFrom(cfg, Required(cfg, t.group).value), t, Required(cfg, t.group).value, CreatedAt(cfg, t));
  }

  /** A holder who reaches what a group requires reaches everything the requirement reaches. */
  lemma HolderReachesThrough(cfg: Config, groups: seq<string>, m: string, c: string)
    requires WellFormed(cfg) && RepeatFree(cfg) && RequirementsClosed(cfg)
    requires m != "" && MeetsMembershipRequirement(cfg, groups, m) && c in Grants(cfg, Required(cfg, m).value)
    ensures HolderReaches(cfg, HolderForGroups(cfg, groups), c)
  {
    var r := Required(cfg, m).value;
    RepeatFreeClear(cfg, groups);
    ReachFormulaIff(cfg, groups);
    assert r in Elems(ReachOf(cfg, HolderForGroups(cfg, groups)));
    if r in PlaneReach(cfg, groups) {
      PlaneValuesArePlanes(cfg, r);
      OwnGrants(cfg, r);
    } else {
      var held := MembersHeld(cfg, groups);
      UnionMember(cfg, held, r);
      var v :| v in held && r in Grants(cfg, v);
      ClearanceElems(cfg, groups);
      HeldExactly(cfg, groups, v);
      var g :| g in groups && Lookup(cfg.groupClearance, g) == Some(v);
      assert (g, v) in cfg.groupClearance;
      UnionMember(cfg, held, c);
    }
    assert c in Elems(ReachOf(cfg, HolderForGroups(cfg, groups)));
  }

  lemma ClosedIsSound(cfg: Config, types: seq<ConversationType>, t: ConversationType, groups: seq<string>)
    requires WellFormed(cfg) && RepeatFree(cfg) && RequirementsClosed(cfg)
    requires Contradictions(cfg, types) == [] && t in types
    ensures SoundFor(cfg, t, groups)
  {
    NoTypeProblems(cfg, types, t);
    if t.group != "" && TypeIsServed(cfg, t) && MeetsMembershipRequirement(cfg, groups, t.group) {
      forall c | c in CreatedAt(cfg, t) ensures HolderReaches(cfg, HolderForGroups(cfg, groups), c) {
        UncontradictedReaches(cfg, t, c);
        HolderReachesThrough(cfg, groups, t.group, c);
      }
    }
  }

  /** A person in one clearance group, clearing for a member classification, reaches what it grants and no more. */
  lemma OneGroupReach(cfg: Config, e: (string, string))
    requires WellFormed(cfg) && RepeatFree(cfg) && e in cfg.groupClearance && !IsPlane(cfg, e.1)
    ensures Elems(ReachOf(cfg, HolderForGroups(cfg, [e.0]))) == Grants(cfg, e.1)
  {
    OneGroupClears(cfg, e);
    OneHeld(cfg, DeclaredAt(cfg, e.1));
    RepeatFreeClear(cfg, [e.0]);
    ReachFormulaIff(cfg, [e.0]);
  }

  lemma OneGroupClears(cfg: Config, e: (string, string))
    requires WellFormed(cfg) && e in cfg.groupClearance && !IsPlane(cfg, e.1)
    ensures MembersHeld(cfg, [e.0]) == [e.1] && PlanesHeld(cfg, [e.0]) == []
  {
    OneGroupHeld(cfg, e);
    OneValue(cfg, e.1);
  }

  lemma OneValue(cfg: Config, v: string)
    requires !IsPlane(cfg, v)
    ensures Members(cfg, [v]) == [v] && Planes(cfg, [v]) == []
    ensures Sort(ByIndex(Declared(cfg)), [v]) == [v]
  {
    FilterAll(v => !IsPlane(cfg, v), [v]);
    FilterNone(v => IsPlane(cfg, v), [v]);
  }

  lemma OneGroupHeld(cfg: Config, e: (string, string))
    requires WellFormed(cfg) && e in cfg.groupClearance
    ensures Held(cfg, [e.0]) == [e.1]
  {
    LookupEntry(cfg.groupClearance, e);
    assert [e.0][..0] == [] && Held(cfg, []) == [];
  }

  lemma LookupEntry(entries: Entries, e: (string, string))
    requires e in entries
    requires forall i, j :: 0 <= i < j < |entries| ==> entries[i].0 != entries[j].0
    ensures Lookup(entries, e.0) == Some(e.1)
  {
    var found := Lookup(entries, e.0);
    var i :| 0 <= i < |entries| && entries[i] == e;
    var j :| 0 <= j < |entries| && entries[j] == (e.0, found.value);
    assert i == j;
  }

  /** A requirement that is not closed has a type without contradictions whose people do not all reach it. */
  lemma UnclosedIsUnsound(cfg: Config, e: (string, string), m: string, c: string)
    requires WellFormed(cfg) && RepeatFree(cfg) && e in cfg.groupClearance
    requires m in cfg.membershipGroups && m != "" && cfg.membershipGroups[m] != ""
    requires cfg.membershipGroups[m] in Grants(cfg, e.1)
    requires c in Grants(cfg, cfg.membershipGroups[m]) && c !in Grants(cfg, e.1)
    ensures !Sound(cfg)
  {
    var r := cfg.membershipGroups[m];
    RequirementOwn(cfg, m);
    UnclosedServed(cfg, m, r, c);
    UnclosedQuiet(cfg, m, r, c);
    UnclosedMember(cfg, e, r, c);
    OneGroupReach(cfg, e);
    UnclosedFallsShort(cfg, m, r, c, [e.0]);
    NotSound(cfg, ConversationType("t", m, Some([r, c])), [e.0]);
  }

  lemma NotSound(cfg: Config, t: ConversationType, groups: seq<string>)
    requires Contradictions(cfg, [t]) == [] && !SoundFor(cfg, t, groups)
    ensures !Sound(cfg)
  {
    assert t in [t];
  }

  lemma RequirementOwn(cfg: Config, m: string)
    requires WellFormed(cfg) && m in cfg.membershipGroups
    ensures cfg.membershipGroups[m] in Declared(cfg)
    ensures cfg.membershipGroups[m] in Grants(cfg, cfg.membershipGroups[m])
  {
    OwnGrants(cfg, cfg.membershipGroups[m]);
  }

  /** An admin plane grants itself alone, so it cannot fall short of a requirement it reaches. */
  lemma UnclosedMember(cfg: Config, e: (string, string), r: string, c: string)
    requires WellFormed(cfg) && e in cfg.groupClearance
    requires r in Grants(cfg, e.1) && c in Grants(cfg, r) && c !in Grants(cfg, e.1)
    ensures !IsPlane(cfg, e.1)
  {
    OwnGrants(cfg, e.1);
  }

  lemma UnclosedServed(cfg: Config, m: string, r: string, c: string)
    requires r in Declared(cfg) && r != ""
    ensures TypeIsServed(cfg, ConversationType("t", m, Some([r, c])))
  {
    var declared := DeclaredAt(cfg, r);
    assert IsKnown(cfg, r) && r in [r, c];
  }

  lemma UnclosedQuiet(cfg: Config, m: string, r: string, c: string)
    requires WellFormed(cfg) && m in cfg.membershipGroups && cfg.membershipGroups[m] == r && r != ""
    requires r in Grants(cfg, r) && c in Grants(cfg, r)
    ensures Contradictions(cfg, [ConversationType("t", m, Some([r, c]))]) == []
  {
    var t := ConversationType("t", m, Some([r, c]));
    NoShortfalls(ReachedFrom(cfg, r), t, r, [r, c]);
    assert TypeProblems(cfg, t) == [];
    assert [t][..0] == [] && Contradictions(cfg, []) == [];
  }

  lemma UnclosedFallsShort(cfg: Config, m: string, r: string, c: string, groups: seq<string>)
    requires m in cfg.membershipGroups && m != "" && cfg.membershipGroups[m] == r && r != ""
    requires TypeIsServed(cfg, ConversationType("t", m, Some([r, c])))
    requires r in Elems(ReachOf(cfg, HolderForGroups(cfg, groups)))
      && c !in Elems(ReachOf(cfg, HolderForGroups(cfg, groups)))
    ensures !SoundFor(cfg, ConversationType("t", m, Some([r, c])), groups)
  {
    assert c in CreatedAt(cfg, ConversationType("t", m, Some([r, c])));
  }

  /**
   * Where no grant list repeats a value, the check's silence promises that whoever a group may hold reaches what its
   * types are created at just when each clearance that reaches a requirement reaches everything the requirement does.
   */
  lemma SoundIffClosed(cfg: Config)
    requires WellFormed(cfg) && RepeatFree(cfg)
    ensures Sound(cfg) <==> RequirementsClosed(cfg)
  {
    if RequirementsClosed(cfg) {
      forall types, t, groups | Contradictions(cfg, types) == [] && t in types ensures SoundFor(cfg, t, groups) {
        ClosedIsSound(cfg, types, t, groups);
      }
    } else {
      var e, m :| e in cfg.groupClearance && m in cfg.membershipGroups && m != "" && !ClosedFor(cfg, e.1, m);
      var c :| c in Grants(cfg, cfg.membershipGroups[m]) && c !in Grants(cfg, e.1);
      UnclosedIsUnsound(cfg, e, m, c);
    }
  }

  lemma TokenIsDeclared(cfg: Config, groups: seq<string>)
    ensures var token := HolderForGroups(cfg, groups).token; token.Some? ==> token.value in Declared(cfg)
  {
    if MembersHeld(cfg, groups) == [] {
      if PlanesHeld(cfg, groups) != [] {
        assert PlanesHeld(cfg, groups)[0] in PlanesHeld(cfg, groups);
        HeldIsDeclared(cfg, groups, PlanesHeld(cfg, groups)[0]);
      }
    } else if TokenForUnion(cfg, MembersHeld(cfg, groups)).Some? {
      var c :| c in cfg.classifications && c.value == TokenForUnion(cfg, MembersHeld(cfg, groups)).value;
      assert Declared(cfg)[PlaceOf(cfg, c)] == c.value;
    }
  }

  // ---------------------------------------------------------------- on any valid set

  /** What these groups' token reaches of a requirement, it reaches all of. */
  predicate TokenClosed(cfg: Config, groups: seq<string>) {
    var token := HolderForGroups(cfg, groups).token;
    token.Some? ==> forall m :: m in cfg.membershipGroups && m != "" ==> ClosedFor(cfg, token.value, m)
  }

  lemma ClosedTokenReaches(cfg: Config, groups: seq<string>, m: string, c: string)
    requires WellFormed(cfg) && TokenClosed(cfg, groups)
    requires m != "" && MeetsMembershipRequirement(cfg, groups, m) && c in Grants(cfg, Required(cfg, m).value)
    ensures HolderReaches(cfg, HolderForGroups(cfg, groups), c)
  {
    var r, holder := Required(cfg, m).value, HolderForGroups(cfg, groups);
    ReachElems(cfg, holder);
    assert r in Elems(ReachOf(cfg, holder));
    if !(holder.token.Some? && r in Grants(cfg, holder.token.value)) {
      PlaneValuesArePlanes(cfg, r);
      PlaneIsDeclared(cfg, r);
      OwnGrants(cfg, r);
    }
    assert c in Elems(ReachOf(cfg, holder));
  }

  lemma TokenClosedIsSound(cfg: Config, types: seq<ConversationType>, t: ConversationType, groups: seq<string>)
    requires WellFormed(cfg) && TokenClosed(cfg, groups)
    requires Contradictions(cfg, types) == [] && t in types
    ensures SoundFor(cfg, t, groups)
  {
    NoTypeProblems(cfg, types, t);
    if t.group != "" && TypeIsServed(cfg, t) && MeetsMembershipRequirement(cfg, groups, t.group) {
      forall c | c in CreatedAt(cfg, t) ensures HolderReaches(cfg, HolderForGroups(cfg, groups), c) {
        UncontradictedReaches(cfg, t, c);
        ClosedTokenReaches(cfg, groups, t.group, c);
      }
    }
  }

  /** What a token's grants lack of a requirement they hold, no plane held beside it makes up. */
  lemma UnclosedUnreached(cfg: Config, groups: seq<string>, r: string, c: string)
    requires WellFormed(cfg) && HolderForGroups(cfg, groups).token.Some? && r in Declared(cfg)
    requires r in Grants(cfg, HolderForGroups(cfg, groups).token.value) && c in Grants(cfg, r)
    requires c !in Grants(cfg, HolderForGroups(cfg, groups).token.value)
    ensures r in Elems(ReachOf(cfg, HolderForGroups(cfg, groups)))
    ensures c !in Elems(ReachOf(cfg, HolderForGroups(cfg, groups)))
  {
    var holder := HolderForGroups(cfg, groups);
    TokenIsDeclared(cfg, groups);
    OwnGrants(cfg, holder.token.value);
    OwnGrants(cfg, r);
    PlaneValuesArePlanes(cfg, c);
    ReachElems(cfg, holder);
  }

  lemma UnclosedTokenUnsound(cfg: Config, groups: seq<string>, m: string)
    requires WellFormed(cfg) && HolderForGroups(cfg, groups).token.Some?
    requires m in cfg.membershipGroups && m != "" && !ClosedFor(cfg, HolderForGroups(cfg, groups).token.value, m)
    ensures !Sound(cfg)
  {
    var r, token := cfg.membershipGroups[m], HolderForGroups(cfg, groups).token.value;
    var c :| c in Grants(cfg, r) && c !in Grants(cfg, token);
    RequirementOwn(cfg, m);
    UnclosedUnreached(cfg, groups, r, c);
    UnclosedServed(cfg, m, r, c);
    UnclosedQuiet(cfg, m, r, c);
    UnclosedFallsShort(cfg, m, r, c, groups);
    NotSound(cfg, ConversationType("t", m, Some([r, c])), groups);
  }

  /**
   * TYPE GROUPS ARE SOUND, EXACTLY WHEN TOKENS ARE CLOSED. On any valid set, the check's silence promises that whoever
   * a group may hold reaches what its types are created at just when every token a person may carry, where it reaches a
   * requirement, reaches everything the requirement does.
   */
  lemma SoundIffTokensClosed(cfg: Config)
    requires WellFormed(cfg)
    ensures Sound(cfg) <==> forall groups :: TokenClosed(cfg, groups)
  {
    if forall groups :: TokenClosed(cfg, groups) {
      forall types, t, groups | Contradictions(cfg, types) == [] && t in types ensures SoundFor(cfg, t, groups) {
        TokenClosedIsSound(cfg, types, t, groups);
      }
    } else {
      var groups :| !TokenClosed(cfg, groups);
      var m :| m in cfg.membershipGroups && m != "" && !ClosedFor(cfg, HolderForGroups(cfg, groups).token.value, m);
      UnclosedTokenUnsound(cfg, groups, m);
    }
  }

  /**
   * With transitive grants a holder who reaches a classification reaches everything it grants, whatever the lists
   * repeat.
   */
  lemma TransitiveReaches(cfg: Config, groups: seq<string>, r: string, c: string)
    requires WellFormed(cfg) && GrantsTransitive(cfg)
    requires HolderReaches(cfg, HolderForGroups(cfg, groups), r) && c in Grants(cfg, r)
    ensures HolderReaches(cfg, HolderForGroups(cfg, groups), c)
  {
    var holder := HolderForGroups(cfg, groups);
    ReachElems(cfg, holder);
    assert r in Elems(ReachOf(cfg, holder));
    TokenIsDeclared(cfg, groups);
    if !(holder.token.Some? && r in Grants(cfg, holder.token.value)) {
      PlaneValuesArePlanes(cfg, r);
      PlaneIsDeclared(cfg, r);
      OwnGrants(cfg, r);
    }
    assert c in Elems(ReachOf(cfg, holder));
  }

  lemma PlaneIsDeclared(cfg: Config, v: string)
    requires IsPlane(cfg, v)
    ensures v in Declared(cfg)
  {
    var c := Find(cfg.classifications, v).value;
    assert Declared(cfg)[PlaceOf(cfg, c)] == v;
  }

  /** Transitive grants are enough, whatever the grant lists repeat. */
  lemma TransitiveIsSound(cfg: Config)
    requires WellFormed(cfg) && GrantsTransitive(cfg)
    ensures Sound(cfg)
  {
    forall types, t, groups | Contradictions(cfg, types) == [] && t in types ensures SoundFor(cfg, t, groups) {
      TransitiveSoundFor(cfg, types, t, groups);
    }
  }

  lemma TransitiveSoundFor(cfg: Config, types: seq<ConversationType>, t: ConversationType, groups: seq<string>)
    requires WellFormed(cfg) && GrantsTransitive(cfg)
    requires Contradictions(cfg, types) == [] && t in types
    ensures SoundFor(cfg, t, groups)
  {
    NoTypeProblems(cfg, types, t);
    if t.group != "" && TypeIsServed(cfg, t) && MeetsMembershipRequirement(cfg, groups, t.group) {
      forall c | c in CreatedAt(cfg, t) ensures HolderReaches(cfg, HolderForGroups(cfg, groups), c) {
        UncontradictedReaches(cfg, t, c);
        TransitiveReaches(cfg, groups, Required(cfg, t.group).value, c);
      }
    }
  }
}
