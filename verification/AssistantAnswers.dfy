/**
 * What the registry's name inverses answer, in the profiles, roles and values a deployment declares
 * (backend/lib/profile-registry.ts).
 */
module AssistantAnswers {
  import opened Prelude
  import opened Registry
  import opened AssistantNames

  /** A role the classification instantiates: one it declares, or `primary`. */
  predicate HasRole(c: Classification, role: string) {
    role == "primary" || role in c.roles
  }

  lemma RolesIff(cfg: Config, c: Classification, role: string)
    requires WellFormed(cfg) && c in cfg.classifications
    ensures role in RolesFor(cfg, c.value) <==> HasRole(c, role)
  {
    FindDeclared(cfg, c);
  }

  /** Every assignment, and nothing else: a declared classification with one of its roles. */
  lemma AssignmentsIff(cfg: Config, p: Assignment)
    requires WellFormed(cfg)
    ensures p in Assignments(cfg) <==> exists c :: c in cfg.classifications && c.value == p.0 && HasRole(c, p.1)
  {
    PairOf(cfg, Declared(cfg), p);
    if p in Assignments(cfg) { RolesIff(cfg, DeclaredAt(cfg, p.0), p.1); }
    if c :| c in cfg.classifications && c.value == p.0 && HasRole(c, p.1) {
      assert Declared(cfg)[PlaceOf(cfg, c)] == c.value;
      RolesIff(cfg, c, p.1);
    }
  }

  // ---------------------------------------------------------------- the names

  /** A role's assistant: a primary's profile, a composed name for a declared role, and none for any other. */
  lemma RoleNameIs(cfg: Config, c: Classification, role: string)
    requires WellFormed(cfg) && c in cfg.classifications
    ensures RoleAssistantName(cfg, c.value, role) ==
            if role == "primary" then Some(c.profile)
            else if role in c.roles then Some(role + "-" + c.value) else None
  {
    FindDeclared(cfg, c);
    RolesIff(cfg, c, role);
  }

  /** A role's alt, whether the classification is named by its value or an alias of it. */
  lemma AltNameIs(cfg: Config, c: Classification, tag: string, role: string)
    requires WellFormed(cfg) && c in cfg.classifications && (tag == c.value || tag in c.aliases)
    ensures AltAssistantName(cfg, tag, role) ==
            if HasRole(c, role) then Some("alt-" + role + "-" + c.value) else None
  {
    ResolveIs(cfg, c, tag);
    RolesIff(cfg, c, role);
  }

  // ---------------------------------------------------------------- the inverses

  /** The first classification declared with this profile. */
  predicate FirstWithProfile(cfg: Config, name: string, i: nat) {
    && i < |cfg.classifications| && cfg.classifications[i].profile == name
    && forall k :: 0 <= k < i ==> cfg.classifications[k].profile != name
  }

  predicate IsPrimary(cfg: Config, name: string) {
    exists c :: c in cfg.classifications && c.profile == name
  }

  lemma {:induction false} FirstPlace(cs: seq<Classification>, name: string) returns (i: nat)
    ensures FirstServing(cs, name).Some? ==>
      && i < |cs| && cs[i].profile == name && FirstServing(cs, name) == Some(cs[i].value)
      && forall k :: 0 <= k < i ==> cs[k].profile != name
  {
    i := 0;
    if cs != [] && cs[0].profile != name {
      var k := FirstPlace(cs[1..], name);
      i := k + 1;
    }
  }

  /** A primary's name, and no other, is answered: with the first classification it is the profile of. */
  lemma PrimaryAnswers(cfg: Config, name: string) returns (i: nat)
    ensures ClassificationFor(cfg, name).Some? <==> name != "" && IsPrimary(cfg, name)
    ensures ClassificationFor(cfg, name).Some? ==>
      FirstWithProfile(cfg, name, i) && ClassificationFor(cfg, name) == Some(cfg.classifications[i].value)
  {
    i := FirstPlace(cfg.classifications, name);
  }

  lemma AloneIff(p: Assignment -> bool, all: seq<Assignment>, q: Assignment)
    ensures OnlyMatch(Filter(p, all)) == Some(q) <==> exists i :: 0 <= i < |all| && Alone(p, all, i) && all[i] == q
  {
    if OnlyMatch(Filter(p, all)) == Some(q) {
      var i := FilterPlace(p, all);
      AloneFilters(p, all, i);
    }
    if i :| 0 <= i < |all| && Alone(p, all, i) && all[i] == q { AloneFilters(p, all, i); }
  }

  /** The place alone composes the name as its alt's; or, not a primary's, as its assistant's. */
  predicate AltAlone(cfg: Config, name: string, i: nat)
    requires i < |Assignments(cfg)|
  {
    AltOf(Assignments(cfg)[i]) == name
    && forall k :: 0 <= k < |Assignments(cfg)| && k != i ==> AltOf(Assignments(cfg)[k]) != name
  }

  predicate ActsNamed(p: Assignment, name: string) {
    p.1 != "primary" && p.1 + "-" + p.0 == name
  }

  predicate RoleAlone(cfg: Config, name: string, i: nat)
    requires i < |Assignments(cfg)|
  {
    ActsNamed(Assignments(cfg)[i], name)
    && forall k :: 0 <= k < |Assignments(cfg)| && k != i ==> !ActsNamed(Assignments(cfg)[k], name)
  }

  /** An alt's inverse answers `q` exactly where `q` stands at the one place that composes the name. */
  lemma AltAnswerIff(cfg: Config, name: string, q: Assignment)
    ensures RoleOfAlt(cfg, name) == Some(q) <==>
      exists i :: 0 <= i < |Assignments(cfg)| && AltAlone(cfg, name, i) && Assignments(cfg)[i] == q
  {
    AltMatchesByName(cfg, name);
    AloneIff(NamedAlt(name), Assignments(cfg), q);
    if i :| 0 <= i < |Assignments(cfg)| && AltAlone(cfg, name, i) && Assignments(cfg)[i] == q {
      AltPrefix(q);
      assert Alone(NamedAlt(name), Assignments(cfg), i);
    }
    if i :| 0 <= i < |Assignments(cfg)| && Alone(NamedAlt(name), Assignments(cfg), i) && Assignments(cfg)[i] == q {
      assert AltAlone(cfg, name, i);
    }
  }

  /** A role's inverse answers a primary with its classification, and any other with the one place that composes it. */
  lemma RoleAnswerIff(cfg: Config, name: string, q: Assignment)
    requires name != ""
    ensures !IsPrimary(cfg, name) ==>
      (RoleOfAssistant(cfg, name) == Some(q) <==>
        exists i :: 0 <= i < |Assignments(cfg)| && RoleAlone(cfg, name, i) && Assignments(cfg)[i] == q)
    ensures IsPrimary(cfg, name) ==>
      (RoleOfAssistant(cfg, name) == Some(q) <==>
        q.1 == "primary" && exists i ::
          0 <= i < |cfg.classifications| && FirstWithProfile(cfg, name, i) && cfg.classifications[i].value == q.0)
  {
    var first := PrimaryAnswers(cfg, name);
    if IsPrimary(cfg, name) {
      OneFirst(cfg, name, first);
    } else {
      PlaceAnswers(cfg, name, q);
    }
  }

  lemma OneFirst(cfg: Config, name: string, first: nat)
    requires FirstWithProfile(cfg, name, first)
    ensures forall i :: 0 <= i < |cfg.classifications| && FirstWithProfile(cfg, name, i) ==> i == first
  {
  }

  lemma PlaceAnswers(cfg: Config, name: string, q: Assignment)
    ensures OnlyMatch(RoleMatches(cfg, name)) == Some(q) <==>
      exists i :: 0 <= i < |Assignments(cfg)| && RoleAlone(cfg, name, i) && Assignments(cfg)[i] == q
  {
    RoleMatchesByName(cfg, name);
    AloneIff(NamedActing(name), Assignments(cfg), q);
    if i :| 0 <= i < |Assignments(cfg)| && RoleAlone(cfg, name, i) && Assignments(cfg)[i] == q {
      assert Alone(NamedActing(name), Assignments(cfg), i);
    }
    if i :| 0 <= i < |Assignments(cfg)| && Alone(NamedActing(name), Assignments(cfg), i) && Assignments(cfg)[i] == q {
      assert RoleAlone(cfg, name, i);
    }
  }

  // ---------------------------------------------------------------- where an assistant acts

  /** Some declared role of the classification composes the name. */
  predicate RoleComposes(c: Classification, name: string) {
    exists role :: role in c.roles && role != "primary" && role + "-" + c.value == name
  }

  predicate AltComposes(c: Classification, name: string) {
    exists role :: role in c.roles + ["primary"] && "alt-" + role + "-" + c.value == name
  }

  /** The classification's is the name: its profile's, a role's assistant's, or a role's alt's. */
  predicate Claims(c: Classification, name: string) {
    c.profile == name || RoleComposes(c, name) || AltComposes(c, name)
  }

  /** The classifications some role of which composes the name. */
  function ActingIn(cfg: Config, name: string): set<string> {
    set c | c in cfg.classifications && RoleComposes(c, name) :: c.value
  }

  lemma ActingPlace(cfg: Config, name: string, v: string)
    requires WellFormed(cfg)
    ensures v in ActingIn(cfg, name) <==> exists p :: p in Assignments(cfg) && ActsNamed(p, name) && p.0 == v
  {
    if c :| c in cfg.classifications && RoleComposes(c, name) && c.value == v {
      var role :| role in c.roles && role != "primary" && role + "-" + c.value == name;
      AssignmentsIff(cfg, (v, role));
      assert ActsNamed((v, role), name);
    }
    if p :| p in Assignments(cfg) && ActsNamed(p, name) && p.0 == v {
      AssignmentsIff(cfg, p);
      var c :| c in cfg.classifications && c.value == p.0 && HasRole(c, p.1);
      assert RoleComposes(c, name);
    }
  }

  lemma InFirsts(all: seq<Assignment>, v: string)
    ensures v in Map((p: Assignment) => p.0, all) <==> exists p :: p in all && p.0 == v
  {
    var values := Map((p: Assignment) => p.0, all);
    if v in values {
      var i :| 0 <= i < |values| && values[i] == v;
      assert all[i] in all;
    }
    if p :| p in all && p.0 == v {
      var i :| 0 <= i < |all| && all[i] == p;
      assert values[i] == v;
    }
  }

  lemma MatchesActing(cfg: Config, name: string, p: Assignment)
    ensures p in RoleMatches(cfg, name) <==> p in Assignments(cfg) && ActsNamed(p, name)
  {
    RoleMatchesByName(cfg, name);
  }

  lemma ActingElems(cfg: Config, name: string, v: string)
    requires WellFormed(cfg)
    ensures v in Map((p: Assignment) => p.0, RoleMatches(cfg, name)) <==> v in ActingIn(cfg, name)
  {
    ActingPlace(cfg, name, v);
    InFirsts(RoleMatches(cfg, name), v);
    forall p ensures p in RoleMatches(cfg, name) <==> p in Assignments(cfg) && ActsNamed(p, name) {
      MatchesActing(cfg, name, p);
    }
  }

  lemma {:induction false} DedupOnce(s: seq<string>)
    ensures |Dedup(s)| == |Elems(s)|
  {
    if s != [] {
      var rest, last := s[..|s| - 1], s[|s| - 1];
      DedupOnce(rest);
      assert Elems(s) == Elems(rest) + {last};
      assert last in Dedup(rest) <==> last in Elems(Dedup(rest));
    }
  }

  lemma OneIn(s: set<string>, x: string)
    requires x in s
    ensures |s| == 1 <==> s == {x}
  {
    assert s == (s - {x}) + {x};
    assert |s| == |s - {x}| + 1;
  }

  lemma DedupOne(s: seq<string>, v: string)
    ensures (|Dedup(s)| == 1 && Dedup(s)[0] == v) <==> Elems(s) == {v}
  {
    DedupOnce(s);
    if |Dedup(s)| == 1 {
      assert Dedup(s)[0] in Elems(Dedup(s));
      OneIn(Elems(s), Dedup(s)[0]);
      assert Dedup(s)[0] in {v} <==> Dedup(s)[0] == v;
    }
    if Elems(s) == {v} {
      assert |Dedup(s)| == 1;
      assert Dedup(s)[0] in Elems(Dedup(s));
    }
  }

  /** A primary's: it acts in the first classification it is the profile of. */
  lemma PrimaryActs(cfg: Config, name: string, i: nat)
    requires name != "" && FirstWithProfile(cfg, name, i)
    ensures ClassificationOfAssistant(cfg, name) == Some(cfg.classifications[i].value)
  {
    assert cfg.classifications[i] in cfg.classifications;
    var first := PrimaryAnswers(cfg, name);
    OneFirst(cfg, name, first);
  }

  /** No primary's, and an alt's that one place alone composes: it acts in that place's classification. */
  lemma AltActs(cfg: Config, name: string, i: nat)
    requires WellFormed(cfg) && i < |Assignments(cfg)| && AltAlone(cfg, name, i)
    ensures ClassificationOfAssistant(cfg, name) == Some(Assignments(cfg)[i].0)
  {
    AltPrefix(Assignments(cfg)[i]);
    NoPrimaryIsAlt(cfg, name);
    AltAnswerIff(cfg, name, Assignments(cfg)[i]);
  }

  /**
   * NEITHER: it acts in `v` exactly where the roles that compose it are all `v`'s, and some is; so a name nothing
   * composes is answered with nothing.
   */
  lemma RoleActsIff(cfg: Config, name: string, v: string)
    requires WellFormed(cfg) && name != "" && !IsPrimary(cfg, name)
    requires forall i :: 0 <= i < |Assignments(cfg)| ==> !AltAlone(cfg, name, i)
    ensures ClassificationOfAssistant(cfg, name) == Some(v) <==> ActingIn(cfg, name) == {v}
  {
    var first := PrimaryAnswers(cfg, name);
    var values := Map((p: Assignment) => p.0, RoleMatches(cfg, name));
    if RoleOfAlt(cfg, name).Some? { AltAnswerIff(cfg, name, RoleOfAlt(cfg, name).value); }
    forall w ensures w in values <==> w in ActingIn(cfg, name) { ActingElems(cfg, name, w); }
    assert Elems(values) == ActingIn(cfg, name);
    DedupOne(values, v);
  }

  /** Whatever is answered is a declared classification, and the name is one of its names. */
  lemma AnswerClaims(cfg: Config, name: string)
    requires WellFormed(cfg) && ClassificationOfAssistant(cfg, name).Some?
    ensures name != ""
    ensures var answer := ClassificationOfAssistant(cfg, name).value;
            exists c :: c in cfg.classifications && c.value == answer && Claims(c, name)
  {
    if i :| 0 <= i < |cfg.classifications| && FirstWithProfile(cfg, name, i) {
      PrimaryActs(cfg, name, i);
      assert cfg.classifications[i] in cfg.classifications && Claims(cfg.classifications[i], name);
    } else if i :| 0 <= i < |Assignments(cfg)| && AltAlone(cfg, name, i) {
      AltActs(cfg, name, i);
      AltClaims(cfg, name, i);
    } else {
      var first := PrimaryAnswers(cfg, name);
      var v := ClassificationOfAssistant(cfg, name).value;
      RoleActsIff(cfg, name, v);
      assert v in ActingIn(cfg, name);
      var c :| c in cfg.classifications && RoleComposes(c, name) && c.value == v;
      assert Claims(c, name);
    }
  }

  lemma AltClaims(cfg: Config, name: string, i: nat)
    requires WellFormed(cfg) && i < |Assignments(cfg)| && AltAlone(cfg, name, i)
    ensures exists c :: c in cfg.classifications && c.value == Assignments(cfg)[i].0 && Claims(c, name)
  {
    var p := Assignments(cfg)[i];
    assert p in Assignments(cfg);
    AssignmentsIff(cfg, p);
    var c :| c in cfg.classifications && c.value == p.0 && HasRole(c, p.1);
    assert p.1 in c.roles + ["primary"];
    assert AltComposes(c, name);
  }

  predicate Composes(p: Assignment, name: string) {
    ActsNamed(p, name) || "alt-" + p.1 + "-" + p.0 == name
  }

  /**
   * ONE PLACE'S NAME IS ITS OWN. No primary's, and composed at one place alone: it acts in that place's classification.
   */
  lemma OnlyComposerActs(cfg: Config, name: string, i: nat)
    requires WellFormed(cfg) && !IsPrimary(cfg, name) && i < |Assignments(cfg)| && Composes(Assignments(cfg)[i], name)
    requires forall k :: 0 <= k < |Assignments(cfg)| && k != i ==> !Composes(Assignments(cfg)[k], name)
    ensures ClassificationOfAssistant(cfg, name) == Some(Assignments(cfg)[i].0)
  {
    var p := Assignments(cfg)[i];
    assert AltOf(p) == "alt-" + p.1 + "-" + p.0;
    if AltOf(p) == name {
      assert AltAlone(cfg, name, i);
      AltActs(cfg, name, i);
    } else {
      RoleActsIff(cfg, name, p.0);
      OnlyActing(cfg, name, i);
    }
  }

  lemma OnlyActing(cfg: Config, name: string, i: nat)
    requires WellFormed(cfg) && i < |Assignments(cfg)| && ActsNamed(Assignments(cfg)[i], name)
    requires forall k :: 0 <= k < |Assignments(cfg)| && k != i ==> !ActsNamed(Assignments(cfg)[k], name)
    ensures ActingIn(cfg, name) == {Assignments(cfg)[i].0}
  {
    forall v ensures v in ActingIn(cfg, name) <==> v == Assignments(cfg)[i].0 {
      ActingPlace(cfg, name, v);
      assert Assignments(cfg)[i] in Assignments(cfg);
    }
  }

  /** A name nothing composes is answered with nothing. */
  lemma UnclaimedActsNowhere(cfg: Config, name: string)
    requires WellFormed(cfg) && forall c :: c in cfg.classifications ==> !Claims(c, name)
    ensures ClassificationOfAssistant(cfg, name) == None
  {
    if ClassificationOfAssistant(cfg, name).Some? { AnswerClaims(cfg, name); }
  }

  // ---------------------------------------------------------------- reserved names

  /** Reserved: the empty name, an alt's prefix, a value, a profile, and a name some role composes; and nothing else. */
  lemma ReservedIff(cfg: Config, name: string)
    requires WellFormed(cfg)
    ensures IsReserved(cfg, name) <==>
      || name == "" || "alt-" <= name || name in cfg.profiles
      || exists c :: c in cfg.classifications && (c.value == name || RoleComposes(c, name))
  {
    if name in Declared(cfg) { assert DeclaredAt(cfg, name).value == name; }
    if p :| p in Assignments(cfg) && p.1 != PRIMARY && p.1 + "-" + p.0 == name {
      assert ActsNamed(p, name);
      ActingPlace(cfg, name, p.0);
    }
    if c :| c in cfg.classifications && (c.value == name || RoleComposes(c, name)) {
      assert Declared(cfg)[PlaceOf(cfg, c)] == c.value;
      if RoleComposes(c, name) {
        ActingPlace(cfg, name, c.value);
        assert c.value in ActingIn(cfg, name);
      }
    }
  }
}
