/**
 * Assistant names composed from a role and a classification, and their inverses (backend/lib/profile-registry.ts).
 */
module AssistantNames {
  import opened Prelude
  import opened Sorting
  import opened Registry

  type Assignment = (string, string)

  const PRIMARY := "primary"

  /** The roles a classification instantiates, `primary` always among them. */
  function RolesFor(cfg: Config, tag: string): seq<string> {
    var resolved := Resolve(cfg, tag);
    var c := if resolved.Some? then Find(cfg.classifications, resolved.value) else None;
    var declared := if c.Some? && c.value.roles != [] then c.value.roles else [PRIMARY];
    if PRIMARY in declared then declared else [PRIMARY] + declared
  }

  /** The profile a classification names, declared or not. */
  function ProfileFor(cfg: Config, value: string): Option<string> {
    var c := Find(cfg.classifications, value);
    if c.Some? then Some(c.value.profile) else None
  }

  function FirstServing(cs: seq<Classification>, name: string): (r: Option<string>)
    ensures r.Some? ==> exists c :: c in cs && c.value == r.value && c.profile == name
    ensures r.None? ==> forall c :: c in cs ==> c.profile != name
  {
    if cs == [] then None else if cs[0].profile == name then Some(cs[0].value) else FirstServing(cs[1..], name)
  }

  /** The classification whose primary assistant has this name. */
  function ClassificationFor(cfg: Config, name: string): Option<string> {
    if name == "" then None else FirstServing(cfg.classifications, name)
  }

  function RoleAssistantName(cfg: Config, tag: string, role: string): Option<string> {
    if role == PRIMARY then ProfileFor(cfg, tag)
    else if role in RolesFor(cfg, tag) then Some(role + "-" + tag) else None
  }

  function AltAssistantName(cfg: Config, tag: string, role: string): Option<string> {
    var resolved := Resolve(cfg, tag);
    if resolved.None? || role !in RolesFor(cfg, resolved.value) then None
    else Some("alt-" + role + "-" + resolved.value)
  }

  // ---------------------------------------------------------------- every declared assignment

  function PairsOf(cfg: Config, values: seq<string>): seq<Assignment> {
    if values == [] then []
    else Map((r: string) => (values[0], r), RolesFor(cfg, values[0])) + PairsOf(cfg, values[1..])
  }

  /** Each declared classification with each of its roles, in declaration order. */
  function Assignments(cfg: Config): seq<Assignment> {
    PairsOf(cfg, Declared(cfg))
  }

  lemma {:induction false} PairOf(cfg: Config, values: seq<string>, p: Assignment)
    ensures p in PairsOf(cfg, values) <==> p.0 in values && p.1 in RolesFor(cfg, p.0)
  {
    if values != [] {
      PairOf(cfg, values[1..], p);
      var roles := RolesFor(cfg, values[0]);
      var head := Map((r: string) => (values[0], r), roles);
      if p in head { var i :| 0 <= i < |head| && head[i] == p; }
      if p.0 == values[0] && p.1 in roles {
        var i :| 0 <= i < |roles| && roles[i] == p.1;
        assert head[i] == p;
      }
    }
  }

  /** The one match, or nothing: two readings of a name are no more correct than each other. */
  function OnlyMatch(matches: seq<Assignment>): Option<Assignment> {
    if |matches| == 1 then Some(matches[0]) else None
  }

  function ComposesAlt(cfg: Config, name: string): Assignment -> bool {
    (p: Assignment) => AltAssistantName(cfg, p.0, p.1) == Some(name)
  }

  function ComposesRole(cfg: Config, name: string): Assignment -> bool {
    (p: Assignment) => p.1 != PRIMARY && RoleAssistantName(cfg, p.0, p.1) == Some(name)
  }

  function AltMatches(cfg: Config, name: string): seq<Assignment> {
    Filter(ComposesAlt(cfg, name), Assignments(cfg))
  }

  function RoleOfAlt(cfg: Config, name: string): Option<Assignment> {
    if "alt-" <= name then OnlyMatch(AltMatches(cfg, name)) else None
  }

  function RoleMatches(cfg: Config, name: string): seq<Assignment> {
    Filter(ComposesRole(cfg, name), Assignments(cfg))
  }

  function RoleOfAssistant(cfg: Config, name: string): Option<Assignment> {
    if name == "" then None
    else
      var primaryOf := ClassificationFor(cfg, name);
      if primaryOf.Some? then Some((primaryOf.value, PRIMARY)) else OnlyMatch(RoleMatches(cfg, name))
  }

  /** The classification an assistant acts in, for any declared assistant. */
  function ClassificationOfAssistant(cfg: Config, name: string): Option<string> {
    if name == "" then None
    else
      var primaryOf := ClassificationFor(cfg, name);
      if primaryOf.Some? then primaryOf
      else
        var alt := RoleOfAlt(cfg, name);
        if alt.Some? then Some(alt.value.0)
        else
          var acting := Dedup(Map((p: Assignment) => p.0, RoleMatches(cfg, name)));
          if |acting| == 1 then Some(acting[0]) else None
  }

  predicate IsReserved(cfg: Config, name: string) {
    || name == ""
    || "alt-" <= name
    || name in Declared(cfg)
    || name in cfg.profiles
    || exists p :: p in Assignments(cfg) && p.1 != PRIMARY && p.1 + "-" + p.0 == name
  }

  lemma ResolveDeclared(cfg: Config, value: string)
    requires value in Declared(cfg)
    ensures Resolve(cfg, value) == Some(value)
  {
    var c := DeclaredAt(cfg, value);
    assert c in cfg.classifications;
  }

  lemma DeclaredAltName(cfg: Config, p: Assignment)
    requires p in Assignments(cfg)
    ensures AltAssistantName(cfg, p.0, p.1) == Some("alt-" + p.1 + "-" + p.0)
  {
    PairOf(cfg, Declared(cfg), p);
    ResolveDeclared(cfg, p.0);
  }

  // ---------------------------------------------------------------- an answer is the answer

  /**
   * EXACTLY ONE OR NONE. An alt name's assignment composes it, and no other declared assignment does.
   */
  lemma AltAnswerIsUnique(cfg: Config, name: string, q: Assignment)
    ensures var p := RoleOfAlt(cfg, name);
            p.Some? ==>
              && p.value in Assignments(cfg) && AltAssistantName(cfg, p.value.0, p.value.1) == Some(name)
              && (q in Assignments(cfg) && AltAssistantName(cfg, q.0, q.1) == Some(name) ==> q == p.value)
  {
    var matches := AltMatches(cfg, name);
    if |matches| == 1 {
      assert matches == [matches[0]];
      assert matches[0] in matches;
      assert q in matches ==> q == matches[0];
    }
  }

  predicate Resolves(cfg: Config, name: string) {
    RoleOfAssistant(cfg, name).Some? || RoleOfAlt(cfg, name).Some? || ClassificationOfAssistant(cfg, name).Some?
  }

  /** Every name the registry resolves to an assistant is reserved. */
  lemma ResolvedNamesAreReserved(cfg: Config, name: string)
    requires WellFormed(cfg)
    ensures Resolves(cfg, name) ==> IsReserved(cfg, name)
  {
    if ClassificationFor(cfg, name).Some? {
      var c :| c in cfg.classifications && c.profile == name;
    } else if Resolves(cfg, name) && RoleOfAlt(cfg, name).None? {
      var matches := RoleMatches(cfg, name);
      assert matches != [];
      var p := matches[0];
      assert p in matches && p in Assignments(cfg);
    }
  }

  // ---------------------------------------------------------------- when the inverses answer

  /** A predicate that holds at one place filters that place out. */
  lemma {:induction false} FilterOne<S(!new)>(p: S -> bool, s: seq<S>, i: nat)
    requires i < |s| && p(s[i])
    requires forall k :: 0 <= k < |s| && k != i ==> !p(s[k])
    ensures Filter(p, s) == [s[i]]
  {
    if i == 0 {
      FilterNone(p, s[1..]);
    } else {
      FilterOne(p, s[1..], i - 1);
    }
  }

  lemma FilterTwo<S(!new)>(p: S -> bool, s: seq<S>, i: nat, j: nat)
    requires i < j < |s| && p(s[i]) && p(s[j])
    ensures |Filter(p, s)| >= 2
  {
    assert s == s[..j] + s[j..];
    FilterConcat(p, s[..j], s[j..]);
    assert s[..j][i] in s[..j] && s[j..][0] in s[j..];
    assert s[i] in Filter(p, s[..j]) && s[j] in Filter(p, s[j..]);
  }

  function AltOf(p: Assignment): string {
    "alt-" + p.1 + "-" + p.0
  }

  function ActingOf(p: Assignment): string {
    p.1 + "-" + p.0
  }

  lemma {:induction false} FilterSame<S(!new)>(p: S -> bool, q: S -> bool, s: seq<S>)
    requires forall x :: x in s ==> p(x) == q(x)
    ensures Filter(p, s) == Filter(q, s)
  {
    if s != [] { FilterSame(p, q, s[1..]); }
  }

  function NamedBy<S, T(==)>(f: S -> T, name: T): S -> bool {
    x => f(x) == name
  }

  function NamedAlt(name: string): Assignment -> bool {
    NamedBy(AltOf, name)
  }

  /** Where no two places share a name, a place's name finds it alone. */
  lemma NamedOnce<S(!new), T(!new)>(f: S -> T, s: seq<S>, i: nat)
    requires Distinct(Map(f, s)) && i < |s|
    ensures Filter(NamedBy(f, f(s[i])), s) == [s[i]]
  {
    var names := Map(f, s);
    forall k | 0 <= k < |s| && k != i ensures f(s[k]) != f(s[i]) { assert names[k] != names[i]; }
    FilterOne(NamedBy(f, f(s[i])), s, i);
  }

  function NamedActing(name: string): Assignment -> bool {
    (p: Assignment) => p.1 != PRIMARY && ActingOf(p) == name
  }

  lemma AltMatchesByName(cfg: Config, name: string)
    ensures AltMatches(cfg, name) == Filter(NamedAlt(name), Assignments(cfg))
  {
    forall p | p in Assignments(cfg)
      ensures AltAssistantName(cfg, p.0, p.1) == Some(AltOf(p))
    {
      DeclaredAltName(cfg, p);
    }
    FilterSame(ComposesAlt(cfg, name), NamedAlt(name), Assignments(cfg));
  }

  /** The inverse of `altAssistantName` answers every alt name the deployment declares. */
  predicate InvertsAlts(cfg: Config) {
    forall i :: 0 <= i < |Assignments(cfg)| ==> RoleOfAlt(cfg, AltOf(Assignments(cfg)[i])) == Some(Assignments(cfg)[i])
  }

  lemma AltPrefix(p: Assignment)
    ensures "alt-" <= AltOf(p)
  {
  }

  /** An alt name's answer is the one place that composes it. */
  lemma AltAnswerByName(cfg: Config, p: Assignment)
    ensures RoleOfAlt(cfg, AltOf(p)) == OnlyMatch(Filter(NamedAlt(AltOf(p)), Assignments(cfg)))
  {
    AltPrefix(p);
    AltMatchesByName(cfg, AltOf(p));
  }

  /** THE INVERSE ANSWERS EVERY ALT NAME, EXACTLY WHEN NO TWO PLACES COMPOSE ONE NAME. */
  lemma InvertsAltsIff(cfg: Config)
    ensures InvertsAlts(cfg) <==> Distinct(Map(AltOf, Assignments(cfg)))
  {
    var all := Assignments(cfg);
    if Distinct(Map(AltOf, all)) {
      forall i | 0 <= i < |all| ensures RoleOfAlt(cfg, AltOf(all[i])) == Some(all[i]) {
        AltAnswerByName(cfg, all[i]);
        NamedOnce(AltOf, all, i);
      }
    } else {
      var i, j :| 0 <= i < j < |all| && AltOf(all[i]) == AltOf(all[j]);
      AltAnswerByName(cfg, all[i]);
      FilterTwo(NamedAlt(AltOf(all[i])), all, i, j);
    }
  }

  // ---------------------------------------------------------------- dash-free values

  predicate DashFree(cfg: Config) {
    forall v :: v in Declared(cfg) ==> '-' !in v
  }

  predicate RolesDistinct(cfg: Config) {
    forall v :: v in Declared(cfg) ==> Distinct(RolesFor(cfg, v))
  }

  /** A name splits at its last dash. */
  lemma SplitsAtLastDash(a: string, c: string, b: string, d: string)
    requires '-' !in c && '-' !in d
    requires a + "-" + c == b + "-" + d
    ensures a == b && c == d
  {
    var s := a + "-" + c;
    assert s[|a|] == '-' && s[|b|] == '-';
    forall k | |a| < k < |s| ensures s[k] != '-' { assert s[k] == c[k - |a| - 1]; }
    forall k | |b| < k < |s| ensures s[k] != '-' { assert s[k] == d[k - |b| - 1]; }
    assert a == s[..|a|] && b == s[..|b|];
    assert c == s[|a| + 1..] && d == s[|b| + 1..];
  }

  lemma {:induction false} PairsDistinct(cfg: Config, values: seq<string>)
    requires Distinct(values)
    requires forall v :: v in values ==> Distinct(RolesFor(cfg, v))
    ensures Distinct(PairsOf(cfg, values))
  {
    if values != [] {
      var roles := RolesFor(cfg, values[0]);
      var head, tail := Map((r: string) => (values[0], r), roles), PairsOf(cfg, values[1..]);
      PairsDistinct(cfg, values[1..]);
      forall i, j | 0 <= i < |head| && 0 <= j < |tail| ensures head[i] != tail[j] {
        PairOf(cfg, values[1..], tail[j]);
        assert tail[j] in tail;
      }
    }
  }

  lemma ActingApart(p: Assignment, q: Assignment)
    requires '-' !in p.0 && '-' !in q.0 && p != q
    ensures ActingOf(p) != ActingOf(q)
  {
    if ActingOf(p) == ActingOf(q) { SplitsAtLastDash(p.1, p.0, q.1, q.0); }
  }

  lemma AltsApart(p: Assignment, q: Assignment)
    requires '-' !in p.0 && '-' !in q.0 && p != q
    ensures AltOf(p) != AltOf(q)
  {
    assert ("alt-" + p.1)[4..] == p.1 && ("alt-" + q.1)[4..] == q.1;
    if AltOf(p) == AltOf(q) { SplitsAtLastDash("alt-" + p.1, p.0, "alt-" + q.1, q.0); }
  }

  lemma AssignmentsApart(cfg: Config, i: nat, j: nat)
    requires Distinct(Declared(cfg)) && DashFree(cfg) && RolesDistinct(cfg)
    requires i < |Assignments(cfg)| && j < |Assignments(cfg)| && i != j
    ensures ActingOf(Assignments(cfg)[i]) != ActingOf(Assignments(cfg)[j])
    ensures AltOf(Assignments(cfg)[i]) != AltOf(Assignments(cfg)[j])
  {
    var p, q := Assignments(cfg)[i], Assignments(cfg)[j];
    PairsDistinct(cfg, Declared(cfg));
    PairOf(cfg, Declared(cfg), p);
    PairOf(cfg, Declared(cfg), q);
    ActingApart(p, q);
    AltsApart(p, q);
  }

  /** NAMES UNDO EACH OTHER. With dash-free values and no role declared twice, the inverse answers every alt name. */
  lemma DashFreeInvertsAlts(cfg: Config)
    requires WellFormed(cfg) && DashFree(cfg) && RolesDistinct(cfg)
    ensures InvertsAlts(cfg)
  {
    forall i, j | 0 <= i < j < |Assignments(cfg)|
      ensures Map(AltOf, Assignments(cfg))[i] != Map(AltOf, Assignments(cfg))[j]
    {
      AssignmentsApart(cfg, i, j);
    }
    InvertsAltsIff(cfg);
  }

  lemma RoleMatchesByName(cfg: Config, name: string)
    ensures RoleMatches(cfg, name) == Filter(NamedActing(name), Assignments(cfg))
  {
    forall p | p in Assignments(cfg) && p.1 != PRIMARY ensures RoleAssistantName(cfg, p.0, p.1) == Some(ActingOf(p)) {
      PairOf(cfg, Declared(cfg), p);
    }
    FilterSame(ComposesRole(cfg, name), NamedActing(name), Assignments(cfg));
  }

  /** A role's assistant is answered by its own name, when that is no primary's. */
  lemma DashFreeInvertsRoles(cfg: Config, p: Assignment)
    requires WellFormed(cfg) && DashFree(cfg) && RolesDistinct(cfg)
    requires p in Assignments(cfg) && p.1 != PRIMARY && ClassificationFor(cfg, ActingOf(p)).None?
    ensures RoleOfAssistant(cfg, ActingOf(p)) == Some(p)
  {
    var all := Assignments(cfg);
    var i :| 0 <= i < |all| && all[i] == p;
    OneActs(cfg, i);
    RoleMatchesByName(cfg, ActingOf(p));
    assert RoleMatches(cfg, ActingOf(p)) == [p];
  }

  lemma OneActs(cfg: Config, i: nat)
    requires Distinct(Declared(cfg)) && DashFree(cfg) && RolesDistinct(cfg)
    requires i < |Assignments(cfg)| && Assignments(cfg)[i].1 != PRIMARY
    ensures Filter(NamedActing(ActingOf(Assignments(cfg)[i])), Assignments(cfg)) == [Assignments(cfg)[i]]
  {
    var all := Assignments(cfg);
    forall k | 0 <= k < |all| && k != i ensures ActingOf(all[k]) != ActingOf(all[i]) { AssignmentsApart(cfg, k, i); }
    FilterOne(NamedActing(ActingOf(all[i])), all, i);
  }

  // ---------------------------------------------------------------- an alt and a role's assistant

  /** Some name is both a challenger's and a deployed assistant's. */
  ghost predicate NamesClash(cfg: Config) {
    exists name :: RoleOfAlt(cfg, name).Some? && RoleOfAssistant(cfg, name).Some?
  }

  predicate DeclaresAltOfRole(cfg: Config) {
    exists p :: p in Assignments(cfg) && (p.0, "alt-" + p.1) in Assignments(cfg)
  }

  lemma NoPrimaryIsAlt(cfg: Config, name: string)
    requires WellFormed(cfg) && "alt-" <= name
    ensures ClassificationFor(cfg, name).None?
  {
    forall c | c in cfg.classifications ensures c.profile != name { assert c.profile in cfg.profiles; }
  }

  lemma ClashNeedsAltRole(cfg: Config, name: string)
    requires WellFormed(cfg) && DashFree(cfg)
    requires RoleOfAlt(cfg, name).Some? && RoleOfAssistant(cfg, name).Some?
    ensures DeclaresAltOfRole(cfg)
  {
    NoPrimaryIsAlt(cfg, name);
    AltMatchesByName(cfg, name);
    RoleMatchesByName(cfg, name);
    var p, q := RoleOfAlt(cfg, name).value, RoleOfAssistant(cfg, name).value;
    assert q in RoleMatches(cfg, name);
    assert p in Filter(NamedAlt(name), Assignments(cfg));
    PairOf(cfg, Declared(cfg), p);
    PairOf(cfg, Declared(cfg), q);
    assert ("alt-" + p.1) + "-" + p.0 == AltOf(p);
    SplitsAtLastDash("alt-" + p.1, p.0, q.1, q.0);
    assert q == (p.0, "alt-" + p.1);
  }

  // ---------------------------------------------------------------- the clash, on any valid set

  /** One place is all a filter keeps exactly when one place satisfies it alone. */
  predicate Alone<S>(p: S -> bool, s: seq<S>, i: nat)
    requires i < |s|
  {
    p(s[i]) && forall k :: 0 <= k < |s| && k != i ==> !p(s[k])
  }

  lemma {:induction false} FilterPlace<S(!new)>(p: S -> bool, s: seq<S>) returns (i: nat)
    requires |Filter(p, s)| == 1
    ensures i < |s| && Alone(p, s, i)
  {
    if p(s[0]) {
      i := 0;
      assert |Filter(p, s[1..])| == 0;
      forall k | 1 <= k < |s| ensures !p(s[k]) { assert s[1..][k - 1] in s[1..]; }
    } else {
      var k := FilterPlace(p, s[1..]);
      i := k + 1;
      assert forall m :: 1 <= m < |s| ==> s[m] == s[1..][m - 1];
    }
  }

  lemma AloneFilters<S(!new)>(p: S -> bool, s: seq<S>, i: nat)
    requires i < |s| && Alone(p, s, i)
    ensures Filter(p, s) == [s[i]]
  {
    FilterOne(p, s, i);
  }

  /**
   * One place composes an alt's name and no other does; another a role assistant's that is the same, and no other does.
   */
  predicate ComposedTwice(all: seq<Assignment>, i: nat, j: nat)
    requires i < |all| && j < |all|
  {
    Alone(NamedAlt(AltOf(all[i])), all, i) && Alone(NamedActing(AltOf(all[i])), all, j)
  }

  predicate ComposesClash(all: seq<Assignment>) {
    exists i, j :: 0 <= i < |all| && 0 <= j < |all| && ComposedTwice(all, i, j)
  }

  lemma ClashIsComposed(cfg: Config, name: string)
    requires WellFormed(cfg) && RoleOfAlt(cfg, name).Some? && RoleOfAssistant(cfg, name).Some?
    ensures ComposesClash(Assignments(cfg))
  {
    NoPrimaryIsAlt(cfg, name);
    AltMatchesByName(cfg, name);
    RoleMatchesByName(cfg, name);
    var i := FilterPlace(NamedAlt(name), Assignments(cfg));
    var j := FilterPlace(NamedActing(name), Assignments(cfg));
    assert AltOf(Assignments(cfg)[i]) == name;
    assert ComposedTwice(Assignments(cfg), i, j);
  }

  lemma ComposedClashes(cfg: Config, i: nat, j: nat)
    requires WellFormed(cfg) && i < |Assignments(cfg)| && j < |Assignments(cfg)|
    requires ComposedTwice(Assignments(cfg), i, j)
    ensures NamesClash(cfg)
  {
    var name := AltOf(Assignments(cfg)[i]);
    AltPrefix(Assignments(cfg)[i]);
    NoPrimaryIsAlt(cfg, name);
    AltMatchesByName(cfg, name);
    RoleMatchesByName(cfg, name);
    AloneFilters(NamedAlt(name), Assignments(cfg), i);
    AloneFilters(NamedActing(name), Assignments(cfg), j);
    assert RoleOfAlt(cfg, name).Some? && RoleOfAssistant(cfg, name).Some?;
  }

  /**
   * WHEN AN ALT'S NAME IS ALSO AN ASSISTANT'S. On any valid set, a name both inverses answer exists exactly when some
   * assignment alone composes an alt's name that some other alone composes as its assistant's.
   */
  lemma NamesClashIff(cfg: Config)
    requires WellFormed(cfg)
    ensures NamesClash(cfg) <==> ComposesClash(Assignments(cfg))
  {
    if NamesClash(cfg) {
      var name :| RoleOfAlt(cfg, name).Some? && RoleOfAssistant(cfg, name).Some?;
      ClashIsComposed(cfg, name);
    }
    if ComposesClash(Assignments(cfg)) {
      var all := Assignments(cfg);
      var i, j :| 0 <= i < |all| && 0 <= j < |all| && ComposedTwice(all, i, j);
      ComposedClashes(cfg, i, j);
    }
  }

  /**
   * Where no value has a dash, that is exactly when some classification declares a role and the role named `alt-` of
   * it: validation refuses that prefix on a profile, not on a role.
   */
  lemma DashFreeNamesClashIff(cfg: Config)
    requires WellFormed(cfg) && DashFree(cfg) && RolesDistinct(cfg)
    ensures NamesClash(cfg) <==> DeclaresAltOfRole(cfg)
  {
    if NamesClash(cfg) {
      var name :| RoleOfAlt(cfg, name).Some? && RoleOfAssistant(cfg, name).Some?;
      ClashNeedsAltRole(cfg, name);
    }
    if p :| p in Assignments(cfg) && (p.0, "alt-" + p.1) in Assignments(cfg) {
      var q := (p.0, "alt-" + p.1);
      assert ActingOf(q) == AltOf(p);
      DashFreeInvertsAlts(cfg);
      var i :| 0 <= i < |Assignments(cfg)| && Assignments(cfg)[i] == p;
      assert "alt-" <= AltOf(p);
      NoPrimaryIsAlt(cfg, AltOf(p));
      assert q.1[0] == 'a' && PRIMARY[0] == 'p';
      DashFreeInvertsRoles(cfg, q);
      assert RoleOfAlt(cfg, AltOf(p)).Some? && RoleOfAssistant(cfg, AltOf(p)).Some?;
    }
  }

  // ---------------------------------------------------------------- a clash with no `alt-` role

  function DashedConfig(): Config {
    Config([
      Classification("b", [], ["b"], false, false, "p", ["primary", "x"]),
      Classification("x-b", [], ["x-b"], false, false, "p", ["primary", "alt"])],
      ["p"], [], map[])
  }

  lemma DashedValues()
    ensures Declared(DashedConfig()) == ["b", "x-b"] && "b" != "x-b"
  {
    assert "b"[0] != "x-b"[0];
  }

  lemma SingleKey(v: string)
    ensures GrantKey([v]) == v
  {
    assert Sort(StringLe, [v]) == [v];
  }

  lemma DashedGrants()
    ensures GrantsDeclared(DashedConfig())
  {
    DashedValues();
    SingleKey("b");
    SingleKey("x-b");
    var cs := DashedConfig().classifications;
    assert cs[0].grants == ["b"] && cs[1].grants == ["x-b"];
  }

  lemma DashedRest()
    ensures PlanesApart(DashedConfig()) && GroupsDeclared(DashedConfig()) && AliasesApart(DashedConfig())
  {
  }

  lemma DashedProfiles()
    ensures ProfilesApart(DashedConfig())
  {
    DashedValues();
    assert DashedConfig().profiles == ["p"] && "p"[0] != "b"[0] && "p"[0] != "x-b"[0];
  }

  lemma DashedValid()
    ensures WellFormed(DashedConfig())
  {
    DashedGrants();
    DashedRest();
    DashedProfiles();
  }

  function DashedPairs(): seq<Assignment> {
    [("b", "primary"), ("b", "x"), ("x-b", "primary"), ("x-b", "alt")]
  }

  lemma DashedRoles()
    ensures RolesFor(DashedConfig(), "b") == ["primary", "x"] && RolesFor(DashedConfig(), "x-b") == ["primary", "alt"]
  {
    var cfg := DashedConfig();
    DashedValid();
    assert "b"[0] != "x-b"[0];
    assert cfg.classifications[0] in cfg.classifications && cfg.classifications[1] in cfg.classifications;
    FindDeclared(cfg, cfg.classifications[0]);
    FindDeclared(cfg, cfg.classifications[1]);
    ResolveDeclared(cfg, "b");
    ResolveDeclared(cfg, "x-b");
  }

  lemma DashedAssignments()
    ensures Assignments(DashedConfig()) == DashedPairs()
  {
    var cfg := DashedConfig();
    DashedRoles();
    var pair := (v: string) => Map((r: string) => (v, r), RolesFor(cfg, v));
    assert Declared(cfg) == ["b", "x-b"] && ["b", "x-b"][1..] == ["x-b"] && ["x-b"][1..] == [];
    assert PairsOf(cfg, []) == [];
    assert PairsOf(cfg, ["x-b"]) == Map((r: string) => ("x-b", r), RolesFor(cfg, "x-b"));
    assert PairsOf(cfg, ["b", "x-b"]) == Map((r: string) => ("b", r), RolesFor(cfg, "b")) + PairsOf(cfg, ["x-b"]);
  }

  lemma DashedComposed()
    ensures ComposedTwice(DashedPairs(), 1, 3)
  {
    var all := DashedPairs();
    assert AltOf(all[1]) == "alt-x-b" && ActingOf(all[3]) == "alt-x-b" && ActingOf(all[1]) == "x-b";
    assert AltOf(all[0]) == "alt-primary-b" && AltOf(all[2]) == "alt-primary-x-b" && AltOf(all[3]) == "alt-alt-x-b";
    assert "alt-x-b"[4] == 'x' && "alt-primary-b"[4] == 'p' && "alt-primary-x-b"[4] == 'p' && "alt-alt-x-b"[4] == 'a';
    assert "alt"[0] != PRIMARY[0] && "x-b"[0] != "alt-x-b"[0];
  }

  lemma NoAltRole(role: string, p: Assignment)
    requires p in DashedPairs()
    ensures p.1 != "alt-" + role
  {
    assert |"alt-" + role| >= 4 && ("alt-" + role)[0] == 'a' && "primary"[0] == 'p' && |"x"| == 1 && |"alt"| == 3;
  }

  /** A valid set in which one name is a challenger's and an assistant's, and no role is named `alt-` of another. */
  lemma DashedNamesClash()
    ensures WellFormed(DashedConfig()) && NamesClash(DashedConfig()) && !DeclaresAltOfRole(DashedConfig())
  {
    DashedValid();
    DashedAssignments();
    DashedComposed();
    ComposedClashes(DashedConfig(), 1, 3);
    forall p | p in DashedPairs() ensures (p.0, "alt-" + p.1) !in DashedPairs() {
      if (p.0, "alt-" + p.1) in DashedPairs() { NoAltRole(p.1, (p.0, "alt-" + p.1)); }
    }
  }
}
