/**
 * The rows a declared set is published as, one a classification (backend/lib/config/profiles.ts), and what is assembled
 * from all of them, or from the ones whose stacks are deployed.
 */
module PublishedRows {
  import opened Prelude
  import opened Sorting
  import opened Registry
  import opened Admission
  import opened RowAssembly
  import opened RegistryAssembly
  import AssistantAnswers
  import AssistantNames

  /** The classification's primary, or one of its declared roles', has this profile. */
  predicate Serves(c: Classification, name: string) {
    || name == c.profile
    || exists role :: role in c.roles && role != AssistantNames.PRIMARY && role + "-" + c.value == name
  }

  lemma ServesIff(c: Classification, name: string)
    ensures Serves(c, name) <==> name == c.profile || AssistantAnswers.RoleComposes(c, name)
  {
  }

  /** What a row publishes: its classification, the groups that clear for or require it, and the profiles it serves. */
  lemma RowPublishes(cfg: Config, c: Classification)
    requires WellFormed(cfg) && c in cfg.classifications
    ensures var r := RowOf(cfg, c);
            && r.classification == c && r.declaresGrants
            && (forall e :: e in r.groupClearance <==> e in cfg.groupClearance && e.1 == c.value)
            && (forall g :: g in r.membershipGroups <==>
                  g in cfg.membershipGroups && cfg.membershipGroups[g] == c.value)
            && (forall g :: g in r.membershipGroups ==> r.membershipGroups[g] == c.value)
            && (forall name :: name in r.profiles <==>
                  name in cfg.profiles && (name == c.profile || AssistantAnswers.RoleComposes(c, name)))
  {
    assert c.adminPlane ==> c == c.(grants := [c.value]);
    forall name ensures Serves(c, name) <==> name == c.profile || AssistantAnswers.RoleComposes(c, name) {
      ServesIff(c, name);
    }
  }

  function RowOf(cfg: Config, c: Classification): Row {
    Row(if c.adminPlane then c.(grants := [c.value]) else c,
      true,
      Filter((e: (string, string)) => e.1 == c.value, cfg.groupClearance),
      map g | g in cfg.membershipGroups && cfg.membershipGroups[g] == c.value :: c.value,
      Filter(name => Serves(c, name), cfg.profiles))
  }

  function RowsOf(cfg: Config): (r: seq<Row>)
    ensures |r| == |cfg.classifications|
    ensures forall i :: 0 <= i < |r| ==> r[i] == RowOf(cfg, cfg.classifications[i])
  {
    Map(c => RowOf(cfg, c), cfg.classifications)
  }

  /** What can be published: a valid set, each of whose profiles some classification serves. */
  predicate Publishable(cfg: Config) {
    WellFormed(cfg) && forall name :: name in cfg.profiles ==> Served(cfg, name)
  }

  predicate Served(cfg: Config, name: string) {
    exists c :: c in cfg.classifications && Serves(c, name)
  }

  lemma Publisher(cfg: Config, r: Row) returns (c: Classification)
    requires WellFormed(cfg) && r in RowsOf(cfg)
    ensures c in cfg.classifications && r == RowOf(cfg, c) && ValueOf(r) == c.value && ValueOf(r) in Declared(cfg)
    ensures r.classification == c
  {
    var i :| 0 <= i < |RowsOf(cfg)| && RowsOf(cfg)[i] == r;
    c := cfg.classifications[i];
    assert c in cfg.classifications && Declared(cfg)[i] == c.value;
    assert c.adminPlane ==> c == c.(grants := [c.value]);
  }

  // ---------------------------------------------------------------- what merging rows leaves

  lemma {:induction false} AssignFrom(entries: Entries, key: string, value: string, e: (string, string))
    requires e in Assign(entries, key, value)
    ensures e in entries || e == (key, value)
  {
    if entries != [] && entries[0].0 != key && e != entries[0] { AssignFrom(entries[1..], key, value, e); }
  }

  lemma {:induction false} AssignAllFrom(entries: Entries, more: Entries, e: (string, string))
    requires e in AssignAll(entries, more)
    ensures e in entries || e in more
  {
    if more != [] {
      var rest, last := more[..|more| - 1], more[|more| - 1];
      AssignFrom(AssignAll(entries, rest), last.0, last.1, e);
      if e in AssignAll(entries, rest) { AssignAllFrom(entries, rest, e); }
    }
  }

  predicate SomeClears(rows: seq<Row>, e: (string, string)) {
    exists r :: r in rows && e in r.groupClearance
  }

  lemma {:induction false} MergedFrom(rows: seq<Row>, e: (string, string))
    requires e in MergedClearance(rows)
    ensures SomeClears(rows, e)
  {
    if rows != [] {
      var rest, last := rows[..|rows| - 1], rows[|rows| - 1];
      AssignAllFrom(MergedClearance(rest), last.groupClearance, e);
      assert last in rows;
      if e in MergedClearance(rest) {
        MergedFrom(rest, e);
        var r :| r in rest && e in r.groupClearance;
        assert r in rows;
      }
    }
  }

  predicate SomeRequires(rows: seq<Row>, g: string, v: string) {
    exists r :: r in rows && g in r.membershipGroups && r.membershipGroups[g] == v
  }

  lemma {:induction false} MembershipFrom(rows: seq<Row>, g: string)
    requires g in MergedMembership(rows)
    ensures SomeRequires(rows, g, MergedMembership(rows)[g])
  {
    if rows != [] {
      var rest, last := rows[..|rows| - 1], rows[|rows| - 1];
      assert last in rows;
      if g !in last.membershipGroups {
        MembershipFrom(rest, g);
        var r :| r in rest && g in r.membershipGroups && r.membershipGroups[g] == MergedMembership(rest)[g];
        assert r in rows;
      }
    }
  }

  lemma ProfileFrom(rows: seq<Row>, name: string)
    ensures name in ProfilesOf(rows) <==> exists r :: r in rows && name in r.profiles
  {
    var lists := Map((r: Row) => r.profiles, rows);
    FlattenElems(lists, name);
    assert name in Elems(ProfilesOf(rows)) <==> name in Elems(Flatten(lists));
    if s :| s in lists && name in s {
      var i :| 0 <= i < |lists| && lists[i] == s;
      assert rows[i] in rows;
    }
    if r :| r in rows && name in r.profiles {
      var i :| 0 <= i < |rows| && rows[i] == r;
      assert lists[i] in lists;
    }
  }

  // ---------------------------------------------------------------- some of the stacks deployed

  /** Every row that can be read is one the set publishes; values that cannot be read may stand beside them. */
  predicate PartlyPublished(cfg: Config, values: seq<Option<Row>>) {
    forall r :: r in Readable(values) ==> r in RowsOf(cfg)
  }

  predicate Published(cfg: Config, rows: seq<Row>) {
    forall r :: r in rows ==> r in RowsOf(cfg)
  }

  lemma KeptPublished(cfg: Config, values: seq<Option<Row>>)
    requires PartlyPublished(cfg, values)
    ensures Published(cfg, Kept(values))
  {
    FirstsDistinct(Sort(RowLe, Readable(values)));
    SortElems(RowLe, Readable(values));
    forall r | r in Kept(values) ensures r in RowsOf(cfg) {
      assert r in Elems(Sort(RowLe, Readable(values)));
    }
  }

  lemma PublishedGrants(cfg: Config, rows: seq<Row>)
    requires WellFormed(cfg) && Published(cfg, rows)
    ensures AllUsable(rows) && !OmitsItself(rows) && !PlaneGranted(rows)
  {
    forall r | r in rows ensures Usable(r) && (r.classification.adminPlane || ValueOf(r) in r.classification.grants) {
      var c := Publisher(cfg, r);
    }
    forall r, p | r in rows && p in rows ensures !GrantsPlane(r, p) {
      var c := Publisher(cfg, r);
      var d := Publisher(cfg, p);
    }
  }

  lemma PublishedClears(cfg: Config, rows: seq<Row>, e: (string, string))
    requires WellFormed(cfg) && Published(cfg, rows) && e in MergedClearance(rows)
    ensures e in cfg.groupClearance && Carries(rows, e.1)
  {
    MergedFrom(rows, e);
    var r :| r in rows && e in r.groupClearance;
    var c := Publisher(cfg, r);
  }

  lemma PublishedRequires(cfg: Config, rows: seq<Row>, g: string)
    requires WellFormed(cfg) && Published(cfg, rows) && g in MergedMembership(rows)
    ensures g in cfg.membershipGroups && cfg.membershipGroups[g] == MergedMembership(rows)[g]
    ensures Carries(rows, MergedMembership(rows)[g])
  {
    MembershipFrom(rows, g);
    var r :| r in rows && g in r.membershipGroups && r.membershipGroups[g] == MergedMembership(rows)[g];
    var c := Publisher(cfg, r);
  }

  lemma OutsideGranters(cfg: Config, c: Classification, d: Classification)
    requires OutsideAlone(cfg) && c in cfg.classifications && d in cfg.classifications && c.outside
    ensures !c.adminPlane && c.grants == [c.value] && (c.value in d.grants ==> c == d)
    ensures forall e :: e in cfg.groupClearance ==> e.1 != c.value
  {
  }

  lemma PublishedOutside(cfg: Config, rows: seq<Row>, r: Row)
    requires WellFormed(cfg) && Published(cfg, rows) && r in rows && r.classification.outside
    ensures !OutsideAmiss(r, rows)
  {
    var c := Publisher(cfg, r);
    OutsideGranters(cfg, c, c);
    CarriesValue(rows, ValueOf(r));
    FilterAll(g => g in ValuesOf(rows), c.grants);
    forall d | d in rows && ValueOf(d) != ValueOf(r) ensures ValueOf(r) !in GrantsLeft(d, rows) {
      NotGrantedByAnother(cfg, rows, r, d);
    }
    forall e | e in MergedClearance(rows) ensures e.1 != ValueOf(r) { PublishedClears(cfg, rows, e); }
  }

  lemma NotGrantedByAnother(cfg: Config, rows: seq<Row>, r: Row, d: Row)
    requires WellFormed(cfg) && Published(cfg, rows) && r in rows && d in rows
    requires r.classification.outside && ValueOf(d) != ValueOf(r)
    ensures ValueOf(r) !in GrantsLeft(d, rows)
  {
    var c := Publisher(cfg, r);
    var q := Publisher(cfg, d);
    OutsideGranters(cfg, c, q);
  }

  lemma PublishedGroups(cfg: Config, rows: seq<Row>)
    requires WellFormed(cfg) && Published(cfg, rows)
    ensures !GroupAmiss(rows)
  {
    forall e | e in MergedClearance(rows) ensures Carries(rows, e.1) { PublishedClears(cfg, rows, e); }
    forall g | g in MergedMembership(rows)
      ensures Carries(rows, MergedMembership(rows)[g]) && g !in Keys(MergedClearance(rows))
    {
      PublishedRequires(cfg, rows, g);
      KeyedSome(MergedClearance(rows), g);
      if e :| e in MergedClearance(rows) && e.0 == g { PublishedClears(cfg, rows, e); }
    }
  }

  lemma CarriedIsDeclared(cfg: Config, rows: seq<Row>, v: string)
    requires WellFormed(cfg) && Published(cfg, rows) && Carries(rows, v)
    ensures v in Declared(cfg)
  {
    var r :| r in rows && ValueOf(r) == v;
    var c := Publisher(cfg, r);
  }

  lemma PublishedPrimary(cfg: Config, rows: seq<Row>, r: Row)
    requires WellFormed(cfg) && Published(cfg, rows) && r in rows
    ensures r.classification.profile in ProfilesOf(rows)
  {
    var c := Publisher(cfg, r);
    assert c.profile in r.profiles;
    ProfileFrom(rows, c.profile);
  }

  lemma PublishedName(cfg: Config, rows: seq<Row>, name: string)
    requires WellFormed(cfg) && Published(cfg, rows) && name in ProfilesOf(rows)
    ensures name in cfg.profiles && !Carries(rows, name) && !("alt-" <= name)
  {
    ProfileFrom(rows, name);
    var r :| r in rows && name in r.profiles;
    var c := Publisher(cfg, r);
    if Carries(rows, name) { CarriedIsDeclared(cfg, rows, name); }
  }

  lemma PublishedProfiles(cfg: Config, rows: seq<Row>)
    requires WellFormed(cfg) && Published(cfg, rows)
    ensures !ProfileAmiss(rows)
  {
    forall r | r in rows ensures r.classification.profile in ProfilesOf(rows) { PublishedPrimary(cfg, rows, r); }
    forall name | name in ProfilesOf(rows) ensures !Carries(rows, name) && !("alt-" <= name) {
      PublishedName(cfg, rows, name);
    }
  }

  lemma PublishedSome(cfg: Config, rows: seq<Row>)
    requires WellFormed(cfg) && Published(cfg, rows) && rows != []
    ensures ProfilesOf(rows) != []
  {
    PublishedPrimary(cfg, rows, rows[0]);
  }

  lemma PublishedAliases(cfg: Config, rows: seq<Row>)
    requires WellFormed(cfg) && Published(cfg, rows) && DistinctValues(rows)
    ensures !AliasTaken(rows)
  {
    forall r | r in rows
      ensures Distinct(r.classification.aliases)
      ensures forall a :: a in r.classification.aliases ==> !Carries(rows, a)
    {
      var c := Publisher(cfg, r);
      forall a | a in c.aliases ensures !Carries(rows, a) { if Carries(rows, a) { CarriedIsDeclared(cfg, rows, a); } }
    }
    forall i, j, a | 0 <= i < j < |rows| && a in rows[i].classification.aliases
      ensures a !in rows[j].classification.aliases
    {
      AliasesOnce(cfg, rows, i, j, a);
    }
  }

  lemma AliasesOnce(cfg: Config, rows: seq<Row>, i: nat, j: nat, a: string)
    requires WellFormed(cfg) && Published(cfg, rows) && DistinctValues(rows)
    requires i < j < |rows| && a in rows[i].classification.aliases
    ensures a !in rows[j].classification.aliases
  {
    var c := Publisher(cfg, rows[i]);
    var d := Publisher(cfg, rows[j]);
    AliasOwner(cfg, PlaceOf(cfg, c), PlaceOf(cfg, d), a);
  }

  lemma AliasOwner(cfg: Config, p: nat, q: nat, a: string)
    requires AliasesApart(cfg) && p < |cfg.classifications| && q < |cfg.classifications|
    ensures a in cfg.classifications[p].aliases && a in cfg.classifications[q].aliases ==> p == q
  {
  }

  /**
   * WHEN SOME OF A SET'S STACKS ARE DEPLOYED. Of a set that can be published, whichever rows stand, beside whatever
   * cannot be read, the trigger installs them all; the registry refuses the whole exactly when none stands, or two that
   * do grant one list once the grants of those that do not are gone.
   */
  lemma PartlyRefusedIff(cfg: Config, values: seq<Option<Row>>)
    requires Publishable(cfg) && PartlyPublished(cfg, values)
    ensures AdmissionOfRows(Kept(values)).Some?
    ensures RegistryReads(values, true).None? <==> Kept(values) == [] || TwoAlike(Kept(values))
  {
    var rows := Kept(values);
    RefusedIff(values, true);
    KeptPublished(cfg, values);
    KeptOrdered(values);
    PublishedGrants(cfg, rows);
    forall r | r in rows && r.classification.outside ensures !OutsideAmiss(r, rows) { PublishedOutside(cfg, rows, r); }
    PublishedGroups(cfg, rows);
    PublishedProfiles(cfg, rows);
    if rows != [] { PublishedSome(cfg, rows); }
    PublishedAliases(cfg, rows);
  }

  // ---------------------------------------------------------------- one stack removed

  predicate CommaFree(values: seq<string>) {
    forall v :: v in values ==> ',' !in v
  }

  lemma CommaJoins(a: seq<string>)
    requires a != [] && CommaFree(a)
    ensures ',' in Joined(a) <==> |a| > 1
  {
    assert a[0] in a;
    if |a| > 1 { assert Joined(a)[|a[0]|] == ','; }
  }

  /** Values without commas are told apart by their joining. */
  lemma {:induction false} JoinedApart(a: seq<string>, b: seq<string>)
    requires a != [] && b != [] && CommaFree(a) && CommaFree(b) && Joined(a) == Joined(b)
    ensures a == b
  {
    assert a[0] in a && b[0] in b;
    CommaJoins(a);
    CommaJoins(b);
    if |a| > 1 {
      var s := Joined(a);
      assert s[|a[0]|] == ',' && s[|b[0]|] == ',';
      forall k | 0 <= k < |a[0]| ensures s[k] != ',' { assert s[k] == a[0][k]; }
      forall k | 0 <= k < |b[0]| ensures s[k] != ',' { assert s[k] == b[0][k]; }
      assert a[0] == s[..|a[0]|] && b[0] == s[..|b[0]|];
      assert Joined(a[1..]) == s[|a[0]| + 1..] && Joined(b[1..]) == s[|b[0]| + 1..];
      JoinedApart(a[1..], b[1..]);
    }
  }

  /** Two lists of values without commas have one key exactly when they are one list in some order. */
  lemma GrantKeyIff(a: seq<string>, b: seq<string>)
    requires a != [] && b != [] && CommaFree(a) && CommaFree(b)
    ensures GrantKey(a) == GrantKey(b) <==> multiset(a) == multiset(b)
  {
    SortElems(StringLe, a);
    SortElems(StringLe, b);
    SortedSame(a, b);
    if GrantKey(a) == GrantKey(b) {
      forall v | v in Sort(StringLe, a) ensures ',' !in v { assert v in Elems(a); }
      forall v | v in Sort(StringLe, b) ensures ',' !in v { assert v in Elems(b); }
      JoinedApart(Sort(StringLe, a), Sort(StringLe, b));
    }
  }

  function Without(grants: seq<string>, x: string): seq<string> {
    Filter(g => g != x, grants)
  }

  /** Two other classifications grant one list but for `x`. */
  predicate AlikeWithout(cfg: Config, x: string) {
    exists c, d :: c in cfg.classifications && d in cfg.classifications && OthersAlike(c, d, x)
  }

  predicate OthersAlike(c: Classification, d: Classification, x: string) {
    c.value != x && d.value != x && c.value != d.value
      && multiset(Without(c.grants, x)) == multiset(Without(d.grants, x))
  }

  /** The rows that can be read are those of every classification but `x`. */
  predicate AllBut(cfg: Config, x: string, values: seq<Option<Row>>) {
    forall r :: r in Readable(values) + RowsOf(cfg) ==>
      (r in Readable(values) <==> r in RowsOf(cfg) && ValueOf(r) != x)
  }

  lemma KeptAllBut(cfg: Config, x: string, values: seq<Option<Row>>)
    requires WellFormed(cfg) && AllBut(cfg, x, values)
    ensures PartlyPublished(cfg, values)
    ensures forall c :: c in cfg.classifications && c.value != x ==> RowOf(cfg, c) in Kept(values)
    ensures forall r :: r in Kept(values) ==> ValueOf(r) != x
  {
    var read, sorted := Readable(values), Sort(RowLe, Readable(values));
    forall r | r in read ensures r in RowsOf(cfg) { assert r in read + RowsOf(cfg); }
    FirstsDistinct(sorted);
    SortElems(RowLe, read);
    KeptPublished(cfg, values);
    forall c | c in cfg.classifications && c.value != x ensures RowOf(cfg, c) in Kept(values) {
      var row := RowOf(cfg, c);
      assert RowsOf(cfg)[PlaceOf(cfg, c)] == row;
      assert row in read + RowsOf(cfg);
      assert row in Elems(sorted);
      assert Carries(sorted, c.value);
      var k :| k in Kept(values) && ValueOf(k) == c.value;
      OneRowAValue(cfg, row, k);
    }
    forall r | r in Kept(values) ensures ValueOf(r) != x {
      assert r in Elems(sorted);
      assert r in read + RowsOf(cfg);
    }
  }

  lemma OneRowAValue(cfg: Config, r: Row, k: Row)
    requires WellFormed(cfg) && r in RowsOf(cfg) && k in RowsOf(cfg) && ValueOf(r) == ValueOf(k)
    ensures r == k
  {
    var c := Publisher(cfg, r);
    var d := Publisher(cfg, k);
    FindDeclared(cfg, c);
    FindDeclared(cfg, d);
  }

  lemma LeftWithout(cfg: Config, x: string, values: seq<Option<Row>>, c: Classification)
    requires WellFormed(cfg) && AllBut(cfg, x, values) && c in cfg.classifications && c.value != x
    ensures GrantsLeft(RowOf(cfg, c), Kept(values)) == Without(c.grants, x)
  {
    var present := ValuesOf(Kept(values));
    KeptAllBut(cfg, x, values);
    forall g | g in c.grants ensures g in present <==> g != x {
      var d := DeclaredAt(cfg, g);
      CarriesValue(Kept(values), g);
    }
    AssistantNames.FilterSame(g => g in present, g => g != x, c.grants);
    if c.adminPlane {
      assert c.grants == [c.value];
      FilterAll(g => g != x, c.grants);
    }
  }

  lemma WithoutKey(cfg: Config, x: string, c: Classification, d: Classification)
    requires WellFormed(cfg) && CommaFree(Declared(cfg))
    requires c in cfg.classifications && d in cfg.classifications && c.value != x && d.value != x
    ensures GrantKey(Without(c.grants, x)) == GrantKey(Without(d.grants, x))
       <==> multiset(Without(c.grants, x)) == multiset(Without(d.grants, x))
  {
    assert c.value in Without(c.grants, x) && d.value in Without(d.grants, x);
    GrantKeyIff(Without(c.grants, x), Without(d.grants, x));
  }

  lemma AlikeAllBut(cfg: Config, x: string, values: seq<Option<Row>>)
    requires WellFormed(cfg) && CommaFree(Declared(cfg)) && AllBut(cfg, x, values)
    ensures TwoAlike(Kept(values)) <==> AlikeWithout(cfg, x)
  {
    var rows := Kept(values);
    if i, j :| 0 <= i < j < |rows| && GrantKey(GrantsLeft(rows[i], rows)) == GrantKey(GrantsLeft(rows[j], rows)) {
      AlikeThere(cfg, x, values, i, j);
    }
    if c, d :| c in cfg.classifications && d in cfg.classifications && OthersAlike(c, d, x) {
      AlikeHere(cfg, x, values, c, d);
    }
  }

  lemma AlikeThere(cfg: Config, x: string, values: seq<Option<Row>>, i: nat, j: nat)
    requires WellFormed(cfg) && CommaFree(Declared(cfg)) && AllBut(cfg, x, values) && i < j < |Kept(values)|
    requires var rows := Kept(values); GrantKey(GrantsLeft(rows[i], rows)) == GrantKey(GrantsLeft(rows[j], rows))
    ensures AlikeWithout(cfg, x)
  {
    var rows := Kept(values);
    KeptAllBut(cfg, x, values);
    KeptPublished(cfg, values);
    KeptOrdered(values);
    var c := Publisher(cfg, rows[i]);
    var d := Publisher(cfg, rows[j]);
    LeftWithout(cfg, x, values, c);
    LeftWithout(cfg, x, values, d);
    WithoutKey(cfg, x, c, d);
    assert OthersAlike(c, d, x);
  }

  lemma AlikeHere(cfg: Config, x: string, values: seq<Option<Row>>, c: Classification, d: Classification)
    requires WellFormed(cfg) && CommaFree(Declared(cfg)) && AllBut(cfg, x, values)
    requires c in cfg.classifications && d in cfg.classifications && OthersAlike(c, d, x)
    ensures TwoAlike(Kept(values))
  {
    var rows := Kept(values);
    KeptAllBut(cfg, x, values);
    LeftWithout(cfg, x, values, c);
    LeftWithout(cfg, x, values, d);
    WithoutKey(cfg, x, c, d);
    var i :| 0 <= i < |rows| && rows[i] == RowOf(cfg, c);
    var j :| 0 <= j < |rows| && rows[j] == RowOf(cfg, d);
    assert GrantKey(GrantsLeft(rows[i], rows)) == GrantKey(GrantsLeft(rows[j], rows));
    assert i < j || j < i;
  }

  /**
   * WHEN REMOVING A STACK REFUSES THE SET. With one classification's row gone, the registry refuses what is left
   * exactly when nothing is, or two of the others grant one list but for it.
   */
  lemma RemovalRefusedIff(cfg: Config, x: string, values: seq<Option<Row>>)
    requires Publishable(cfg) && CommaFree(Declared(cfg)) && AllBut(cfg, x, values)
    ensures AdmissionOfRows(Kept(values)).Some?
    ensures RegistryReads(values, true).None? <==>
      (forall c :: c in cfg.classifications ==> c.value == x) || AlikeWithout(cfg, x)
  {
    KeptAllBut(cfg, x, values);
    KeptPublished(cfg, values);
    PartlyRefusedIff(cfg, values);
    AlikeAllBut(cfg, x, values);
    if Kept(values) != [] {
      var r := Kept(values)[0];
      assert r in Kept(values);
      var c := Publisher(cfg, r);
    }
  }

  // ---------------------------------------------------------------- every stack deployed

  predicate ClassificationLe(a: Classification, b: Classification) {
    StringLe(a.value, b.value)
  }

  predicate KeyLe(a: (string, string), b: (string, string)) {
    StringLe(a.0, b.0)
  }

  function CanonicalOne(c: Classification): Classification {
    if c.adminPlane then c.(grants := Sort(StringLe, c.grants)) else c
  }

  /** A set in a form its declaration's order does not show in. */
  function Canonical(cfg: Config): Config {
    Config(Sort(ClassificationLe, Map(CanonicalOne, cfg.classifications)), Sort(StringLe, cfg.profiles),
      Sort(KeyLe, cfg.groupClearance), cfg.membershipGroups)
  }

  lemma CanonicalClassifications(cfg: Config)
    requires PlanesAlone(cfg)
    ensures Map(CanonicalOne, cfg.classifications) == cfg.classifications
  {
    forall c | c in cfg.classifications ensures CanonicalOne(c) == c {
      if c.adminPlane { assert Sort(StringLe, [c.value]) == [c.value]; }
    }
  }

  lemma RowsDistinct(cfg: Config)
    requires WellFormed(cfg)
    ensures DistinctValues(RowsOf(cfg)) && Published(cfg, RowsOf(cfg))
  {
    forall i | 0 <= i < |RowsOf(cfg)| ensures ValueOf(RowsOf(cfg)[i]) == Declared(cfg)[i] {}
  }

  /** The rows of a set, in value order. */
  function SortedRows(cfg: Config): seq<Row> {
    Sort(RowLe, RowsOf(cfg))
  }

  lemma RowsSorted(cfg: Config)
    requires WellFormed(cfg)
    ensures Ordered(SortedRows(cfg)) && ConfigOfRows(RowsOf(cfg)) == ConfigOfRows(SortedRows(cfg))
    ensures Published(cfg, SortedRows(cfg))
    ensures forall r :: r in SortedRows(cfg) <==> r in RowsOf(cfg)
  {
    RowsDistinct(cfg);
    RowOrders();
    SortDistinctValues(RowsOf(cfg));
    SortSorted(RowLe, RowsOf(cfg));
    SortOfSorted(SortedRows(cfg));
    SortElems(RowLe, RowsOf(cfg));
    forall r ensures r in SortedRows(cfg) <==> r in RowsOf(cfg) {
      assert r in Elems(SortedRows(cfg)) <==> r in Elems(RowsOf(cfg));
    }
  }

  lemma RowIn(cfg: Config, c: Classification)
    requires WellFormed(cfg) && c in cfg.classifications
    ensures RowOf(cfg, c) in SortedRows(cfg)
  {
    RowsSorted(cfg);
    assert RowsOf(cfg)[PlaceOf(cfg, c)] == RowOf(cfg, c);
  }

  /** With every row there, a row installs as its classification. */
  lemma InstalledSame(cfg: Config, c: Classification)
    requires WellFormed(cfg) && c in cfg.classifications
    ensures Installed(RowOf(cfg, c), ValuesOf(SortedRows(cfg))) == c
  {
    var present := ValuesOf(SortedRows(cfg));
    forall g | g in c.grants ensures g in present {
      RowIn(cfg, DeclaredAt(cfg, g));
      CarriesValue(SortedRows(cfg), g);
    }
    FilterAll(g => g in present, c.grants);
    assert c.adminPlane ==> c.grants == [c.value];
  }

  lemma ClassificationsSame(cfg: Config)
    requires WellFormed(cfg)
    ensures multiset(ConfigOfRows(RowsOf(cfg)).classifications) == multiset(cfg.classifications)
  {
    var sorted, out := SortedRows(cfg), ConfigOfRows(RowsOf(cfg));
    RowsSorted(cfg);
    RowsAssemble(sorted);
    forall c ensures c in out.classifications <==> c in cfg.classifications {
      if c in out.classifications {
        var r := RowBehind(out, sorted, c);
        var d := Publisher(cfg, r);
        InstalledSame(cfg, d);
      }
      if c in cfg.classifications {
        RowIn(cfg, c);
        InstalledIn(out, sorted, RowOf(cfg, c));
        InstalledSame(cfg, c);
      }
    }
    SameMultiset(out.classifications, cfg.classifications, Declared(out), Declared(cfg));
  }

  lemma SameMultiset(a: seq<Classification>, b: seq<Classification>, va: seq<string>, vb: seq<string>)
    requires Distinct(va) && Distinct(vb) && |va| == |a| && |vb| == |b|
    requires forall i :: 0 <= i < |a| ==> va[i] == a[i].value
    requires forall i :: 0 <= i < |b| ==> vb[i] == b[i].value
    requires forall c :: c in a <==> c in b
    ensures multiset(a) == multiset(b)
  {
    forall i, j | 0 <= i < j < |a| ensures a[i] != a[j] { assert va[i] != va[j]; }
    forall i, j | 0 <= i < j < |b| ensures b[i] != b[j] { assert vb[i] != vb[j]; }
    DistinctMultiset(a);
    DistinctMultiset(b);
    assert Elems(a) == Elems(b);
  }

  lemma ServedInRow(cfg: Config, c: Classification, name: string)
    requires name in cfg.profiles && Serves(c, name)
    ensures name in RowOf(cfg, c).profiles
  {
  }

  lemma InProfiles(rows: seq<Row>, r: Row, name: string)
    requires r in rows && name in r.profiles
    ensures name in ProfilesOf(rows)
  {
    ProfileFrom(rows, name);
  }

  lemma Server(cfg: Config, name: string) returns (c: Classification)
    requires Served(cfg, name)
    ensures c in cfg.classifications && Serves(c, name)
  {
    c :| c in cfg.classifications && Serves(c, name);
  }

  lemma ProfileKept(cfg: Config, name: string)
    requires Publishable(cfg) && name in cfg.profiles
    ensures name in ProfilesOf(SortedRows(cfg))
  {
    var c := Server(cfg, name);
    RowIn(cfg, c);
    ServedInRow(cfg, c, name);
    InProfiles(SortedRows(cfg), RowOf(cfg, c), name);
  }

  lemma ProfileSame(cfg: Config, name: string)
    requires Publishable(cfg)
    ensures name in ProfilesOf(SortedRows(cfg)) <==> name in cfg.profiles
  {
    if name in ProfilesOf(SortedRows(cfg)) {
      RowsSorted(cfg);
      PublishedName(cfg, SortedRows(cfg), name);
    }
    if name in cfg.profiles { ProfileKept(cfg, name); }
  }

  lemma ProfilesSame(cfg: Config)
    requires Publishable(cfg)
    ensures Elems(ConfigOfRows(RowsOf(cfg)).profiles) == Elems(cfg.profiles)
    ensures Distinct(ConfigOfRows(RowsOf(cfg)).profiles)
  {
    RowsSorted(cfg);
    RowsAssemble(SortedRows(cfg));
    forall name ensures name in ProfilesOf(SortedRows(cfg)) <==> name in cfg.profiles { ProfileSame(cfg, name); }
    SameElems(ProfilesOf(SortedRows(cfg)), cfg.profiles);
    DedupDistinct(Flatten(Map((r: Row) => r.profiles, SortedRows(cfg))));
  }

  lemma {:induction false} MergedHas(rows: seq<Row>, g: string)
    requires exists r :: r in rows && g in Keys(r.groupClearance)
    ensures g in Keys(MergedClearance(rows))
  {
    if rows != [] {
      var rest, last := rows[..|rows| - 1], rows[|rows| - 1];
      var r :| r in rows && g in Keys(r.groupClearance);
      assert r in rest || r == last;
      if r in rest { MergedHas(rest, g); }
      AssignAllKeeps(MergedClearance(rest), last.groupClearance, g);
    }
  }

  lemma LastKey(entries: Entries, g: string)
    requires g in Keys(entries)
    ensures g in Keys(entries[..|entries| - 1]) || g == entries[|entries| - 1].0
  {
    var i :| 0 <= i < |entries| && Keys(entries)[i] == g;
    if i < |entries| - 1 { assert Keys(entries[..|entries| - 1])[i] == g; }
  }

  lemma {:induction false} AssignAllKeeps(entries: Entries, more: Entries, g: string)
    requires g in Keys(entries) || g in Keys(more)
    ensures g in Keys(AssignAll(entries, more))
  {
    if more != [] {
      var rest, last := more[..|more| - 1], more[|more| - 1];
      AssignKeys(AssignAll(entries, rest), last.0, last.1);
      if g in Keys(more) { LastKey(more, g); }
      if g != last.0 { AssignAllKeeps(entries, rest, g); }
    }
  }

  lemma ClearanceSame(cfg: Config)
    requires WellFormed(cfg)
    ensures multiset(ConfigOfRows(RowsOf(cfg)).groupClearance) == multiset(cfg.groupClearance)
  {
    var sorted := SortedRows(cfg);
    var merged := MergedClearance(sorted);
    RowsSorted(cfg);
    RowsAssemble(sorted);
    MergedKeysDistinct(sorted);
    forall e ensures e in merged <==> e in cfg.groupClearance {
      if e in merged { PublishedClears(cfg, sorted, e); }
      if e in cfg.groupClearance { ClearanceKept(cfg, e); }
    }
    assert Elems(merged) == Elems(cfg.groupClearance);
    KeysDistinct(merged);
    KeysDistinct(cfg.groupClearance);
    DistinctMultiset(merged);
    DistinctMultiset(cfg.groupClearance);
  }

  lemma KeysDistinct(entries: Entries)
    ensures Distinct(Keys(entries)) ==> Distinct(entries)
    ensures Distinct(Keys(entries)) <==> forall i, j :: 0 <= i < j < |entries| ==> entries[i].0 != entries[j].0
  {
    if Distinct(Keys(entries)) {
      forall i, j | 0 <= i < j < |entries|
        ensures entries[i].0 != entries[j].0
      {
        assert Keys(entries)[i] != Keys(entries)[j];
      }
    }
  }

  lemma ClearanceKept(cfg: Config, e: (string, string))
    requires WellFormed(cfg) && e in cfg.groupClearance
    ensures e in MergedClearance(SortedRows(cfg))
  {
    var sorted := SortedRows(cfg);
    RowsSorted(cfg);
    var c := DeclaredAt(cfg, e.1);
    var r := RowOf(cfg, c);
    RowIn(cfg, c);
    assert e in r.groupClearance;
    KeyedSome(r.groupClearance, e.0);
    MergedHas(sorted, e.0);
    KeyedSome(MergedClearance(sorted), e.0);
    var f :| f in MergedClearance(sorted) && f.0 == e.0;
    PublishedClears(cfg, sorted, f);
    LookupOf(cfg, e);
    LookupOf(cfg, f);
  }

  lemma {:induction false} MembershipHas(rows: seq<Row>, g: string)
    requires exists r :: r in rows && g in r.membershipGroups
    ensures g in MergedMembership(rows)
  {
    if rows != [] {
      var rest, last := rows[..|rows| - 1], rows[|rows| - 1];
      var r :| r in rows && g in r.membershipGroups;
      assert r in rest || r == last;
      if r in rest { MembershipHas(rest, g); }
    }
  }

  lemma RequirementSame(cfg: Config, g: string)
    requires WellFormed(cfg)
    ensures var merged := MergedMembership(SortedRows(cfg));
            && (g in merged <==> g in cfg.membershipGroups)
            && (g in merged ==> merged[g] == cfg.membershipGroups[g])
  {
    RowsSorted(cfg);
    if g in MergedMembership(SortedRows(cfg)) { PublishedRequires(cfg, SortedRows(cfg), g); }
    if g in cfg.membershipGroups { RequirementKept(cfg, g); }
  }

  lemma RequirementKept(cfg: Config, g: string)
    requires WellFormed(cfg) && g in cfg.membershipGroups
    ensures g in MergedMembership(SortedRows(cfg))
  {
    var c := DeclaredAt(cfg, cfg.membershipGroups[g]);
    RowIn(cfg, c);
    assert g in RowOf(cfg, c).membershipGroups;
    MembershipHas(SortedRows(cfg), g);
  }

  lemma SameMap(a: map<string, string>, b: map<string, string>)
    requires forall g :: g in a <==> g in b
    requires forall g :: g in a ==> a[g] == b[g]
    ensures a == b
  {
  }

  lemma MembershipSame(cfg: Config)
    requires WellFormed(cfg)
    ensures ConfigOfRows(RowsOf(cfg)).membershipGroups == cfg.membershipGroups
  {
    var merged := MergedMembership(SortedRows(cfg));
    forall g
      ensures g in merged <==> g in cfg.membershipGroups
      ensures g in merged ==> g in cfg.membershipGroups && merged[g] == cfg.membershipGroups[g]
    {
      RequirementSame(cfg, g);
    }
    SameMap(merged, cfg.membershipGroups);
  }

  lemma ClassificationsSortAlike(a: seq<Classification>, b: seq<Classification>)
    requires multiset(a) == multiset(b)
    requires forall i, j :: 0 <= i < j < |a| ==> a[i].value != a[j].value
    ensures Sort(ClassificationLe, a) == Sort(ClassificationLe, b)
  {
    StringOrders();
    forall x, y | x in a && y in a && ClassificationLe(x, y) && ClassificationLe(y, x) ensures x == y {
      var i :| 0 <= i < |a| && a[i] == x;
      var j :| 0 <= j < |a| && a[j] == y;
    }
    SortForgetsOrder(ClassificationLe, a, b);
  }

  lemma EntriesSortAlike(a: Entries, b: Entries)
    requires multiset(a) == multiset(b)
    requires forall i, j :: 0 <= i < j < |a| ==> a[i].0 != a[j].0
    ensures Sort(KeyLe, a) == Sort(KeyLe, b)
  {
    StringOrders();
    forall x, y | x in a && y in a && KeyLe(x, y) && KeyLe(y, x) ensures x == y {
      var i :| 0 <= i < |a| && a[i] == x;
      var j :| 0 <= j < |a| && a[j] == y;
    }
    SortForgetsOrder(KeyLe, a, b);
  }

  lemma SameNames(a: seq<string>, b: seq<string>)
    requires Elems(a) == Elems(b) && Distinct(a)
    ensures Sort(StringLe, a) == Sort(StringLe, b) <==> Distinct(b)
  {
    SortedSame(a, b);
    if Distinct(b) {
      DistinctMultiset(a);
      DistinctMultiset(b);
    } else if multiset(a) == multiset(b) {
      MultisetElems(a, b);
    }
  }

  lemma AssembledIsValid(cfg: Config)
    requires Publishable(cfg)
    ensures PlanesAlone(ConfigOfRows(RowsOf(cfg)))
  {
    RowsSorted(cfg);
    RowsAssemble(SortedRows(cfg));
    PublishedGrants(cfg, SortedRows(cfg));
    PlanesClause(ConfigOfRows(RowsOf(cfg)), SortedRows(cfg));
  }

  /**
   * A SET COMES BACK FROM ITS ROWS. What every row of a set assembles to is the set, in canonical form, exactly when it
   * declares no profile name twice: validation lets it, and the assembly keeps one.
   */
  lemma RoundTripIff(cfg: Config)
    requires Publishable(cfg)
    ensures Canonical(ConfigOfRows(RowsOf(cfg))) == Canonical(cfg) <==> Distinct(cfg.profiles)
  {
    var out := ConfigOfRows(RowsOf(cfg));
    AssembledIsValid(cfg);
    CanonicalClassifications(cfg);
    CanonicalClassifications(out);
    ClassificationsSame(cfg);
    ClearanceSame(cfg);
    MembershipSame(cfg);
    ProfilesSame(cfg);
    forall i, j | 0 <= i < j < |cfg.classifications|
      ensures cfg.classifications[i].value != cfg.classifications[j].value
    {
      assert Declared(cfg)[i] != Declared(cfg)[j];
    }
    ClassificationsSortAlike(cfg.classifications, out.classifications);
    EntriesSortAlike(cfg.groupClearance, out.groupClearance);
    SameNames(out.profiles, cfg.profiles);
  }

  // ---------------------------------------------------------------- a removal that refuses the set

  function RemovableConfig(): Config {
    Config([
      Classification("a", [], ["a", "b", "z"], false, false, "p", []),
      Classification("b", [], ["b", "a"], false, false, "p", []),
      Classification("z", [], ["z"], false, false, "p", [])],
      ["p"], [], map[])
  }

  lemma RemovableValues()
    ensures Declared(RemovableConfig()) == ["a", "b", "z"] && CommaFree(["a", "b", "z"])
  {
  }

  lemma RemovableKeys()
    ensures GrantKey(["a", "b", "z"]) != GrantKey(["b", "a"])
    ensures GrantKey(["a", "b", "z"]) != GrantKey(["z"])
    ensures GrantKey(["b", "a"]) != GrantKey(["z"])
  {
    GrantKeyIff(["a", "b", "z"], ["b", "a"]);
    GrantKeyIff(["a", "b", "z"], ["z"]);
    GrantKeyIff(["b", "a"], ["z"]);
    assert |multiset(["a", "b", "z"])| == 3 && |multiset(["b", "a"])| == 2 && |multiset(["z"])| == 1;
  }

  lemma RemovableApart(i: nat, j: nat)
    requires i < j < 3
    ensures var cfg := RemovableConfig();
            GrantKey(cfg.classifications[i].grants) != GrantKey(cfg.classifications[j].grants)
  {
    RemovableKeys();
  }

  lemma RemovableOwn()
    ensures var cfg := RemovableConfig();
            && (forall c :: c in cfg.classifications ==> c.value in c.grants)
            && (forall c, g :: c in cfg.classifications && g in c.grants ==> g in Declared(cfg))
  {
    RemovableValues();
  }

  lemma RemovableGrants()
    ensures GrantsDeclared(RemovableConfig())
  {
    var cfg := RemovableConfig();
    RemovableValues();
    RemovableOwn();
    assert "a"[0] != "b"[0] && "a"[0] != "z"[0] && "b"[0] != "z"[0];
    forall i, j | 0 <= i < j < 3
      ensures GrantKey(cfg.classifications[i].grants) != GrantKey(cfg.classifications[j].grants)
    {
      RemovableApart(i, j);
    }
  }

  lemma RemovableNames()
    ensures NamesApart(RemovableConfig())
  {
    RemovableValues();
    assert RemovableConfig().profiles == ["p"] && "p"[0] != "a"[0] && "p"[0] != "b"[0] && "p"[0] != "z"[0];
  }

  lemma RemovablePlanes()
    ensures PlanesApart(RemovableConfig()) && GroupsDeclared(RemovableConfig())
  {
  }

  lemma RemovableIsPublishable()
    ensures Publishable(RemovableConfig())
  {
    var cs := RemovableConfig().classifications;
    RemovableGrants();
    RemovableNames();
    RemovablePlanes();
    assert RemovableConfig().profiles == ["p"] && Serves(cs[0], "p") && cs[0] in cs;
  }

  lemma WithoutLast(front: seq<string>, x: string)
    requires x !in front
    ensures Without(front + [x], x) == front && Without(front, x) == front
  {
    FilterConcat(g => g != x, front, [x]);
    FilterAll(g => g != x, front);
    FilterNone(g => g != x, [x]);
  }

  lemma RemovableLists()
    ensures multiset(Without(["a", "b", "z"], "z")) == multiset(Without(["b", "a"], "z"))
  {
    assert "a"[0] != "z"[0] && "b"[0] != "z"[0];
    WithoutLast(["a", "b"], "z");
    WithoutLast(["b", "a"], "z");
    assert ["a", "b", "z"] == ["a", "b"] + ["z"];
  }

  lemma RemovableAlike()
    ensures AlikeWithout(RemovableConfig(), "z")
  {
    var cs := RemovableConfig().classifications;
    RemovableLists();
    assert "a"[0] != "z"[0] && "b"[0] != "z"[0] && "a"[0] != "b"[0];
    assert cs[0].grants == ["a", "b", "z"] && cs[1].grants == ["b", "a"];
    assert OthersAlike(cs[0], cs[1], "z");
    assert cs[0] in cs && cs[1] in cs;
  }

  /** What is published once `z`'s stack is gone. */
  function RemainingValues(): seq<Option<Row>> {
    var cfg := RemovableConfig();
    [Some(RowOf(cfg, cfg.classifications[0])), Some(RowOf(cfg, cfg.classifications[1]))]
  }

  lemma ReadableTwo(a: Row, b: Row)
    ensures Readable([Some(a), Some(b)]) == [a, b]
  {
    var values := [Some(a), Some(b)];
    assert values[..1] == [Some(a)] && [Some(a)][..0] == [];
    assert Readable([Some(a)]) == [a];
  }

  lemma RemainingIsAllBut()
    ensures AllBut(RemovableConfig(), "z", RemainingValues())
  {
    var cfg := RemovableConfig();
    var rows := RowsOf(cfg);
    ReadableTwo(rows[0], rows[1]);
    assert ValueOf(rows[0]) == "a" && ValueOf(rows[1]) == "b" && ValueOf(rows[2]) == "z";
    assert "a"[0] != "z"[0] && "b"[0] != "z"[0];
    assert rows == [rows[0], rows[1], rows[2]];
  }

  /**
   * A valid set of three whose third stack is removed: the other two now grant one list, and the registry refuses both.
   */
  lemma RemovalRefuses()
    ensures Publishable(RemovableConfig()) && AllBut(RemovableConfig(), "z", RemainingValues())
    ensures AdmissionOfRows(Kept(RemainingValues())).Some? && RegistryReads(RemainingValues(), true).None?
  {
    RemovableIsPublishable();
    RemovableAlike();
    RemovableValues();
    RemainingIsAllBut();
    RemovalRefusedIff(RemovableConfig(), "z", RemainingValues());
  }
}
