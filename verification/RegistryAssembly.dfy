/**
 * The set a running handler assembles from the rows the stacks publish, and exactly when it refuses the whole of it
 * (backend/lib/config/profiles.ts). The trigger installs what it can of the same rows (`RowAssembly`).
 */
module RegistryAssembly {
  import opened Prelude
  import opened Sorting
  import opened Registry
  import opened Admission
  import opened RowAssembly

  /**
   * The set installed from the published values, or none. `rest` is the verdict of the checks on fields not modelled.
   */
  function RegistryReads(values: seq<Option<Row>>, rest: bool): Option<Config> {
    var cfg := ConfigOfRows(Kept(values));
    if AllUsable(Kept(values)) && WellFormed(cfg) && rest then Some(cfg) else None
  }

  // ---------------------------------------------------------------- what is wrong with a set of rows

  /** What is left of a row's grants once those no row declares are gone. */
  function GrantsLeft(r: Row, rows: seq<Row>): seq<string> {
    Installed(r, ValuesOf(rows)).grants
  }

  predicate OmitsItself(rows: seq<Row>) {
    exists r :: r in rows && !r.classification.adminPlane && ValueOf(r) !in r.classification.grants
  }

  /** Two rows grant one list once the dangling grants are gone. */
  predicate TwoAlike(rows: seq<Row>) {
    exists i, j :: 0 <= i < j < |rows| && GrantKey(GrantsLeft(rows[i], rows)) == GrantKey(GrantsLeft(rows[j], rows))
  }

  predicate PlaneGranted(rows: seq<Row>) {
    exists r, p :: r in rows && p in rows && GrantsPlane(r, p)
  }

  predicate GrantsPlane(r: Row, p: Row) {
    !r.classification.adminPlane && p.classification.adminPlane && ValueOf(p) in r.classification.grants
  }

  predicate GrantedByAnother(r: Row, rows: seq<Row>) {
    exists d :: d in rows && ValueOf(d) != ValueOf(r) && ValueOf(r) in GrantsLeft(d, rows)
  }

  predicate ClearedFor(rows: seq<Row>, v: string) {
    exists e :: e in MergedClearance(rows) && e.1 == v
  }

  predicate OutsideReached(rows: seq<Row>) {
    exists r :: r in rows && r.classification.outside && OutsideAmiss(r, rows)
  }

  predicate OutsideAmiss(r: Row, rows: seq<Row>) {
    || r.classification.adminPlane || GrantsLeft(r, rows) != [ValueOf(r)]
    || GrantedByAnother(r, rows) || ClearedFor(rows, ValueOf(r))
  }

  /** A group clears for, or requires, a classification no row declares; or does both. */
  predicate GroupAmiss(rows: seq<Row>) {
    || (exists e :: e in MergedClearance(rows) && !Carries(rows, e.1))
    || (exists g :: g in MergedMembership(rows)
          && (!Carries(rows, MergedMembership(rows)[g]) || g in Keys(MergedClearance(rows))))
  }

  predicate ProfileAmiss(rows: seq<Row>) {
    || (exists r :: r in rows && r.classification.profile !in ProfilesOf(rows))
    || (exists p :: p in ProfilesOf(rows) && (Carries(rows, p) || "alt-" <= p))
  }

  predicate AliasTaken(rows: seq<Row>) {
    || (exists r :: r in rows && !Distinct(r.classification.aliases))
    || (exists r, a :: r in rows && a in r.classification.aliases && Carries(rows, a))
    || (exists i, j, a ::
          0 <= i < j < |rows| && a in rows[i].classification.aliases && a in rows[j].classification.aliases)
  }

  predicate Flawed(rows: seq<Row>) {
    || rows == [] || ProfilesOf(rows) == []
    || OmitsItself(rows) || TwoAlike(rows) || PlaneGranted(rows) || OutsideReached(rows)
    || GroupAmiss(rows) || ProfileAmiss(rows) || AliasTaken(rows)
  }

  // ---------------------------------------------------------------- the kept rows are in order

  lemma {:induction false} FirstsSorted(rows: seq<Row>)
    requires Sorted(RowLe, rows)
    ensures Sorted(RowLe, Firsts(rows))
  {
    if rows != [] {
      var rest, last := rows[..|rows| - 1], rows[|rows| - 1];
      FirstsSorted(rest);
      FirstsDistinct(rest);
      forall k | k in Firsts(rest) ensures RowLe(k, last) {
        var i :| 0 <= i < |rest| && rest[i] == k;
        assert RowLe(rows[i], rows[|rows| - 1]);
      }
    }
  }

  lemma SortOfSorted(rows: seq<Row>)
    requires Sorted(RowLe, rows) && DistinctValues(rows)
    ensures Sort(RowLe, rows) == rows
  {
    RowOrders();
    SortSorted(RowLe, rows);
    SortMultiset(RowLe, rows);
    SortElems(RowLe, rows);
    var sorted := Sort(RowLe, rows);
    forall x, y | x in sorted && y in sorted && RowLe(x, y) && RowLe(y, x) ensures x == y {
      assert x in Elems(rows) && y in Elems(rows);
      var i :| 0 <= i < |rows| && rows[i] == x;
      var j :| 0 <= j < |rows| && rows[j] == y;
    }
    SortedUnique(RowLe, sorted, rows);
  }

  predicate Ordered(rows: seq<Row>) {
    DistinctValues(rows) && Sort(RowLe, rows) == rows
  }

  lemma KeptOrdered(values: seq<Option<Row>>)
    ensures Ordered(Kept(values))
  {
    RowOrders();
    SortSorted(RowLe, Readable(values));
    FirstsSorted(Sort(RowLe, Readable(values)));
    FirstsDistinct(Sort(RowLe, Readable(values)));
    SortOfSorted(Kept(values));
  }

  // ---------------------------------------------------------------- clause by clause

  /** The set is these rows', item by item. */
  predicate Assembles(cfg: Config, rows: seq<Row>) {
    && DistinctValues(rows) && Declared(cfg) == ValuesOf(rows)
    && (forall i :: 0 <= i < |rows| ==> cfg.classifications[i] == Installed(rows[i], ValuesOf(rows)))
    && cfg.profiles == ProfilesOf(rows)
    && cfg.groupClearance == MergedClearance(rows)
    && cfg.membershipGroups == MergedMembership(rows)
  }

  lemma RowsAssemble(rows: seq<Row>)
    requires Ordered(rows)
    ensures Assembles(ConfigOfRows(rows), rows)
  {
    ConfigDeclares(rows);
  }

  lemma InstalledIn(cfg: Config, rows: seq<Row>, r: Row)
    requires Assembles(cfg, rows) && r in rows
    ensures Installed(r, ValuesOf(rows)) in cfg.classifications
  {
    var i :| 0 <= i < |rows| && rows[i] == r;
    assert cfg.classifications[i] in cfg.classifications;
  }

  lemma RowBehind(cfg: Config, rows: seq<Row>, c: Classification) returns (r: Row)
    requires Assembles(cfg, rows) && c in cfg.classifications
    ensures r in rows && c == Installed(r, ValuesOf(rows))
  {
    r := rows[PlaceOf(cfg, c)];
  }

  lemma DeclaredCarried(cfg: Config, rows: seq<Row>)
    requires Assembles(cfg, rows)
    ensures forall v :: v in Declared(cfg) <==> Carries(rows, v)
  {
    forall v ensures v in Declared(cfg) <==> Carries(rows, v) { CarriesValue(rows, v); }
  }

  lemma InstalledGrants(r: Row, rows: seq<Row>)
    requires r in rows
    ensures ValueOf(r) in ValuesOf(rows)
    ensures forall g :: g in GrantsLeft(r, rows) ==> g in ValuesOf(rows)
    ensures ValueOf(r) in GrantsLeft(r, rows) <==> r.classification.adminPlane || ValueOf(r) in r.classification.grants
  {
    CarriesValue(rows, ValueOf(r));
  }

  lemma GrantsHere(cfg: Config, rows: seq<Row>, c: Classification)
    requires Assembles(cfg, rows) && c in cfg.classifications
    ensures forall g :: g in c.grants ==> g in Declared(cfg)
    ensures !OmitsItself(rows) ==> c.value in c.grants
  {
    var r := RowBehind(cfg, rows, c);
    InstalledGrants(r, rows);
  }

  lemma OmittedHere(cfg: Config, rows: seq<Row>)
    requires Assembles(cfg, rows) && OmitsItself(rows)
    ensures !GrantsDeclared(cfg)
  {
    var r :| r in rows && !r.classification.adminPlane && ValueOf(r) !in r.classification.grants;
    InstalledIn(cfg, rows, r);
    InstalledGrants(r, rows);
  }

  /** That grants are declared, and the values distinct, the assembly makes automatic. */
  lemma GrantsClause(cfg: Config, rows: seq<Row>)
    requires Assembles(cfg, rows)
    ensures GrantsDeclared(cfg) <==> !OmitsItself(rows) && !TwoAlike(rows)
  {
    KeysClause(cfg, rows);
    if OmitsItself(rows) {
      OmittedHere(cfg, rows);
    } else {
      forall c | c in cfg.classifications
        ensures c.value in c.grants && forall g :: g in c.grants ==> g in Declared(cfg)
      {
        GrantsHere(cfg, rows, c);
      }
    }
  }

  lemma KeysClause(cfg: Config, rows: seq<Row>)
    requires Assembles(cfg, rows)
    ensures TwoAlike(rows) <==> !(forall i, j :: 0 <= i < j < |cfg.classifications| ==>
                                    GrantKey(cfg.classifications[i].grants) != GrantKey(cfg.classifications[j].grants))
  {
    forall i | 0 <= i < |rows| ensures cfg.classifications[i].grants == GrantsLeft(rows[i], rows) {}
  }

  /** That a plane grants itself alone the assembly makes automatic. */
  lemma PlanesClause(cfg: Config, rows: seq<Row>)
    requires Assembles(cfg, rows)
    ensures PlanesAlone(cfg) <==> !PlaneGranted(rows)
  {
    if PlaneGranted(rows) {
      var r, p :| r in rows && p in rows && GrantsPlane(r, p);
      PlaneGrantedHere(cfg, rows, r, p);
    } else {
      PlanesUngranted(cfg, rows);
    }
  }

  lemma PlanesUngranted(cfg: Config, rows: seq<Row>)
    requires Assembles(cfg, rows) && !PlaneGranted(rows)
    ensures PlanesAlone(cfg)
  {
    forall c, d | c in cfg.classifications && d in cfg.classifications && !c.adminPlane && d.adminPlane
      ensures d.value !in c.grants
    {
      var r := RowBehind(cfg, rows, c);
      var p := RowBehind(cfg, rows, d);
      assert !GrantsPlane(r, p);
    }
  }

  lemma PlaneGrantedHere(cfg: Config, rows: seq<Row>, r: Row, p: Row)
    requires Assembles(cfg, rows) && r in rows && p in rows
    requires GrantsPlane(r, p)
    ensures !PlanesAlone(cfg)
  {
    InstalledIn(cfg, rows, r);
    InstalledIn(cfg, rows, p);
    CarriesValue(rows, ValueOf(p));
    var c, d := Installed(r, ValuesOf(rows)), Installed(p, ValuesOf(rows));
    assert c in cfg.classifications && d in cfg.classifications && d.value in c.grants;
  }

  lemma OutsideClause(cfg: Config, rows: seq<Row>)
    requires Assembles(cfg, rows)
    ensures OutsideAlone(cfg) <==> !OutsideReached(rows)
  {
    if !OutsideReached(rows) { OutsideUnreached(cfg, rows); }
    if r :| r in rows && r.classification.outside && OutsideAmiss(r, rows) { OutsideReachedHere(cfg, rows, r); }
  }

  lemma OutsideUnreached(cfg: Config, rows: seq<Row>)
    requires Assembles(cfg, rows) && !OutsideReached(rows)
    ensures OutsideAlone(cfg)
  {
    forall c | c in cfg.classifications && c.outside
      ensures !c.adminPlane && c.grants == [c.value]
      ensures forall e :: e in cfg.groupClearance ==> e.1 != c.value
    {
      var r := RowBehind(cfg, rows, c);
      assert !OutsideAmiss(r, rows);
    }
    forall c, d | c in cfg.classifications && d in cfg.classifications && c.outside && c != d
      ensures c.value !in d.grants
    {
      OutsideUngranted(cfg, rows, c, d);
    }
  }

  lemma OutsideUngranted(cfg: Config, rows: seq<Row>, c: Classification, d: Classification)
    requires Assembles(cfg, rows) && !OutsideReached(rows)
    requires c in cfg.classifications && d in cfg.classifications && c.outside && c != d
    ensures c.value !in d.grants
  {
    var r := RowBehind(cfg, rows, c);
    var q := RowBehind(cfg, rows, d);
    assert !OutsideAmiss(r, rows);
    UngrantedByOthers(rows, r, q);
  }

  lemma UngrantedByOthers(rows: seq<Row>, r: Row, q: Row)
    requires DistinctValues(rows) && r in rows && q in rows && r != q && !GrantedByAnother(r, rows)
    ensures ValueOf(r) !in GrantsLeft(q, rows)
  {
    if ValueOf(r) == ValueOf(q) { SameValueSameRow(rows, r, q); }
  }

  lemma SameValueSameRow(rows: seq<Row>, r: Row, q: Row)
    requires DistinctValues(rows) && r in rows && q in rows && ValueOf(r) == ValueOf(q)
    ensures r == q
  {
    var i :| 0 <= i < |rows| && rows[i] == r;
    var j :| 0 <= j < |rows| && rows[j] == q;
  }

  lemma OutsideReachedHere(cfg: Config, rows: seq<Row>, r: Row)
    requires Assembles(cfg, rows) && r in rows && r.classification.outside && OutsideAmiss(r, rows)
    ensures !OutsideAlone(cfg)
  {
    InstalledIn(cfg, rows, r);
    var c := Installed(r, ValuesOf(rows));
    assert c in cfg.classifications && c.outside && c.value == ValueOf(r);
    if d :| d in rows && ValueOf(d) != ValueOf(r) && ValueOf(r) in GrantsLeft(d, rows) { InstalledIn(cfg, rows, d); }
  }

  lemma KeysApart(cfg: Config, rows: seq<Row>)
    requires Assembles(cfg, rows)
    ensures forall i, j :: 0 <= i < j < |cfg.groupClearance| ==> cfg.groupClearance[i].0 != cfg.groupClearance[j].0
  {
    MergedKeysDistinct(rows);
    forall i, j | 0 <= i < j < |cfg.groupClearance| ensures cfg.groupClearance[i].0 != cfg.groupClearance[j].0 {
      assert Keys(cfg.groupClearance)[i] != Keys(cfg.groupClearance)[j];
    }
  }

  /** That a group clears once the assembly makes automatic. */
  lemma GroupsClause(cfg: Config, rows: seq<Row>)
    requires Assembles(cfg, rows)
    ensures GroupsDeclared(cfg) <==> !GroupAmiss(rows)
  {
    DeclaredCarried(cfg, rows);
    KeysApart(cfg, rows);
    forall g | g in cfg.membershipGroups
      ensures Lookup(cfg.groupClearance, g).None? <==> g !in Keys(cfg.groupClearance)
    {
      KeyedSome(cfg.groupClearance, g);
    }
  }

  lemma KeyedSome(entries: Entries, key: string)
    ensures key in Keys(entries) <==> exists e :: e in entries && e.0 == key
  {
    if key in Keys(entries) {
      var i :| 0 <= i < |entries| && Keys(entries)[i] == key;
      assert entries[i] in entries;
    }
    if e :| e in entries && e.0 == key {
      var i :| 0 <= i < |entries| && entries[i] == e;
      assert Keys(entries)[i] == key;
    }
  }

  lemma ProfilesClause(cfg: Config, rows: seq<Row>)
    requires Assembles(cfg, rows)
    ensures ProfilesApart(cfg) <==> !ProfileAmiss(rows)
  {
    DeclaredCarried(cfg, rows);
    forall r | r in rows && r.classification.profile !in ProfilesOf(rows) ensures !ProfilesApart(cfg) {
      InstalledIn(cfg, rows, r);
    }
    if !ProfileAmiss(rows) {
      forall c | c in cfg.classifications ensures c.profile in cfg.profiles { var r := RowBehind(cfg, rows, c); }
    }
  }

  lemma AliasesClause(cfg: Config, rows: seq<Row>)
    requires Assembles(cfg, rows)
    ensures AliasesApart(cfg) <==> !AliasTaken(rows)
  {
    DeclaredCarried(cfg, rows);
    forall i | 0 <= i < |rows| ensures cfg.classifications[i].aliases == rows[i].classification.aliases {}
    if AliasesApart(cfg) {
      forall r | r in rows
        ensures Distinct(r.classification.aliases)
        ensures forall a :: a in r.classification.aliases ==> !Carries(rows, a)
      {
        InstalledIn(cfg, rows, r);
      }
    }
    if !AliasTaken(rows) {
      forall c | c in cfg.classifications
        ensures Distinct(c.aliases)
        ensures forall a :: a in c.aliases ==> a !in Declared(cfg)
      {
        var r := RowBehind(cfg, rows, c);
      }
    }
  }

  lemma FlawedIff(cfg: Config, rows: seq<Row>)
    requires Assembles(cfg, rows)
    ensures WellFormed(cfg) <==> !Flawed(rows)
  {
    GrantsClause(cfg, rows);
    PlanesClause(cfg, rows);
    OutsideClause(cfg, rows);
    GroupsClause(cfg, rows);
    ProfilesClause(cfg, rows);
    AliasesClause(cfg, rows);
  }

  /**
   * WHEN THE REGISTRY REFUSES WHAT IS PUBLISHED. The whole set is refused exactly when some kept row's grants are no
   * list, the kept rows are flawed after each item is dropped that can be, or another check fails; then the trigger
   * still installs it unless a row's grants are no list. Where both install, the trigger's data is the registry's.
   */
  lemma RefusedIff(values: seq<Option<Row>>, rest: bool)
    ensures RegistryReads(values, rest).None? <==> !AllUsable(Kept(values)) || Flawed(Kept(values)) || !rest
    ensures AdmissionOfRows(Kept(values)).None? <==> !AllUsable(Kept(values))
    ensures RegistryReads(values, rest).Some? ==>
      AdmissionOfRows(Kept(values)) == Some(ClassificationAdmission(RegistryReads(values, rest).value))
  {
    var rows := Kept(values);
    KeptOrdered(values);
    RowsAssemble(rows);
    FlawedIff(ConfigOfRows(rows), rows);
    TriggerMirrorsRegistry(rows);
  }
}
