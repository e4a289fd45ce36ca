/**
 * The rows a deployment's stacks publish, assembled by a trigger that cannot import the registry
 * (backend/lambda/cognito-triggers/registry-admission.js), against the registry those rows declare
 * (backend/lib/config/profiles.ts, backend/lib/classification-admission.ts).
 */
module RowAssembly {
  import opened Prelude
  import opened Sorting
  import opened Registry
  import opened Admission

  /** One published row. `declaresGrants` is false where the row's grants are not a list; profiles are their names. */
  datatype Row = Row(
    classification: Classification,
    declaresGrants: bool,
    groupClearance: Entries,
    membershipGroups: map<string, string>,
    profiles: seq<string>)

  /** What the assembly left out, and why. */
  datatype RowDrop =
    | UnreadableRow(index: nat)
    | DuplicateRow(value: string)
    | DanglingGrant(value: string, grant: string)

  function ValueOf(r: Row): string {
    r.classification.value
  }

  predicate RowLe(a: Row, b: Row) {
    StringLe(ValueOf(a), ValueOf(b))
  }

  lemma RowOrders()
    ensures Orders(RowLe)
    ensures forall a, b :: RowLe(a, b) && RowLe(b, a) ==> ValueOf(a) == ValueOf(b)
  {
    StringOrders();
    forall a: Row, b: Row
      ensures RowLe(a, b) || RowLe(b, a)
      ensures RowLe(a, b) && RowLe(b, a) ==> ValueOf(a) == ValueOf(b)
    {
      StringTotal(ValueOf(a), ValueOf(b));
    }
    forall a: Row, b: Row, c: Row | RowLe(a, b) && RowLe(b, c) ensures RowLe(a, c) {
      StringTransitive(ValueOf(a), ValueOf(b), ValueOf(c));
    }
  }

  // ---------------------------------------------------------------- rowsOfValues

  /** The rows that could be read, in the order they were published. `None` is a value that could not be. */
  function Readable(values: seq<Option<Row>>): seq<Row> {
    if values == [] then []
    else
      var v := values[|values| - 1];
      Readable(values[..|values| - 1]) + (if v.Some? then [v.value] else [])
  }

  function Unreadable(values: seq<Option<Row>>): seq<RowDrop> {
    if values == [] then []
    else
      Unreadable(values[..|values| - 1])
      + (if values[|values| - 1].None? then [UnreadableRow(|values| - 1)] else [])
  }

  predicate Carries(rows: seq<Row>, value: string) {
    exists k :: k in rows && ValueOf(k) == value
  }

  /** The first row of each value. */
  function Firsts(rows: seq<Row>): seq<Row> {
    if rows == [] then []
    else
      var before, last := Firsts(rows[..|rows| - 1]), rows[|rows| - 1];
      if Carries(before, ValueOf(last)) then before else before + [last]
  }

  function Repeats(rows: seq<Row>): seq<RowDrop> {
    if rows == [] then []
    else
      var last := rows[|rows| - 1];
      Repeats(rows[..|rows| - 1])
      + (if Carries(Firsts(rows[..|rows| - 1]), ValueOf(last)) then [DuplicateRow(ValueOf(last))] else [])
  }

  function DanglingOf(grants: seq<string>, present: set<string>, value: string): seq<RowDrop> {
    if grants == [] then []
    else
      var g := grants[|grants| - 1];
      DanglingOf(grants[..|grants| - 1], present, value) + (if g !in present then [DanglingGrant(value, g)] else [])
  }

  predicate ChecksGrants(r: Row) {
    !r.classification.adminPlane && r.declaresGrants
  }

  function Dangling(rows: seq<Row>, present: set<string>): seq<RowDrop> {
    if rows == [] then []
    else
      var r := rows[|rows| - 1];
      Dangling(rows[..|rows| - 1], present)
      + (if ChecksGrants(r) then DanglingOf(r.classification.grants, present, ValueOf(r)) else [])
  }

  function ValuesOf(rows: seq<Row>): (r: seq<string>)
    ensures |r| == |rows| && forall i :: 0 <= i < |rows| ==> r[i] == ValueOf(rows[i])
  {
    Map(ValueOf, rows)
  }

  function Kept(values: seq<Option<Row>>): seq<Row> {
    Firsts(Sort(RowLe, Readable(values)))
  }

  function Dropped(values: seq<Option<Row>>): seq<RowDrop> {
    Unreadable(values) + Repeats(Sort(RowLe, Readable(values))) + Dangling(Kept(values), Elems(ValuesOf(Kept(values))))
  }

  method ReadRows(values: seq<Option<Row>>) returns (read: seq<Row>, dropped: seq<RowDrop>)
    ensures read == Readable(values)
    ensures dropped == Unreadable(values)
  {
    read, dropped := [], [];
    for i := 0 to |values|
      invariant read == Readable(values[..i])
      invariant dropped == Unreadable(values[..i])
    {
      assert values[..i + 1][..i] == values[..i];
      if values[i].Some? { read := read + [values[i].value]; } else { dropped := dropped + [UnreadableRow(i)]; }
    }
    assert values[..|values|] == values;
  }

  method KeepFirsts(read: seq<Row>) returns (rows: seq<Row>, dropped: seq<RowDrop>)
    ensures rows == Firsts(read)
    ensures dropped == Repeats(read)
  {
    rows, dropped := [], [];
    for i := 0 to |read|
      invariant rows == Firsts(read[..i])
      invariant dropped == Repeats(read[..i])
    {
      assert read[..i + 1][..i] == read[..i];
      if Carries(rows, ValueOf(read[i])) {
        dropped := dropped + [DuplicateRow(ValueOf(read[i]))];
      } else {
        rows := rows + [read[i]];
      }
    }
    assert read[..|read|] == read;
  }

  method ReportDangling(rows: seq<Row>) returns (dropped: seq<RowDrop>)
    ensures dropped == Dangling(rows, Elems(ValuesOf(rows)))
  {
    dropped := [];
    var present := Elems(ValuesOf(rows));
    for i := 0 to |rows|
      invariant dropped == Dangling(rows[..i], present)
    {
      assert rows[..i + 1][..i] == rows[..i];
      var r := rows[i];
      if !ChecksGrants(r) { continue; }
      var grants := r.classification.grants;
      ghost var before := dropped;
      for j := 0 to |grants|
        invariant dropped == before + DanglingOf(grants[..j], present, ValueOf(r))
      {
        assert grants[..j + 1][..j] == grants[..j];
        if grants[j] !in present { dropped := dropped + [DanglingGrant(ValueOf(r), grants[j])]; }
      }
      assert grants[..|grants|] == grants;
    }
    assert rows[..|rows|] == rows;
  }

  method RowsOfValues(values: seq<Option<Row>>) returns (rows: seq<Row>, dropped: seq<RowDrop>)
    ensures rows == Kept(values)
    ensures dropped == Dropped(values)
  {
    var read, unreadable := ReadRows(values);
    read := Sort(RowLe, read);
    var repeats;
    rows, repeats := KeepFirsts(read);
    var dangling := ReportDangling(rows);
    dropped := unreadable + repeats + dangling;
  }

  // ---------------------------------------------------------------- every value accounted for

  lemma {:induction false} ReadableCount(values: seq<Option<Row>>)
    ensures |values| == |Readable(values)| + |Unreadable(values)|
  {
    if values != [] { ReadableCount(values[..|values| - 1]); }
  }

  /** Each unreadable value is reported by its place, once. */
  lemma {:induction false} UnreadableExactly(values: seq<Option<Row>>, i: nat)
    ensures multiset(Unreadable(values))[UnreadableRow(i)] == if i < |values| && values[i].None? then 1 else 0
  {
    if values != [] { UnreadableExactly(values[..|values| - 1], i); }
  }

  predicate DistinctValues(rows: seq<Row>) {
    forall i, j :: 0 <= i < j < |rows| ==> ValueOf(rows[i]) != ValueOf(rows[j])
  }

  lemma CarriesSnoc(rows: seq<Row>, last: Row, v: string)
    ensures Carries(rows + [last], v) <==> Carries(rows, v) || ValueOf(last) == v
  {
    assert last in rows + [last];
    assert forall k :: k in rows + [last] <==> k in rows || k == last;
  }

  lemma {:induction false} FirstsDistinct(rows: seq<Row>)
    ensures DistinctValues(Firsts(rows))
    ensures forall r :: r in Firsts(rows) ==> r in rows
    ensures forall v :: Carries(Firsts(rows), v) <==> Carries(rows, v)
    ensures |rows| == |Firsts(rows)| + |Repeats(rows)|
  {
    if rows != [] {
      var rest, last := rows[..|rows| - 1], rows[|rows| - 1];
      FirstsDistinct(rest);
      assert rows == rest + [last];
      forall v ensures Carries(Firsts(rows), v) <==> Carries(rows, v) {
        CarriesSnoc(rest, last, v);
        CarriesSnoc(Firsts(rest), last, v);
      }
      if !Carries(Firsts(rest), ValueOf(last)) { AppendDistinct(Firsts(rest), last); }
    }
  }

  lemma AppendDistinct(rows: seq<Row>, last: Row)
    requires DistinctValues(rows) && !Carries(rows, ValueOf(last))
    ensures DistinctValues(rows + [last])
  {
    forall i | 0 <= i < |rows| ensures ValueOf(rows[i]) != ValueOf(last) { assert rows[i] in rows; }
  }

  /** A value's reports are its rows beyond the first. */
  lemma {:induction false} RepeatsExactly(rows: seq<Row>, v: string)
    ensures multiset(Repeats(rows))[DuplicateRow(v)] + (if Carries(rows, v) then 1 else 0)
            == |Filter(r => ValueOf(r) == v, rows)|
  {
    if rows != [] {
      var rest, last := rows[..|rows| - 1], rows[|rows| - 1];
      RepeatsExactly(rest, v);
      FirstsDistinct(rest);
      assert rows == rest + [last];
      FilterConcat(r => ValueOf(r) == v, rest, [last]);
      assert Carries(rows, v) <==> Carries(rest, v) || ValueOf(last) == v;
    }
  }

  /** A stable sort keeps rows of one value in the order they were published. */
  lemma {:induction false} InsertStable(x: Row, s: seq<Row>, v: string)
    ensures Filter(r => ValueOf(r) == v, Insert(RowLe, x, s)) == Filter(r => ValueOf(r) == v, [x] + s)
  {
    if !(s == [] || RowLe(x, s[0])) {
      InsertStable(x, s[1..], v);
      StringTotal(ValueOf(x), ValueOf(s[0]));
      assert ([x] + s)[1..] == s && ([x] + s[1..])[1..] == s[1..];
    }
  }

  lemma {:induction false} SortStable(s: seq<Row>, v: string)
    ensures Filter(r => ValueOf(r) == v, Sort(RowLe, s)) == Filter(r => ValueOf(r) == v, s)
  {
    if s != [] {
      SortStable(s[1..], v);
      InsertStable(s[0], Sort(RowLe, s[1..]), v);
      assert ([s[0]] + Sort(RowLe, s[1..]))[1..] == Sort(RowLe, s[1..]);
    }
  }

  lemma {:induction false} FirstsAreFirst(rows: seq<Row>, r: Row)
    requires r in Firsts(rows)
    ensures |Filter(k => ValueOf(k) == ValueOf(r), rows)| > 0 && Filter(k => ValueOf(k) == ValueOf(r), rows)[0] == r
  {
    if rows != [] {
      var rest, last := rows[..|rows| - 1], rows[|rows| - 1];
      assert rows == rest + [last];
      FilterConcat(k => ValueOf(k) == ValueOf(r), rest, [last]);
      if r in Firsts(rest) {
        FirstsAreFirst(rest, r);
      } else {
        FirstsDistinct(rest);
        var f := Filter(k => ValueOf(k) == ValueOf(r), rest);
        if f != [] { assert f[0] in f; assert Carries(rest, ValueOf(r)); }
      }
    }
  }

  /**
   * EVERY PUBLISHED VALUE IS ACCOUNTED FOR. Each is unreadable and reported by its place, or a row: of each
   * classification the first published is kept, once, and each other is reported as a duplicate.
   */
  lemma EveryValueAccountedFor(values: seq<Option<Row>>)
    ensures DistinctValues(Kept(values))
    ensures |values| == |Kept(values)| + |Unreadable(values)| + |Repeats(Sort(RowLe, Readable(values)))|
    ensures forall i: nat ::
      multiset(Unreadable(values))[UnreadableRow(i)] == if i < |values| && values[i].None? then 1 else 0
    ensures forall v :: Carries(Kept(values), v) <==> Carries(Readable(values), v)
    ensures forall v :: multiset(Repeats(Sort(RowLe, Readable(values))))[DuplicateRow(v)]
                        + (if Carries(Kept(values), v) then 1 else 0)
                          == |Filter(r => ValueOf(r) == v, Readable(values))|
    ensures forall r :: r in Kept(values) ==>
      |Filter(k => ValueOf(k) == ValueOf(r), Readable(values))| > 0
        && Filter(k => ValueOf(k) == ValueOf(r), Readable(values))[0] == r
  {
    var read, sorted := Readable(values), Sort(RowLe, Readable(values));
    ReadableCount(values);
    SortElems(RowLe, read);
    FirstsDistinct(sorted);
    forall i: nat
      ensures multiset(Unreadable(values))[UnreadableRow(i)] == if i < |values| && values[i].None? then 1 else 0
    {
      UnreadableExactly(values, i);
    }
    forall v
      ensures Carries(Kept(values), v) <==> Carries(read, v)
      ensures multiset(Repeats(sorted))[DuplicateRow(v)] + (if Carries(Kept(values), v) then 1 else 0)
              == |Filter(r => ValueOf(r) == v, read)|
    {
      SameCarries(sorted, read, v);
      RepeatsExactly(sorted, v);
      SortStable(read, v);
    }
    forall r | r in Kept(values)
      ensures |Filter(k => ValueOf(k) == ValueOf(r), read)| > 0 && Filter(k => ValueOf(k) == ValueOf(r), read)[0] == r
    {
      FirstsAreFirst(sorted, r);
      SortStable(read, ValueOf(r));
    }
  }

  lemma SameCarries(a: seq<Row>, b: seq<Row>, v: string)
    requires Elems(a) == Elems(b)
    ensures Carries(a, v) <==> Carries(b, v)
  {
    if k :| k in a && ValueOf(k) == v { assert k in Elems(b); }
    if k :| k in b && ValueOf(k) == v { assert k in Elems(a); }
  }

  // ---------------------------------------------------------------- admissionOfRows

  /** Assigning one key of an object: in place when it is there, at the end when it is not. */
  function Assign<V>(entries: seq<(string, V)>, key: string, value: V): seq<(string, V)> {
    if entries == [] then [(key, value)]
    else if entries[0].0 == key then [(key, value)] + entries[1..]
    else [entries[0]] + Assign(entries[1..], key, value)
  }

  function AssignAll<V>(entries: seq<(string, V)>, more: seq<(string, V)>): seq<(string, V)> {
    if more == [] then entries
    else
      var last := more[|more| - 1];
      Assign(AssignAll(entries, more[..|more| - 1]), last.0, last.1)
  }

  function MergedClearance(rows: seq<Row>): Entries {
    if rows == [] then [] else AssignAll(MergedClearance(rows[..|rows| - 1]), rows[|rows| - 1].groupClearance)
  }

  function PlanesOf(rows: seq<Row>): seq<string> {
    ValuesOf(Filter((r: Row) => r.classification.adminPlane, rows))
  }

  /** The grants a row contributes: itself alone on the admin plane, what it declares elsewhere. */
  function RowGrants(r: Row): seq<string> {
    if r.classification.adminPlane then [ValueOf(r)] else r.classification.grants
  }

  function InOrder(order: seq<string>, values: seq<string>): seq<string> {
    Sort(ByIndex(order), Filter(v => v in order, values))
  }

  function RowPairs(rows: seq<Row>, order: seq<string>): (r: seq<(string, seq<string>)>)
    ensures |r| == |rows|
    ensures forall i :: 0 <= i < |rows| ==> r[i] == (ValueOf(rows[i]), InOrder(order, RowGrants(rows[i])))
  {
    seq(|rows|, i requires 0 <= i < |rows| => (ValueOf(rows[i]), InOrder(order, RowGrants(rows[i]))))
  }

  function RowsGrants(rows: seq<Row>): seq<(string, seq<string>)> {
    AssignAll([], RowPairs(rows, ValuesOf(rows)))
  }

  lemma {:induction false} AssignNew<V>(entries: seq<(string, V)>, key: string, value: V)
    requires forall e :: e in entries ==> e.0 != key
    ensures Assign(entries, key, value) == entries + [(key, value)]
  {
    if entries != [] { AssignNew(entries[1..], key, value); }
  }

  /** Assigning pairs of distinct keys to an empty object lists them as they came. */
  lemma {:induction false} AssignDistinct<V>(pairs: seq<(string, V)>)
    requires forall i, j :: 0 <= i < j < |pairs| ==> pairs[i].0 != pairs[j].0
    ensures AssignAll([], pairs) == pairs
  {
    if pairs != [] {
      var last := pairs[|pairs| - 1];
      AssignDistinct(pairs[..|pairs| - 1]);
      AssignNew(pairs[..|pairs| - 1], last.0, last.1);
    }
  }

  function Keys(entries: Entries): (r: seq<string>)
    ensures |r| == |entries| && forall i :: 0 <= i < |r| ==> r[i] == entries[i].0
  {
    Map((e: (string, string)) => e.0, entries)
  }

  lemma {:induction false} AssignKeys(entries: Entries, key: string, value: string)
    ensures Keys(Assign(entries, key, value)) ==
            if key in Keys(entries) then Keys(entries) else Keys(entries) + [key]
  {
    if entries != [] && entries[0].0 != key {
      AssignKeys(entries[1..], key, value);
      assert Keys(entries) == [entries[0].0] + Keys(entries[1..]);
    }
  }

  lemma {:induction false} AssignAllDistinct(entries: Entries, more: Entries)
    requires Distinct(Keys(entries))
    ensures Distinct(Keys(AssignAll(entries, more)))
  {
    if more != [] {
      var rest, last := more[..|more| - 1], more[|more| - 1];
      AssignAllDistinct(entries, rest);
      AssignKeys(AssignAll(entries, rest), last.0, last.1);
    }
  }

  /** Merging objects leaves one entry a key, whatever the rows repeat. */
  lemma {:induction false} MergedKeysDistinct(rows: seq<Row>)
    ensures Distinct(Keys(MergedClearance(rows)))
  {
    if rows != [] {
      var rest, last := rows[..|rows| - 1], rows[|rows| - 1];
      MergedKeysDistinct(rest);
      AssignAllDistinct(MergedClearance(rest), last.groupClearance);
    }
  }

  lemma KeyedLookup(entries: Entries, e: (string, string))
    requires Distinct(Keys(entries)) && e in entries
    ensures Lookup(entries, e.0) == Some(e.1)
  {
    var found := Lookup(entries, e.0);
    var i :| 0 <= i < |entries| && entries[i] == e;
    var j :| 0 <= j < |entries| && entries[j] == (e.0, found.value);
    assert Keys(entries)[i] == Keys(entries)[j];
  }

  /** A row the assembly can use: on the admin plane, or with its grants a list. */
  predicate Usable(r: Row) {
    r.classification.adminPlane || r.declaresGrants
  }

  predicate AllUsable(rows: seq<Row>) {
    forall k :: 0 <= k < |rows| ==> Usable(rows[k])
  }

  lemma AllUsableForgetsOrder(a: seq<Row>, b: seq<Row>)
    requires Elems(a) == Elems(b)
    ensures AllUsable(a) == AllUsable(b)
  {
    if AllUsable(a) { forall k | 0 <= k < |b| ensures Usable(b[k]) { assert b[k] in Elems(a); } }
    if AllUsable(b) { forall k | 0 <= k < |a| ensures Usable(a[k]) { assert a[k] in Elems(b); } }
  }

  function SortedAdmission(sorted: seq<Row>): Admission {
    var order := ValuesOf(sorted);
    var clearance := MergedClearance(sorted);
    Admission(clearance, RowsGrants(sorted), ExclusiveGroups(clearance, order, PlanesOf(sorted)), PlanesOf(sorted))
  }

  /** The admission data the rows assemble to, or nothing where a row's grants cannot be read as a list. */
  function AdmissionOfRows(rows: seq<Row>): Option<Admission> {
    if AllUsable(rows) then Some(SortedAdmission(Sort(RowLe, rows))) else None
  }

  method FillGrants(sorted: seq<Row>) returns (filled: seq<(string, seq<string>)>)
    ensures filled == RowsGrants(sorted)
  {
    var order := ValuesOf(sorted);
    filled := [];
    for i := 0 to |sorted|
      invariant filled == AssignAll([], RowPairs(sorted, order)[..i])
    {
      TakePair(RowPairs(sorted, order), i);
      filled := AssignNext(filled, RowPairs(sorted, order)[..i], ValueOf(sorted[i]),
        InOrder(order, RowGrants(sorted[i])));
    }
    assert RowPairs(sorted, order)[..|sorted|] == RowPairs(sorted, order);
  }

  lemma TakePair<V>(pairs: seq<(string, V)>, i: nat)
    requires i < |pairs|
    ensures pairs[..i + 1] == pairs[..i] + [(pairs[i].0, pairs[i].1)]
  {
  }

  /** One assignment more. */
  function AssignNext<V>(entries: seq<(string, V)>, ghost done: seq<(string, V)>, key: string,
      value: V): (r: seq<(string, V)>)
    requires entries == AssignAll([], done)
    ensures r == AssignAll([], done + [(key, value)])
  {
    assert (done + [(key, value)])[..|done|] == done;
    Assign(entries, key, value)
  }

  method MergeClearance(sorted: seq<Row>) returns (clearance: Entries)
    ensures clearance == MergedClearance(sorted)
  {
    clearance := [];
    for i := 0 to |sorted|
      invariant clearance == MergedClearance(sorted[..i])
    {
      assert sorted[..i + 1][..i] == sorted[..i];
      var more := sorted[i].groupClearance;
      ghost var before := clearance;
      for j := 0 to |more|
        invariant clearance == AssignAll(before, more[..j])
      {
        assert more[..j + 1][..j] == more[..j];
        clearance := Assign(clearance, more[j].0, more[j].1);
      }
      assert more[..|more|] == more;
    }
    assert sorted[..|sorted|] == sorted;
  }

  method AssembleAdmission(rows: seq<Row>) returns (adm: Option<Admission>)
    ensures adm == AdmissionOfRows(rows)
  {
    var sorted := Sort(RowLe, rows);
    SortElems(RowLe, rows);
    AllUsableForgetsOrder(rows, sorted);
    // Reading a row whose grants are not a list fails the whole assembly.
    if !AllUsable(sorted) { return None; }
    var grants := FillGrants(sorted);
    var clearance := MergeClearance(sorted);
    adm := Some(Admission(clearance, grants, ExclusiveGroups(clearance, ValuesOf(sorted), PlanesOf(sorted)),
      PlanesOf(sorted)));
  }

  /** WHAT THE ASSEMBLY FORGETS: the order distinct rows were published in. */
  lemma AdmissionForgetsOrder(a: seq<Row>, b: seq<Row>)
    requires DistinctValues(a) && multiset(a) == multiset(b)
    ensures AdmissionOfRows(a) == AdmissionOfRows(b)
  {
    RowOrders();
    MultisetElems(a, b);
    AllUsableForgetsOrder(a, b);
    forall x, y | x in a && y in a && RowLe(x, y) && RowLe(y, x) ensures x == y {
      var i :| 0 <= i < |a| && a[i] == x;
      var j :| 0 <= j < |a| && a[j] == y;
      assert ValueOf(a[i]) == ValueOf(a[j]);
    }
    SortForgetsOrder(RowLe, a, b);
  }

  // ---------------------------------------------------------------- dangling grants

  lemma {:induction false} DanglingOfSplits(grants: seq<string>, present: set<string>, value: string, g: string)
    ensures multiset(DanglingOf(grants, present, value))[DanglingGrant(value, g)]
            == if g in present then 0 else multiset(grants)[g]
  {
    if grants != [] {
      DanglingOfSplits(grants[..|grants| - 1], present, value, g);
      assert grants == grants[..|grants| - 1] + [grants[|grants| - 1]];
    }
  }

  lemma {:induction false} DanglingOfOthers(grants: seq<string>, present: set<string>, value: string, other: string,
      g: string)
    requires other != value
    ensures multiset(DanglingOf(grants, present, value))[DanglingGrant(other, g)] == 0
  {
    if grants != [] { DanglingOfOthers(grants[..|grants| - 1], present, value, other, g); }
  }

  lemma {:induction false} DanglingElsewhere(rows: seq<Row>, present: set<string>, v: string, g: string)
    requires !Carries(rows, v)
    ensures multiset(Dangling(rows, present))[DanglingGrant(v, g)] == 0
  {
    if rows != [] {
      var rest, r := rows[..|rows| - 1], rows[|rows| - 1];
      assert r in rows && rows == rest + [r];
      DanglingElsewhere(rest, present, v, g);
      if ChecksGrants(r) { DanglingOfOthers(r.classification.grants, present, ValueOf(r), v, g); }
    }
  }

  lemma {:induction false} DanglingAt(rows: seq<Row>, present: set<string>, k: nat, g: string)
    requires DistinctValues(rows) && k < |rows| && ChecksGrants(rows[k])
    ensures multiset(Dangling(rows, present))[DanglingGrant(ValueOf(rows[k]), g)]
            == if g in present then 0 else multiset(rows[k].classification.grants)[g]
  {
    var rest, r := rows[..|rows| - 1], rows[|rows| - 1];
    assert rows == rest + [r];
    if k == |rest| {
      DanglingElsewhere(rest, present, ValueOf(r), g);
      DanglingOfSplits(r.classification.grants, present, ValueOf(r), g);
    } else {
      DanglingAt(rest, present, k, g);
      if ChecksGrants(r) { DanglingOfOthers(r.classification.grants, present, ValueOf(r), ValueOf(rows[k]), g); }
    }
  }

  lemma {:induction false} FilterCount<T(!new)>(p: T -> bool, s: seq<T>, x: T)
    ensures multiset(Filter(p, s))[x] == if p(x) then multiset(s)[x] else 0
  {
    if s != [] {
      FilterCount(p, s[1..], x);
      assert s == [s[0]] + s[1..];
    }
  }

  lemma SameValues(a: seq<Row>, b: seq<Row>, v: string)
    requires Elems(a) == Elems(b)
    ensures v in ValuesOf(a) <==> v in ValuesOf(b)
  {
    SameCarries(a, b, v);
    CarriesValue(a, v);
    CarriesValue(b, v);
  }

  lemma CarriesValue(rows: seq<Row>, v: string)
    ensures Carries(rows, v) <==> v in ValuesOf(rows)
  {
    if v in ValuesOf(rows) {
      var i :| 0 <= i < |rows| && ValuesOf(rows)[i] == v;
      assert rows[i] in rows;
    }
    if k :| k in rows && ValueOf(k) == v {
      var i :| 0 <= i < |rows| && rows[i] == k;
      assert ValuesOf(rows)[i] == v;
    }
  }

  /**
   * THE DANGLING GRANTS ARE WHAT THE ADMISSION LEAVES OUT. Of each grant a kept row names, as many are reported
   * dangling as the admission data lacks.
   */
  lemma DanglingIsLeftOut(rows: seq<Row>, k: nat, g: string)
    requires DistinctValues(rows) && k < |rows| && ChecksGrants(rows[k])
    ensures multiset(rows[k].classification.grants)[g] ==
            multiset(InOrder(ValuesOf(Sort(RowLe, rows)), RowGrants(rows[k])))[g]
            + multiset(Dangling(rows, Elems(ValuesOf(rows))))[DanglingGrant(ValueOf(rows[k]), g)]
  {
    var order := ValuesOf(Sort(RowLe, rows));
    SortElems(RowLe, rows);
    SameValues(rows, Sort(RowLe, rows), g);
    DanglingAt(rows, Elems(ValuesOf(rows)), k, g);
    SortMultiset(ByIndex(order), Filter(v => v in order, RowGrants(rows[k])));
    FilterCount(v => v in order, RowGrants(rows[k]), g);
  }

  // ---------------------------------------------------------------- what the admission data says, row by row

  lemma GrantsAtPair(pairs: seq<(string, seq<string>)>, i: nat)
    requires i < |pairs| && forall j, k :: 0 <= j < k < |pairs| ==> pairs[j].0 != pairs[k].0
    ensures GrantsAt(pairs, pairs[i].0) == Some(pairs[i].1)
  {
    var r := GrantsAt(pairs, pairs[i].0);
    var j :| 0 <= j < |pairs| && pairs[j] == (pairs[i].0, r.value);
  }

  lemma SortedPairs(rows: seq<Row>)
    requires DistinctValues(rows)
    ensures RowsGrants(Sort(RowLe, rows)) == RowPairs(Sort(RowLe, rows), ValuesOf(Sort(RowLe, rows)))
    ensures DistinctValues(Sort(RowLe, rows))
  {
    SortDistinctValues(rows);
    AssignDistinct(RowPairs(Sort(RowLe, rows), ValuesOf(Sort(RowLe, rows))));
  }

  lemma PlaceInSorted(rows: seq<Row>, r: Row) returns (i: nat)
    requires r in rows
    ensures i < |Sort(RowLe, rows)| && Sort(RowLe, rows)[i] == r
  {
    SortElems(RowLe, rows);
    assert r in Elems(Sort(RowLe, rows));
    i :| 0 <= i < |Sort(RowLe, rows)| && Sort(RowLe, rows)[i] == r;
  }

  lemma PairOfRow(sorted: seq<Row>, i: nat)
    requires DistinctValues(sorted) && i < |sorted|
    ensures GrantsAt(RowPairs(sorted, ValuesOf(sorted)), ValueOf(sorted[i])) ==
            Some(InOrder(ValuesOf(sorted), RowGrants(sorted[i])))
  {
    GrantsAtPair(RowPairs(sorted, ValuesOf(sorted)), i);
  }

  lemma PairAt(rows: seq<Row>, r: Row)
    requires DistinctValues(rows) && AllUsable(rows) && r in rows
    ensures GrantsAt(AdmissionOfRows(rows).value.grants, ValueOf(r)) ==
            Some(InOrder(ValuesOf(Sort(RowLe, rows)), RowGrants(r)))
  {
    SortedPairs(rows);
    var i := PlaceInSorted(rows, r);
    PairOfRow(Sort(RowLe, rows), i);
  }

  lemma InOrderCount(order: seq<string>, values: seq<string>, g: string)
    ensures multiset(InOrder(order, values))[g] == if g in order then multiset(values)[g] else 0
  {
    SortMultiset(ByIndex(order), Filter(v => v in order, values));
    FilterCount(v => v in order, values, g);
  }

  lemma OrderCarries(rows: seq<Row>, g: string)
    ensures g in ValuesOf(Sort(RowLe, rows)) <==> Carries(rows, g)
  {
    SortElems(RowLe, rows);
    SameCarries(Sort(RowLe, rows), rows, g);
    CarriesValue(Sort(RowLe, rows), g);
  }

  /**
   * WHAT A ROW IS GRANTED: the plane itself alone; any other, of its own grants those some row declares, each as often.
   */
  lemma GrantsAssembled(rows: seq<Row>, r: Row, g: string)
    requires DistinctValues(rows) && AllUsable(rows) && r in rows
    ensures var granted := GrantsAt(AdmissionOfRows(rows).value.grants, ValueOf(r));
            && granted.Some?
            && multiset(granted.value)[g] ==
                 if r.classification.adminPlane then (if g == ValueOf(r) then 1 else 0)
                 else if Carries(rows, g) then multiset(r.classification.grants)[g] else 0
  {
    PairAt(rows, r);
    InOrderCount(ValuesOf(Sort(RowLe, rows)), RowGrants(r), g);
    OrderCarries(rows, g);
    assert r in rows && (g == ValueOf(r) ==> Carries(rows, g));
  }

  /** Rows assemble to data exactly unless one off the admin plane has no list for its grants. */
  lemma AssembledIff(rows: seq<Row>)
    ensures AdmissionOfRows(rows).None? <==>
      exists r :: r in rows && !r.classification.adminPlane && !r.declaresGrants
  {
    if !AllUsable(rows) {
      var k :| 0 <= k < |rows| && !Usable(rows[k]);
      assert rows[k] in rows;
    }
  }

  /** A plane's grants, and grants that are no list, are not reported dangling. */
  lemma {:induction false} UnlistedReportsNothing(rows: seq<Row>, present: set<string>, k: nat, g: string)
    requires DistinctValues(rows) && k < |rows|
    requires rows[k].classification.adminPlane || !rows[k].declaresGrants
    ensures multiset(Dangling(rows, present))[DanglingGrant(ValueOf(rows[k]), g)] == 0
  {
    var rest, r := rows[..|rows| - 1], rows[|rows| - 1];
    assert rows == rest + [r];
    if k == |rest| {
      DanglingElsewhere(rest, present, ValueOf(r), g);
    } else {
      UnlistedReportsNothing(rest, present, k, g);
      if ChecksGrants(r) { DanglingOfOthers(r.classification.grants, present, ValueOf(r), ValueOf(rows[k]), g); }
    }
  }

  /** A classification is a plane of the data exactly where a row says so. */
  lemma PlaneAssembled(rows: seq<Row>, v: string)
    requires AllUsable(rows)
    ensures v in AdmissionOfRows(rows).value.adminPlane <==>
      exists r :: r in rows && r.classification.adminPlane && ValueOf(r) == v
  {
    var sorted := Sort(RowLe, rows);
    var planes := Filter((r: Row) => r.classification.adminPlane, sorted);
    SortElems(RowLe, rows);
    CarriesValue(planes, v);
    if r :| r in rows && r.classification.adminPlane && ValueOf(r) == v {
      assert r in Elems(sorted);
      assert r in planes;
    }
    if k :| k in planes && ValueOf(k) == v { assert k in Elems(rows); }
  }

  /** The last entry of a key. */
  function LastOf(entries: Entries, key: string): Option<string> {
    if entries == [] then None
    else if entries[|entries| - 1].0 == key then Some(entries[|entries| - 1].1)
    else LastOf(entries[..|entries| - 1], key)
  }

  lemma {:induction false} AssignLookup(entries: Entries, key: string, value: string, g: string)
    ensures Lookup(Assign(entries, key, value), g) == if g == key then Some(value) else Lookup(entries, g)
  {
    if entries != [] && entries[0].0 != key { AssignLookup(entries[1..], key, value, g); }
  }

  lemma {:induction false} AssignedLast(entries: Entries, more: Entries, g: string)
    ensures Lookup(AssignAll(entries, more), g) ==
            if LastOf(more, g).Some? then LastOf(more, g) else Lookup(entries, g)
  {
    if more != [] {
      var rest, last := more[..|more| - 1], more[|more| - 1];
      AssignedLast(entries, rest, g);
      AssignLookup(AssignAll(entries, rest), last.0, last.1, g);
    }
  }

  /** The last of the rows to clear the group clears it for `v`. */
  predicate ClearedLast(rows: seq<Row>, g: string, v: string) {
    exists i :: 0 <= i < |rows| && LastOf(rows[i].groupClearance, g) == Some(v)
                && forall j :: i < j < |rows| ==> LastOf(rows[j].groupClearance, g).None?
  }

  /** What a group clears for: what the last row that names it says. */
  lemma {:induction false} MergedLookupIff(rows: seq<Row>, g: string, v: string)
    ensures Lookup(MergedClearance(rows), g) == Some(v) <==> ClearedLast(rows, g, v)
  {
    if rows != [] {
      var n := |rows| - 1;
      MergedLookupIff(rows[..n], g, v);
      AssignedLast(MergedClearance(rows[..n]), rows[n].groupClearance, g);
      if LastOf(rows[n].groupClearance, g).None? { ClearedBefore(rows, g, v); }
    }
  }

  lemma ClearedBefore(rows: seq<Row>, g: string, v: string)
    requires rows != [] && LastOf(rows[|rows| - 1].groupClearance, g).None?
    ensures ClearedLast(rows, g, v) <==> ClearedLast(rows[..|rows| - 1], g, v)
  {
    var rest := rows[..|rows| - 1];
    if i :| 0 <= i < |rows| && LastOf(rows[i].groupClearance, g) == Some(v)
            && forall j :: i < j < |rows| ==> LastOf(rows[j].groupClearance, g).None? {
      assert rest[i] == rows[i];
    }
    if i :| 0 <= i < |rest| && LastOf(rest[i].groupClearance, g) == Some(v)
            && forall j :: i < j < |rest| ==> LastOf(rest[j].groupClearance, g).None? {
      assert rest[i] == rows[i];
      forall j | i < j < |rows| ensures LastOf(rows[j].groupClearance, g).None? {
        if j < |rest| { assert rest[j] == rows[j]; }
      }
    }
  }

  /** A group's clearance in the data is the last row's, by value, to name it. */
  lemma ClearanceAssembled(rows: seq<Row>, g: string, v: string)
    requires AllUsable(rows)
    ensures Lookup(AdmissionOfRows(rows).value.groupClearance, g) == Some(v) <==> ClearedLast(Sort(RowLe, rows), g, v)
  {
    MergedLookupIff(Sort(RowLe, rows), g, v);
  }

  // ---------------------------------------------------------------- the registry of the same rows

  /**
   * A kept row's classification as the registry installs it: its dangling grants gone, the admin plane granting itself.
   */
  function Installed(r: Row, present: seq<string>): Classification {
    if r.classification.adminPlane then r.classification.(grants := [ValueOf(r)])
    else r.classification.(grants := Filter(g => g in present, r.classification.grants))
  }

  function InstalledAll(sorted: seq<Row>, present: seq<string>): (r: seq<Classification>)
    ensures |r| == |sorted| && forall i :: 0 <= i < |sorted| ==> r[i] == Installed(sorted[i], present)
  {
    seq(|sorted|, i requires 0 <= i < |sorted| => Installed(sorted[i], present))
  }

  function MergedMembership(rows: seq<Row>): map<string, string> {
    if rows == [] then map[] else MergedMembership(rows[..|rows| - 1]) + rows[|rows| - 1].membershipGroups
  }

  function ProfilesOf(rows: seq<Row>): seq<string> {
    Dedup(Flatten(Map((r: Row) => r.profiles, rows)))
  }

  /** The set the registry assembles from the same rows, before it validates it. */
  function ConfigOfRows(rows: seq<Row>): Config {
    var sorted := Sort(RowLe, rows);
    Config(InstalledAll(sorted, ValuesOf(sorted)), ProfilesOf(sorted), MergedClearance(sorted),
      MergedMembership(sorted))
  }

  lemma FilterTwice<T(!new)>(p: T -> bool, s: seq<T>)
    ensures Filter(p, Filter(p, s)) == Filter(p, s)
  {
    FilterAll(p, Filter(p, s));
  }

  lemma InstalledValues(cs: seq<Classification>, sorted: seq<Row>, present: seq<string>)
    requires cs == InstalledAll(sorted, present)
    ensures Map((c: Classification) => c.value, cs) == ValuesOf(sorted)
  {
    forall i | 0 <= i < |sorted| ensures cs[i].value == ValueOf(sorted[i]) {
      assert cs[i] == Installed(sorted[i], present);
    }
  }

  lemma ConfigDeclares(rows: seq<Row>)
    requires DistinctValues(rows)
    ensures var cfg := ConfigOfRows(rows);
            Declared(cfg) == ValuesOf(Sort(RowLe, rows)) && Distinct(Declared(cfg))
  {
    var sorted := Sort(RowLe, rows);
    SortDistinctValues(rows);
    InstalledValues(InstalledAll(sorted, ValuesOf(sorted)), sorted, ValuesOf(sorted));
    assert Distinct(ValuesOf(sorted));
  }

  lemma SortDistinctValues(rows: seq<Row>)
    requires DistinctValues(rows)
    ensures DistinctValues(Sort(RowLe, rows))
  {
    var sorted := Sort(RowLe, rows);
    SortMultiset(RowLe, rows);
    SortElems(RowLe, rows);
    assert Distinct(rows);
    forall i, j | 0 <= i < j < |sorted| ensures ValueOf(sorted[i]) != ValueOf(sorted[j]) {
      assert sorted[i] in Elems(rows) && sorted[j] in Elems(rows);
      var p :| 0 <= p < |rows| && rows[p] == sorted[i];
      var q :| 0 <= q < |rows| && rows[q] == sorted[j];
      assert p != q;
    }
  }

  lemma GrantsAgree(rows: seq<Row>, i: nat)
    requires DistinctValues(rows) && i < |Sort(RowLe, rows)|
    ensures var cfg, sorted := ConfigOfRows(rows), Sort(RowLe, rows);
            GrantsFor(cfg, ValueOf(sorted[i])) == InOrder(ValuesOf(sorted), RowGrants(sorted[i]))
  {
    var cfg, sorted := ConfigOfRows(rows), Sort(RowLe, rows);
    ConfigDeclares(rows);
    var c := cfg.classifications[i];
    assert c == Installed(sorted[i], ValuesOf(sorted));
    FindDeclared(cfg, c);
    FilterTwice(v => v in ValuesOf(sorted), RowGrants(sorted[i]));
  }

  lemma {:induction false} PlanesAgree(cs: seq<Classification>, sorted: seq<Row>, present: seq<string>)
    requires cs == InstalledAll(sorted, present)
    ensures Map((c: Classification) => c.value, Filter((c: Classification) => c.adminPlane, cs)) == PlanesOf(sorted)
  {
    if sorted != [] {
      assert cs[0] == Installed(sorted[0], present);
      assert cs[1..] == InstalledAll(sorted[1..], present);
      PlanesAgree(cs[1..], sorted[1..], present);
    }
  }

  /**
   * THE TRIGGER'S DATA IS THE REGISTRY'S. On rows of distinct classifications the trigger assembles the same admission
   * data as the registry declaring those rows, and it assembles none exactly when some row outside the admin plane
   * declares no list of grants.
   */
  lemma TriggerMirrorsRegistry(rows: seq<Row>)
    requires DistinctValues(rows)
    ensures AdmissionOfRows(rows) ==
            if AllUsable(rows)
            then Some(ClassificationAdmission(ConfigOfRows(rows))) else None
  {
    var cfg, sorted := ConfigOfRows(rows), Sort(RowLe, rows);
    ConfigDeclares(rows);
    PlanesAgree(cfg.classifications, sorted, ValuesOf(sorted));
    SortDistinctValues(rows);
    var pairs := RowPairs(sorted, ValuesOf(sorted));
    AssignDistinct(pairs);
    forall i | 0 <= i < |sorted| ensures GrantsOf(cfg)[i] == pairs[i] {
      GrantsAgree(rows, i);
    }
    assert GrantsOf(cfg) == pairs;
  }
}
