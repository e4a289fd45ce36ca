/**
 * The experiments table and the handlers that update it in place (backend/lambda/src/admin-experiments.ts):
 * the guarded write, the lazy auto-complete of the list read, and the paged count of active experiments.
 */
module ExperimentTable {
  import opened Prelude
  import opened ExperimentRow
  import opened ExperimentLifecycle
  import opened ExperimentProtocol

  function RowAt(rows: map<string, Row>, id: string): Option<Row> {
    if id in rows then Some(rows[id]) else None
  }

  /** The table after a decision taken from `snapshot` is written under its guard. */
  function Guarded(rows: map<string, Row>, id: string, snapshot: Row, verdict: Verdict): map<string, Row> {
    if verdict.Refuse? || !GuardHolds(snapshot, RowAt(rows, id)) then rows
    else if verdict.Drop? then rows - {id}
    else rows[id := verdict.row]
  }

  // ---------------------------------------------------------------- the auto-complete

  /** The auto-complete of one listed row. */
  function Completing(rows: map<string, Row>, listed: Row, now: nat): map<string, Row> {
    Guarded(rows, listed.experimentId, listed, DecideAutoComplete(listed, now))
  }

  function Reconciled(rows: map<string, Row>, listed: seq<Row>, now: nat): map<string, Row> {
    if listed == [] then rows
    else Completing(Reconciled(rows, listed[..|listed| - 1], now), listed[|listed| - 1], now)
  }

  /** What the list read answers for a row: an expired one is completed, with its new audit if the write landed. */
  function Shown(listed: Row, landed: bool, now: nat): Row {
    if !Expired(listed, now) then listed
    else if landed then DecideAutoComplete(listed, now).row
    else listed.(status := Some(Completed))
  }

  /** The row runs or is paused, and its end date has come. */
  predicate Due(row: Row, now: nat) {
    (row.status == Some(Active) || row.status == Some(Paused)) && row.endDate.Some? && row.endDate.value <= now
  }

  /**
   * WHAT THE LIST READ SHOWS. A row past its end date is shown completed, whether or not the write landed, with one
   * entry more where it did; and everything else about every row is shown as it was listed.
   */
  lemma ShownIs(listed: Row, landed: bool, now: nat)
    ensures var shown := Shown(listed, landed, now);
            && (!Due(listed, now) ==> shown == listed)
            && (Due(listed, now) ==>
                  && shown == listed.(status := Some(Completed), transitions := shown.transitions)
                  && shown.transitions == if landed
                       then Some(Audit(listed) + [Entry(From(listed.status), Completed, "system", now, "auto:endDate")])
                       else listed.transitions)
  {
  }

  predicate DistinctRows(listed: seq<Row>) {
    forall i, j :: 0 <= i < j < |listed| ==> listed[i].experimentId != listed[j].experimentId
  }

  /** Reconciling a listing leaves alone every row the listing does not name. */
  lemma {:induction false} ReconciledElsewhere(rows: map<string, Row>, listed: seq<Row>, now: nat, id: string)
    requires forall k :: 0 <= k < |listed| ==> listed[k].experimentId != id
    ensures RowAt(Reconciled(rows, listed, now), id) == RowAt(rows, id)
  {
    if listed != [] { ReconciledElsewhere(rows, listed[..|listed| - 1], now, id); }
  }

  /** Each listed row is completed exactly when it expired and is still, status and audit, the row stored. */
  lemma {:induction false} ReconciledRow(rows: map<string, Row>, listed: seq<Row>, now: nat, k: nat)
    requires DistinctRows(listed) && k < |listed|
    ensures RowAt(Reconciled(rows, listed, now), listed[k].experimentId) ==
            if Expired(listed[k], now) && GuardHolds(listed[k], RowAt(rows, listed[k].experimentId))
            then Some(DecideAutoComplete(listed[k], now).row)
            else RowAt(rows, listed[k].experimentId)
  {
    var rest := listed[..|listed| - 1];
    if k == |listed| - 1 {
      ReconciledElsewhere(rows, rest, now, listed[k].experimentId);
    } else {
      ReconciledRow(rows, rest, now, k);
    }
  }

  /** The listing is the table: every row, once. */
  predicate Lists(listed: seq<Row>, rows: map<string, Row>) {
    && DistinctRows(listed)
    && (forall k :: 0 <= k < |listed| ==> RowAt(rows, listed[k].experimentId) == Some(listed[k]))
    && (forall id :: id in rows ==> exists k :: 0 <= k < |listed| && listed[k].experimentId == id)
  }

  /**
   * A FULL RECONCILE SETTLES THE TABLE. After the list read reconciles every row, no stored row is expired, the rows
   * that were not expired are untouched, and each expired one is completed with one entry more.
   */
  lemma ReconcileSettles(rows: map<string, Row>, listed: seq<Row>, now: nat, id: string)
    requires Lists(listed, rows)
    ensures var after := Reconciled(rows, listed, now);
            && (id in after <==> id in rows)
            && (id in rows && !Expired(rows[id], now) ==> after[id] == rows[id])
            && (id in rows && Expired(rows[id], now) ==>
                  after[id].status == Some(Completed) && |Audit(after[id])| == |Audit(rows[id])| + 1)
            && (id in after ==> !Expired(after[id], now))
  {
    if id in rows {
      var k :| 0 <= k < |listed| && listed[k].experimentId == id;
      ReconciledRow(rows, listed, now, k);
    } else {
      ReconciledElsewhere(rows, listed, now, id);
    }
  }

  // ---------------------------------------------------------------- the table

  class ExperimentsTable {
    var rows: map<string, Row>

    constructor ()
      ensures rows == map[]
    {
      rows := map[];
    }

    /** The conditional write of a decision taken from `snapshot`; false is a lost race. */
    method Write(id: string, snapshot: Row, verdict: Verdict) returns (landed: bool)
      requires !verdict.Refuse?
      modifies this
      ensures landed <==> GuardHolds(snapshot, old(RowAt(rows, id)))
      ensures rows == Guarded(old(rows), id, snapshot, verdict)
    {
      landed := GuardHolds(snapshot, RowAt(rows, id));
      if landed {
        rows := if verdict.Drop? then rows - {id} else rows[id := verdict.row];
      }
    }

    /** One action with nothing between its read and its write: it never loses a race. */
    method Handle(id: string, action: Action, env: Env) returns (verdict: Verdict)
      modifies this
      ensures verdict == Decide(old(RowAt(rows, id)), action, env)
      ensures verdict.Refuse? ==> rows == old(rows)
      ensures verdict.Put? ==> rows == old(rows)[id := verdict.row]
      ensures verdict.Drop? ==> rows == old(rows) - {id}
    {
      var existing := RowAt(rows, id);
      verdict := Decide(existing, action, env);
      if verdict.Refuse? { return; }
      if existing.None? {
        rows := rows[id := verdict.row];
      } else {
        var landed := Write(id, existing.value, verdict);
        assert landed;
      }
    }

    /** The list read's auto-complete over the rows a scan returned, some of them perhaps stale by now. */
    method ReconcileExpired(listed: seq<Row>, now: nat) returns (shown: seq<Row>)
      requires DistinctRows(listed)
      modifies this
      ensures rows == Reconciled(old(rows), listed, now)
      ensures |shown| == |listed|
      ensures forall k :: 0 <= k < |listed| ==>
        shown[k] == Shown(listed[k], GuardHolds(listed[k], old(RowAt(rows, listed[k].experimentId))), now)
      ensures forall k :: 0 <= k < |listed| ==>
        if Due(listed[k], now) then shown[k].status == Some(Completed) else shown[k] == listed[k]
    {
      shown := [];
      for i := 0 to |listed|
        invariant rows == Reconciled(old(rows), listed[..i], now)
        invariant |shown| == i
        invariant forall k :: 0 <= k < i ==>
          shown[k] == Shown(listed[k], GuardHolds(listed[k], old(RowAt(rows, listed[k].experimentId))), now)
      {
        var row := listed[i];
        assert listed[..i + 1][..i] == listed[..i];
        ReconciledElsewhere(old(rows), listed[..i], now, row.experimentId);
        var verdict := DecideAutoComplete(row, now);
        if verdict.Refuse? {
          shown := shown + [row];
        } else {
          var landed := Write(row.experimentId, row, verdict);
          shown := shown + [if landed then verdict.row else row.(status := Some(Completed))];
        }
      }
      assert listed[..|listed|] == listed;
    }
  }

  // ---------------------------------------------------------------- the paged count

  /** The count of active experiments other than `excludeId`, over every page a filtered scan returned. */
  method CountActiveExcluding(pages: seq<seq<string>>, excludeId: string) returns (count: nat)
    ensures count == |Filter(id => id != excludeId, Flatten(pages))|
  {
    count := 0;
    for p := 0 to |pages|
      invariant count == |Filter(id => id != excludeId, Flatten(pages[..p]))|
    {
      var page := pages[p];
      for i := 0 to |page|
        invariant count == |Filter(id => id != excludeId, Flatten(pages[..p]))|
          + |Filter(id => id != excludeId, page[..i])|
      {
        assert page[..i + 1] == page[..i] + [page[i]];
        FilterConcat(id => id != excludeId, page[..i], [page[i]]);
        if page[i] != excludeId { count := count + 1; }
      }
      assert page[..|page|] == page;
      assert pages[..p + 1] == pages[..p] + [page];
      FlattenSnoc(pages[..p], page);
      FilterConcat(id => id != excludeId, Flatten(pages[..p]), page);
    }
    assert pages[..|pages|] == pages;
  }

  function ActiveIds(rows: map<string, Row>): set<string> {
    set id | id in rows && rows[id].status == Some(Active)
  }

  /** Over a scan that returns each active row once, the paged count is the number of other active experiments. */
  lemma CountIsActiveRows(pages: seq<seq<string>>, rows: map<string, Row>, excludeId: string)
    requires Distinct(Flatten(pages)) && Elems(Flatten(pages)) == ActiveIds(rows)
    ensures |Filter(id => id != excludeId, Flatten(pages))| == |ActiveIds(rows) - {excludeId}|
  {
    var kept := Filter(id => id != excludeId, Flatten(pages));
    FilterDistinct(id => id != excludeId, Flatten(pages));
    DistinctCard(kept);
    assert Elems(kept) == ActiveIds(rows) - {excludeId} by {
      forall id ensures id in Elems(kept) <==> id in ActiveIds(rows) - {excludeId} {
        assert id in Flatten(pages) <==> id in Elems(Flatten(pages));
      }
    }
  }
}
