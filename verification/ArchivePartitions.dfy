/**
 * The archive table's partitions, registered object by object as they are written and all at once at deploy
 * (backend/lambda/src/archive-partition-registrar.ts, register, backfill and handler).
 */
module ArchivePartitions {
  import opened Prelude
  import opened ArchiveKeys
  import opened ArchiveListing

  /** The table's partitions and where each says its objects stand. */
  type Catalog = map<Partition, string>

  /** One object written: its bucket and its decoded key. */
  datatype Record = Record(bucket: string, key: string)

  const BATCH := 100

  function LocationOf(bucket: string, prefix: string, v: Partition): string {
    "s3://" + bucket + "/" + prefix + Printed(v)
  }

  /** Creating a partition that exists changes nothing. */
  function PutIfAbsent(cat: Catalog, v: Partition, location: string): Catalog {
    if v in cat then cat else cat[v := location]
  }

  /** Where a bucket keeps a partition. */
  type Placing = (string, Partition) -> string

  function Location(prefix: string): Placing {
    (bucket, v) => LocationOf(bucket, prefix, v)
  }

  function In(place: Placing, bucket: string): Partition -> string {
    v => place(bucket, v)
  }

  /** The partitions already there as they were, and each of `vs` that was not, at its place. */
  function Registered(cat: Catalog, place: Partition -> string, vs: set<Partition>): Catalog {
    map v | v in cat.Keys + vs :: if v in cat then cat[v] else place(v)
  }

  function RegisterAll(cat: Catalog, place: Partition -> string, vs: seq<Partition>): Catalog {
    if vs == [] then cat
    else PutIfAbsent(RegisterAll(cat, place, vs[..|vs| - 1]), vs[|vs| - 1], place(vs[|vs| - 1]))
  }

  predicate AnyFails(vs: seq<Partition>, fails: set<Partition>) {
    exists v :: v in vs && v in fails
  }

  function Spared(fails: set<Partition>): Partition -> bool {
    v => v !in fails
  }

  function Sound(vs: seq<Partition>, fails: set<Partition>): seq<Partition> {
    Filter(Spared(fails), vs)
  }

  /** Registering a list registers its values, whatever their order and repeats. */
  lemma {:induction false} RegisterAllIs(cat: Catalog, place: Partition -> string, vs: seq<Partition>)
    ensures RegisterAll(cat, place, vs) == Registered(cat, place, Elems(vs))
  {
    if vs != [] {
      var rest, last := vs[..|vs| - 1], vs[|vs| - 1];
      RegisterAllIs(cat, place, rest);
      assert vs == rest + [last];
      assert Elems(vs) == Elems(rest) + {last};
    }
  }

  lemma RegisteredTwice(cat: Catalog, place: Partition -> string, a: set<Partition>, b: set<Partition>)
    ensures Registered(Registered(cat, place, a), place, b) == Registered(cat, place, a + b)
  {
  }

  // ---------------------------------------------------------------- the deploy-time backfill

  function Batches(all: seq<Partition>): seq<seq<Partition>> {
    if |all| <= BATCH then (if all == [] then [] else [all]) else [all[..BATCH]] + Batches(all[BATCH..])
  }

  /** Batch by batch, stopping after the first with a partition that could not be registered. */
  function Backfilled(cat: Catalog, place: Partition -> string, batches: seq<seq<Partition>>,
      fails: set<Partition>): (Catalog, bool)
    decreases |batches|
  {
    if batches == [] then (cat, true)
    else
      var next := RegisterAll(cat, place, Sound(batches[0], fails));
      if AnyFails(batches[0], fails) then (next, false) else Backfilled(next, place, batches[1..], fails)
  }

  /** Batches of at most a hundred cover each partition exactly once, in order. */
  lemma {:induction false} BatchesCover(all: seq<Partition>)
    ensures Flatten(Batches(all)) == all
    ensures forall k :: 0 <= k < |Batches(all)| ==> 0 < |Batches(all)[k]| <= 100
    ensures forall k :: 0 <= k < |Batches(all)| - 1 ==> |Batches(all)[k]| == 100
  {
    if |all| <= BATCH {
      if all != [] { assert Flatten([all]) == all + Flatten([]); }
    } else {
      BatchesCover(all[BATCH..]);
      assert all == all[..BATCH] + all[BATCH..];
    }
  }

  lemma SoundOfNone(vs: seq<Partition>, fails: set<Partition>)
    requires !AnyFails(vs, fails)
    ensures Sound(vs, fails) == vs
  {
    FilterAll(Spared(fails), vs);
  }

  lemma AnyFailsConcat(a: seq<Partition>, b: seq<Partition>, fails: set<Partition>)
    ensures AnyFails(a + b, fails) <==> AnyFails(a, fails) || AnyFails(b, fails)
  {
    forall v ensures v in a + b <==> v in a || v in b {}
  }

  /** A backfill succeeds exactly when no partition fails, and then registers every one. */
  lemma {:induction false} BackfilledIs(cat: Catalog, place: Partition -> string, batches: seq<seq<Partition>>,
      fails: set<Partition>)
    ensures Backfilled(cat, place, batches, fails).1 <==> !AnyFails(Flatten(batches), fails)
    ensures !AnyFails(Flatten(batches), fails) ==>
      Backfilled(cat, place, batches, fails).0 == Registered(cat, place, Elems(Flatten(batches)))
    decreases |batches|
  {
    if batches == [] {
      assert Registered(cat, place, {}) == cat;
    } else {
      var batch, rest := batches[0], batches[1..];
      assert Flatten(batches) == batch + Flatten(rest);
      AnyFailsConcat(batch, Flatten(rest), fails);
      if !AnyFails(batch, fails) {
        SoundOfNone(batch, fails);
        BackfilledIs(RegisterAll(cat, place, batch), place, rest, fails);
        RegisterAllIs(cat, place, batch);
        RegisteredTwice(cat, place, Elems(batch), Elems(Flatten(rest)));
        assert Elems(Flatten(batches)) == Elems(batch) + Elems(Flatten(rest));
      }
    }
  }

  /** Between two tables: what was registered stays, and what is new is one of `vs`, at its place, and did not fail. */
  predicate Extends(cat: Catalog, after: Catalog, place: Partition -> string, vs: seq<Partition>,
      fails: set<Partition>)
  {
    && (forall v :: v in cat ==> v in after && after[v] == cat[v])
    && (forall v :: v in after && v !in cat ==> v in vs && v !in fails && after[v] == place(v))
  }

  /** Whatever fails, what was registered stays as it was, and nothing that failed is registered. */
  lemma {:induction false} BackfilledExtends(cat: Catalog, place: Partition -> string, batches: seq<seq<Partition>>,
      fails: set<Partition>)
    ensures Extends(cat, Backfilled(cat, place, batches, fails).0, place, Flatten(batches), fails)
    decreases |batches|
  {
    if batches != [] {
      var sound := Sound(batches[0], fails);
      RegisterAllIs(cat, place, sound);
      BackfilledExtends(RegisterAll(cat, place, sound), place, batches[1..], fails);
      assert Flatten(batches) == batches[0] + Flatten(batches[1..]);
    }
  }

  // ---------------------------------------------------------------- object by object

  function PartitionOf(r: Record, prefix: string): Option<Partition> {
    if r.bucket == "" || r.key == "" then None else Parse(r.key, prefix)
  }

  /** Which partition, if any, an object is written under. */
  type Reading = Record -> Option<Partition>

  function Under(prefix: string): Reading {
    r => PartitionOf(r, prefix)
  }

  /** One object's event: its partition registered, and counted; nothing counted from the first that fails on. */
  function HandleOne(before: (Catalog, Option<nat>), r: Record, place: Placing, part: Reading,
      fails: set<Partition>): (Catalog, Option<nat>)
  {
    var v := part(r);
    if before.1.None? || v.None? then before
    else if v.value in fails then (before.0, None)
    else (PutIfAbsent(before.0, v.value, place(r.bucket, v.value)), Some(before.1.value + 1))
  }

  /** Every object's partition registered as its event comes, with nothing remembered. */
  function Handled(cat: Catalog, place: Placing, part: Reading, records: seq<Record>,
      fails: set<Partition>): (Catalog, Option<nat>)
  {
    if records == [] then (cat, Some(0))
    else HandleOne(Handled(cat, place, part, records[..|records| - 1], fails), records[|records| - 1], place, part,
      fails)
  }

  function DateOf(v: Partition): string {
    "/" + v.year + "/" + v.month + "/" + v.day
  }

  /** What an event remembers a registered partition by. */
  function IdOf(bucket: string, v: Partition): string {
    (bucket + "/" + v.userType) + DateOf(v)
  }

  /** A string splits one way at a last slash. */
  lemma LastSlashSplits(a: string, c: string, b: string, d: string)
    requires '/' !in c && '/' !in d && a + "/" + c == b + "/" + d
    ensures a == b && c == d
  {
    var s := a + "/" + c;
    assert s[|a|] == '/' && s[|b|] == '/';
    forall k | |a| < k < |s| ensures s[k] != '/' { assert s[k] == c[k - |a| - 1]; }
    forall k | |b| < k < |s| ensures s[k] != '/' { assert s[k] == d[k - |b| - 1]; }
    assert a == s[..|a|] && b == s[..|b|];
    assert c == s[|a| + 1..] && d == s[|b| + 1..];
  }

  lemma SuffixSplits(a: string, c: string, b: string, d: string)
    requires |c| == |d| && a + c == b + d
    ensures a == b && c == d
  {
    assert a == (a + c)[..|a|] && b == (b + d)[..|b|];
    assert c == (a + c)[|a|..] && d == (b + d)[|b|..];
  }

  lemma DateTellsApart(v: Partition, w: Partition)
    requires Valid(v) && Valid(w) && DateOf(v) == DateOf(w)
    ensures v.year == w.year && v.month == w.month && v.day == w.day
  {
    SuffixSplits("/" + v.year + "/" + v.month + "/", v.day, "/" + w.year + "/" + w.month + "/", w.day);
    SuffixSplits("/" + v.year + "/" + v.month, "/", "/" + w.year + "/" + w.month, "/");
    SuffixSplits("/" + v.year + "/", v.month, "/" + w.year + "/", w.month);
    SuffixSplits("/" + v.year, "/", "/" + w.year, "/");
    SuffixSplits("/", v.year, "/", w.year);
  }

  /** What is remembered tells partitions apart, whatever slashes a bucket's name holds. */
  lemma IdTellsApart(b: string, v: Partition, c: string, w: Partition)
    requires Valid(v) && Valid(w) && IdOf(b, v) == IdOf(c, w)
    ensures b == c && v == w
  {
    SuffixSplits(b + "/" + v.userType, DateOf(v), c + "/" + w.userType, DateOf(w));
    DateTellsApart(v, w);
    LastSlashSplits(b, v.userType, c, w.userType);
  }

  /** Every partition remembered is registered. */
  ghost predicate Remembers(seen: set<string>, cat: Catalog, fails: set<Partition>) {
    forall b, v :: Valid(v) && IdOf(b, v) in seen ==> v in cat && v !in fails
  }

  lemma RememberOne(seen: set<string>, cat: Catalog, fails: set<Partition>, bucket: string, v: Partition)
    requires Remembers(seen, cat, fails) && Valid(v) && v in cat && v !in fails
    ensures Remembers(seen + {IdOf(bucket, v)}, cat, fails)
  {
    forall b, w | Valid(w) && IdOf(b, w) in seen + {IdOf(bucket, v)} ensures w in cat && w !in fails {
      if IdOf(b, w) !in seen { IdTellsApart(b, w, bucket, v); }
    }
  }

  lemma RememberRegistered(seen: set<string>, cat: Catalog, fails: set<Partition>, bucket: string, v: Partition,
      location: string)
    requires Remembers(seen, cat, fails) && Valid(v) && v !in fails
    ensures Remembers(seen + {IdOf(bucket, v)}, PutIfAbsent(cat, v, location), fails)
  {
    RememberOne(seen, PutIfAbsent(cat, v, location), fails, bucket, v);
  }

  lemma RememberedStands(seen: set<string>, cat: Catalog, fails: set<Partition>, bucket: string, v: Partition)
    requires Remembers(seen, cat, fails) && Valid(v) && IdOf(bucket, v) in seen
    ensures v in cat && v !in fails
  {
  }

  class PartitionTable {
    var partitions: Catalog

    constructor ()
      ensures partitions == map[]
    {
      partitions := map[];
    }

    /** One creation: an existing partition is success, any other refusal is not. */
    method Register(v: Partition, location: string, fails: set<Partition>) returns (ok: bool)
      modifies this
      ensures ok <==> v !in fails
      ensures partitions == if v in fails then old(partitions) else PutIfAbsent(old(partitions), v, location)
    {
      if v in fails { return false; }
      if v !in partitions { partitions := partitions[v := location]; }
      ok := true;
    }

    /** One batch: each partition is created, or there already, or answered as failed. */
    method BatchCreate(place: Partition -> string, batch: seq<Partition>, fails: set<Partition>) returns (failed: bool)
      modifies this
      ensures failed <==> AnyFails(batch, fails)
      ensures partitions == RegisterAll(old(partitions), place, Sound(batch, fails))
    {
      failed := false;
      for i := 0 to |batch|
        invariant failed <==> AnyFails(batch[..i], fails)
        invariant partitions == RegisterAll(old(partitions), place, Sound(batch[..i], fails))
      {
        var ok := Register(batch[i], place(batch[i]), fails);
        SoundSnoc(old(partitions), place, batch, i, fails);
        if !ok { failed := true; }
      }
      assert batch[..|batch|] == batch;
    }

    /** Every partition the bucket already holds, a hundred to a call; the count, or nothing where one failed. */
    method Backfill(place: Placing, bucket: string, prefix: string, list: Listing, fails: set<Partition>)
        returns (count: Option<nat>)
      modifies this
      ensures var all := ExistingPartitions(prefix, list);
              var after := Backfilled(old(partitions), In(place, bucket), Batches(all), fails);
              partitions == after.0 && count == if after.1 then Some(|all|) else None
    {
      var all := ListPartitions(prefix, list);
      var i := 0;
      while i < |all|
        invariant 0 <= i
        invariant Backfilled(old(partitions), In(place, bucket), Batches(all), fails)
                  == Backfilled(partitions, In(place, bucket), Batches(if i < |all| then all[i..] else []), fails)
      {
        var end := if i + BATCH < |all| then i + BATCH else |all|;
        FirstBatch(all, i);
        var failed := BatchCreate(In(place, bucket), all[i..end], fails);
        if failed { return None; }
        i := i + BATCH;
      }
      count := Some(|all|);
    }

    /** One event's objects, each partition created once an event; the count of objects, or nothing where one failed. */
    method OnObjects(place: Placing, prefix: string, records: seq<Record>, fails: set<Partition>)
        returns (count: Option<nat>)
      modifies this
      ensures (partitions, count) == Handled(old(partitions), place, Under(prefix), records, fails)
    {
      var n := 0;
      var seen: set<string> := {};
      for i := 0 to |records|
        invariant (partitions, Some(n)) == Handled(old(partitions), place, Under(prefix), records[..i], fails)
        invariant Remembers(seen, partitions, fails)
      {
        HandledStep(old(partitions), place, Under(prefix), records, i, fails);
        var r := records[i];
        var v := PartitionOf(r, prefix);
        if v.Some? {
          PartitionValid(r, prefix);
          n := n + 1;
          var id := IdOf(r.bucket, v.value);
          if id !in seen {
            ghost var before := partitions;
            var ok := Register(v.value, place(r.bucket, v.value), fails);
            if !ok {
              HandledStops(old(partitions), place, Under(prefix), records, i + 1, fails);
              return None;
            }
            RememberRegistered(seen, before, fails, r.bucket, v.value, place(r.bucket, v.value));
            seen := seen + {id};
          } else {
            RememberedStands(seen, partitions, fails, r.bucket, v.value);
          }
        }
      }
      assert records[..|records|] == records;
      count := Some(n);
    }

    /** The deployment's own event: a backfill, unless it is a removal or names no bucket. */
    method OnDeploy(removal: bool, place: Placing, bucket: string, prefix: string, list: Listing,
        fails: set<Partition>) returns (count: Option<nat>)
      modifies this
      ensures removal || bucket == "" ==> partitions == old(partitions) && count == Some(0)
      ensures !removal && bucket != "" ==>
        var all := ExistingPartitions(prefix, list);
        var after := Backfilled(old(partitions), In(place, bucket), Batches(all), fails);
        partitions == after.0 && count == if after.1 then Some(|all|) else None
    {
      if removal || bucket == "" { return Some(0); }
      count := Backfill(place, bucket, prefix, list, fails);
    }
  }

  lemma SoundSnoc(cat: Catalog, place: Partition -> string, batch: seq<Partition>, i: nat, fails: set<Partition>)
    requires i < |batch|
    ensures AnyFails(batch[..i + 1], fails) <==> AnyFails(batch[..i], fails) || batch[i] in fails
    ensures RegisterAll(cat, place, Sound(batch[..i + 1], fails)) ==
            if batch[i] in fails then RegisterAll(cat, place, Sound(batch[..i], fails))
            else PutIfAbsent(RegisterAll(cat, place, Sound(batch[..i], fails)), batch[i], place(batch[i]))
  {
    assert batch[..i + 1] == batch[..i] + [batch[i]];
    AnyFailsConcat(batch[..i], [batch[i]], fails);
    FilterConcat(Spared(fails), batch[..i], [batch[i]]);
    var before := Sound(batch[..i], fails);
    if batch[i] in fails {
      assert Sound(batch[..i + 1], fails) == before;
    } else {
      assert Sound(batch[..i + 1], fails) == before + [batch[i]];
      assert (before + [batch[i]])[..|before|] == before;
    }
  }

  lemma FirstBatch(all: seq<Partition>, i: nat)
    requires i < |all|
    ensures var end := if i + BATCH < |all| then i + BATCH else |all|;
            && Batches(all[i..]) != [] && Batches(all[i..])[0] == all[i..end]
            && Batches(all[i..])[1..] == Batches(if i + BATCH < |all| then all[i + BATCH..] else [])
  {
    if i + BATCH < |all| {
      assert all[i..][..BATCH] == all[i..i + BATCH];
      assert all[i..][BATCH..] == all[i + BATCH..];
    }
  }

  lemma PartitionValid(r: Record, prefix: string)
    requires PartitionOf(r, prefix).Some?
    ensures Valid(PartitionOf(r, prefix).value)
  {
    ParseIff(r.key, prefix, PartitionOf(r, prefix).value);
  }

  lemma HandledStep(cat: Catalog, place: Placing, part: Reading, records: seq<Record>, i: nat, fails: set<Partition>)
    requires i < |records|
    ensures Handled(cat, place, part, records[..i + 1], fails) ==
            HandleOne(Handled(cat, place, part, records[..i], fails), records[i], place, part, fails)
  {
    assert records[..i + 1][..i] == records[..i];
  }

  /** A failure part-way ends the event there. */
  lemma {:induction false} HandledStops(cat: Catalog, place: Placing, part: Reading, records: seq<Record>, i: nat,
      fails: set<Partition>)
    requires i <= |records| && Handled(cat, place, part, records[..i], fails).1.None?
    ensures Handled(cat, place, part, records, fails) == Handled(cat, place, part, records[..i], fails)
    decreases |records|
  {
    if i < |records| {
      assert records[..|records| - 1][..i] == records[..i];
      HandledStops(cat, place, part, records[..|records| - 1], i, fails);
    } else {
      assert records[..i] == records;
    }
  }

  // ---------------------------------------------------------------- the backfill and the events agree

  /** The partitions a run of objects is written under. */
  function PartitionsOf(records: seq<Record>, part: Reading): seq<Partition> {
    if records == [] then []
    else
      var v := part(records[|records| - 1]);
      PartitionsOf(records[..|records| - 1], part) + (if v.Some? then [v.value] else [])
  }

  lemma {:induction false} PartitionsIff(records: seq<Record>, part: Reading, v: Partition)
    ensures v in PartitionsOf(records, part) <==> exists r :: r in records && part(r) == Some(v)
  {
    if records != [] {
      var rest, last := records[..|records| - 1], records[|records| - 1];
      PartitionsIff(rest, part, v);
      assert records == rest + [last];
    }
  }

  predicate AllIn(records: seq<Record>, bucket: string) {
    forall r :: r in records ==> r.bucket == bucket
  }

  lemma RegisterSnoc(cat: Catalog, place: Partition -> string, vs: seq<Partition>, v: Partition)
    ensures RegisterAll(cat, place, vs + [v]) == PutIfAbsent(RegisterAll(cat, place, vs), v, place(v))
  {
    assert (vs + [v])[..|vs|] == vs;
  }

  /** Events of one bucket register the partitions they name, in any order and however often they repeat. */
  lemma {:induction false} HandledIs(cat: Catalog, place: Placing, bucket: string, part: Reading, records: seq<Record>)
    requires AllIn(records, bucket)
    ensures Handled(cat, place, part, records, {}).1.Some?
    ensures Handled(cat, place, part, records, {}).0 == RegisterAll(cat, In(place, bucket), PartitionsOf(records, part))
  {
    if records != [] {
      var rest, last := records[..|records| - 1], records[|records| - 1];
      assert last in records && AllIn(rest, bucket);
      HandledIs(cat, place, bucket, part, rest);
      var v := part(last);
      if v.Some? {
        RegisterSnoc(cat, In(place, bucket), PartitionsOf(rest, part), v.value);
      } else {
        assert PartitionsOf(records, part) == PartitionsOf(rest, part);
      }
    }
  }

  function KeysIn(records: seq<Record>): set<string> {
    set r | r in records :: r.key
  }

  lemma ReplayedIff(records: seq<Record>, bucket: string, prefix: string, v: Partition)
    requires bucket != "" && AllIn(records, bucket)
    ensures v in PartitionsOf(records, Under(prefix)) <==> Written(KeysIn(records), prefix, v)
  {
    PartitionsIff(records, Under(prefix), v);
    if key :| key in KeysIn(records) && Parse(key, prefix) == Some(v) {
      ParseIff(key, prefix, v);
      var r :| r in records && r.key == key;
      assert Under(prefix)(r) == Some(v);
    }
  }

  lemma SameRegistrations(bucket: string, prefix: string, list: Listing, records: seq<Record>)
    requires bucket != "" && AllIn(records, bucket) && Lists(KeysIn(records), list)
    ensures Elems(PartitionsOf(records, Under(prefix))) == Elems(ExistingPartitions(prefix, list))
  {
    ListingIsWritten(KeysIn(records), prefix, list);
    forall v ensures v in PartitionsOf(records, Under(prefix)) <==> v in ExistingPartitions(prefix, list) {
      ReplayedIff(records, bucket, prefix, v);
    }
  }

  /**
   * THE BACKFILL IS THE REPLAY. Backfilling a bucket leaves the table every one of its objects' events would have left,
   * in whatever order those came and however often each was repeated.
   */
  lemma BackfillIsReplay(cat: Catalog, place: Placing, bucket: string, prefix: string, list: Listing,
      records: seq<Record>)
    requires bucket != "" && AllIn(records, bucket) && Lists(KeysIn(records), list)
    ensures Backfilled(cat, In(place, bucket), Batches(ExistingPartitions(prefix, list)), {})
            == (Handled(cat, place, Under(prefix), records, {}).0, true)
  {
    var all := ExistingPartitions(prefix, list);
    SameRegistrations(bucket, prefix, list, records);
    BatchesCover(all);
    BackfilledIs(cat, In(place, bucket), Batches(all), {});
    HandledIs(cat, place, bucket, Under(prefix), records);
    RegisterAllIs(cat, In(place, bucket), PartitionsOf(records, Under(prefix)));
  }

  /** A backfill and the events, one before the other, leave one table either way. */
  lemma BackfillAndEventsCommute(cat: Catalog, place: Placing, bucket: string, part: Reading, all: seq<Partition>,
      records: seq<Record>)
    requires AllIn(records, bucket)
    ensures Handled(Backfilled(cat, In(place, bucket), Batches(all), {}).0, place, part, records, {}).0
            == Backfilled(Handled(cat, place, part, records, {}).0, In(place, bucket), Batches(all), {}).0
  {
    var at, named := In(place, bucket), PartitionsOf(records, part);
    var handled, backfilled := Handled(cat, place, part, records, {}).0, Backfilled(cat, at, Batches(all), {}).0;
    BatchesCover(all);
    BackfilledIs(cat, at, Batches(all), {});
    BackfilledIs(handled, at, Batches(all), {});
    HandledIs(cat, place, bucket, part, records);
    HandledIs(backfilled, place, bucket, part, records);
    RegisterAllIs(cat, at, named);
    RegisterAllIs(backfilled, at, named);
    RegisteredTwice(cat, at, Elems(all), Elems(named));
    RegisteredTwice(cat, at, Elems(named), Elems(all));
    assert Elems(all) + Elems(named) == Elems(named) + Elems(all);
  }

  // ---------------------------------------------------------------- where the table says objects stand

  /** Where an object stands. */
  function Url(bucket: string, key: string): string {
    "s3://" + bucket + "/" + key
  }

  lemma StandsUnder(bucket: string, path: string, key: string)
    ensures Url(bucket, path) <= Url(bucket, key) <==> path <= key
  {
    var root := "s3://" + bucket + "/";
    assert Url(bucket, path) == root + path && Url(bucket, key) == root + key;
    PrefixSplit(root, path, root + key);
  }

  /**
   * A LOCATION HOLDS EXACTLY ITS OBJECTS. A key parses to `v` just when `v` is a partition and the object stands under
   * the location registered for it in that bucket.
   */
  lemma LocationHoldsIff(bucket: string, prefix: string, key: string, v: Partition)
    ensures Parse(key, prefix) == Some(v) <==> Valid(v) && LocationOf(bucket, prefix, v) <= Url(bucket, key)
  {
    ParseIff(key, prefix, v);
    assert LocationOf(bucket, prefix, v) == Url(bucket, prefix + Printed(v));
    StandsUnder(bucket, prefix + Printed(v), key);
  }

  /** The table's own entry, or one some object of these stands under, in its own bucket. */
  predicate HoldsObject(cat: Catalog, after: Catalog, records: seq<Record>, v: Partition) {
    v in after && (v in cat ==> after[v] == cat[v])
    && (v !in cat ==> exists r :: r in records && after[v] <= Url(r.bucket, r.key))
  }

  /** After any events, every location new to the table has some object of them standing under it. */
  lemma EventsHoldObjects(cat: Catalog, prefix: string, records: seq<Record>, v: Partition)
    requires v in Handled(cat, Location(prefix), Under(prefix), records, {}).0
    ensures HoldsObject(cat, Handled(cat, Location(prefix), Under(prefix), records, {}).0, records, v)
  {
    HandledPlaces(cat, Location(prefix), Under(prefix), records, v);
    if v !in cat {
      var after := Handled(cat, Location(prefix), Under(prefix), records, {}).0;
      var r :| r in records && Names(r, Under(prefix), v) && after[v] == Location(prefix)(r.bucket, v);
      LocationHoldsIff(r.bucket, prefix, r.key, v);
    }
  }

  /** The table a bucket's backfill leaves where there was none. */
  function Archived(bucket: string, prefix: string, list: Listing): Catalog {
    Backfilled(map[], In(Location(prefix), bucket), Batches(ExistingPartitions(prefix, list)), {}).0
  }

  lemma ArchivedIs(bucket: string, prefix: string, keys: set<string>, list: Listing, v: Partition)
    requires Lists(keys, list)
    ensures v in Archived(bucket, prefix, list) <==> Written(keys, prefix, v)
    ensures v in Archived(bucket, prefix, list) ==> Archived(bucket, prefix, list)[v] == LocationOf(bucket, prefix, v)
  {
    var all := ExistingPartitions(prefix, list);
    BatchesCover(all);
    BackfilledIs(map[], In(Location(prefix), bucket), Batches(all), {});
    ListingIsWritten(keys, prefix, list);
    assert v in all <==> v in Elems(all);
  }

  /**
   * THE ARCHIVE IS FOUND. After a bucket is backfilled into an empty table, an object stands under a location the table
   * holds exactly where its key is written under a partition, and then under that partition's.
   */
  lemma BackfilledFindsObjects(bucket: string, prefix: string, keys: set<string>, list: Listing, key: string,
      v: Partition)
    requires Lists(keys, list) && key in keys
    ensures (v in Archived(bucket, prefix, list) && Archived(bucket, prefix, list)[v] <= Url(bucket, key))
       <==> Parse(key, prefix) == Some(v)
  {
    ArchivedIs(bucket, prefix, keys, list, v);
    LocationHoldsIff(bucket, prefix, key, v);
    if Written(keys, prefix, v) { WrittenIsValid(keys, prefix, v); }
  }

  lemma WrittenIsValid(keys: set<string>, prefix: string, v: Partition)
    requires Written(keys, prefix, v)
    ensures Valid(v)
  {
    var key :| key in keys && Parse(key, prefix) == Some(v);
    ParseIff(key, prefix, v);
  }

  // ---------------------------------------------------------------- two buckets

  lemma LocationTellsBuckets(a: string, b: string, prefix: string, v: Partition)
    ensures LocationOf(a, prefix, v) == LocationOf(b, prefix, v) <==> a == b
  {
    var x, y := LocationOf(a, prefix, v), LocationOf(b, prefix, v);
    if x == y {
      assert |a| == |b|;
      assert a == x[5..5 + |a|] && b == y[5..5 + |b|];
    }
  }

  predicate Names(r: Record, part: Reading, v: Partition) {
    part(r) == Some(v)
  }

  /** A partition's location is the table's own, or that of some record that names it. */
  predicate PlacedBy(cat: Catalog, after: Catalog, place: Placing, part: Reading, records: seq<Record>, v: Partition) {
    && (v in cat ==> v in after && after[v] == cat[v])
    && (v !in cat ==> (v in after <==> exists r :: r in records && Names(r, part, v)))
    && (v !in cat && v in after ==> exists r :: r in records && Names(r, part, v) && after[v] == place(r.bucket, v))
  }

  lemma {:induction false} HandledPlaces(cat: Catalog, place: Placing, part: Reading, records: seq<Record>,
      v: Partition)
    ensures Handled(cat, place, part, records, {}).1.Some?
    ensures PlacedBy(cat, Handled(cat, place, part, records, {}).0, place, part, records, v)
  {
    if records != [] {
      var rest, last := records[..|records| - 1], records[|records| - 1];
      HandledPlaces(cat, place, part, rest, v);
      assert records == rest + [last];
      assert forall r :: r in records <==> r in rest || r == last;
      assert last in records;
    }
  }

  /** The first record that names a new partition decides its location. */
  lemma {:induction false} FirstDecides(cat: Catalog, place: Placing, part: Reading, r: Record, rest: seq<Record>,
      v: Partition)
    requires Names(r, part, v) && v !in cat
    ensures var after := Handled(cat, place, part, [r] + rest, {});
            after.1.Some? && v in after.0 && after.0[v] == place(r.bucket, v)
  {
    var all := [r] + rest;
    if rest == [] {
      assert all == [r] && [r][..0] == [];
      assert Handled(cat, place, part, [r], {}) == HandleOne((cat, Some(0)), r, place, part, {});
    } else {
      FirstDecides(cat, place, part, r, rest[..|rest| - 1], v);
      assert all[..|all| - 1] == [r] + rest[..|rest| - 1] && all[|all| - 1] == rest[|rest| - 1];
    }
  }

  /** A list with one of its records brought to the front. */
  lemma Fronted(records: seq<Record>, r: Record) returns (rest: seq<Record>)
    requires r in records
    ensures multiset([r] + rest) == multiset(records)
  {
    var i :| 0 <= i < |records| && records[i] == r;
    rest := records[..i] + records[i + 1..];
    assert records == records[..i] + [r] + records[i + 1..];
  }

  /** The two lists leave one table. */
  predicate SameTable(cat: Catalog, place: Placing, part: Reading, a: seq<Record>, b: seq<Record>) {
    Handled(cat, place, part, a, {}).0 == Handled(cat, place, part, b, {}).0
  }

  /** Every order of the records leaves one table. */
  ghost predicate OrderFree(cat: Catalog, place: Placing, part: Reading, records: seq<Record>) {
    forall order :: multiset(order) == multiset(records) ==> SameTable(cat, place, part, order, records)
  }

  /** All records that name a partition the table lacks stand in one bucket. */
  ghost predicate OneBucketEach(cat: Catalog, part: Reading, records: seq<Record>) {
    forall a, b, v :: a in records && b in records && v !in cat && Names(a, part, v) && Names(b, part, v) ==>
      a.bucket == b.bucket
  }

  lemma SameRecords(order: seq<Record>, records: seq<Record>, r: Record)
    requires multiset(order) == multiset(records)
    ensures r in order <==> r in records
  {
    assert r in order <==> r in multiset(order);
    assert r in records <==> r in multiset(records);
  }

  lemma PlacedAlike(cat: Catalog, place: Placing, part: Reading, order: seq<Record>, records: seq<Record>, x: Catalog,
      y: Catalog, v: Partition)
    requires OneBucketEach(cat, part, records) && forall r :: r in order <==> r in records
    requires PlacedBy(cat, x, place, part, order, v) && PlacedBy(cat, y, place, part, records, v)
    ensures (v in x <==> v in y) && (v in x ==> x[v] == y[v])
  {
  }

  lemma OneBucketSameTable(cat: Catalog, place: Placing, part: Reading, records: seq<Record>, order: seq<Record>)
    requires OneBucketEach(cat, part, records) && multiset(order) == multiset(records)
    ensures SameTable(cat, place, part, order, records)
  {
    var x, y := Handled(cat, place, part, order, {}).0, Handled(cat, place, part, records, {}).0;
    forall r ensures r in order <==> r in records { SameRecords(order, records, r); }
    forall v ensures (v in x <==> v in y) && (v in x ==> x[v] == y[v]) {
      HandledPlaces(cat, place, part, order, v);
      HandledPlaces(cat, place, part, records, v);
      PlacedAlike(cat, place, part, order, records, x, y, v);
    }
  }

  lemma TwoBucketsTwoTables(cat: Catalog, place: Placing, part: Reading, records: seq<Record>, a: Record, b: Record,
      v: Partition)
    requires a in records && b in records && v !in cat && Names(a, part, v) && Names(b, part, v)
    requires place(a.bucket, v) != place(b.bucket, v)
    ensures !OrderFree(cat, place, part, records)
  {
    var afterA := Fronted(records, a);
    var afterB := Fronted(records, b);
    FirstDecides(cat, place, part, a, afterA, v);
    FirstDecides(cat, place, part, b, afterB, v);
    assert !SameTable(cat, place, part, [a] + afterA, records) || !SameTable(cat, place, part, [b] + afterB, records);
  }

  /**
   * WHEN ORDER DOES NOT MATTER. The table keys a partition by its values alone, so every order of a list of events
   * leaves one table exactly when, of each partition the table lacks, all the events that name it stand in one bucket.
   */
  lemma OrderFreeIffOneBucketEach(cat: Catalog, prefix: string, records: seq<Record>)
    ensures OrderFree(cat, Location(prefix), Under(prefix), records) <==> OneBucketEach(cat, Under(prefix), records)
  {
    var place, part := Location(prefix), Under(prefix);
    if OneBucketEach(cat, part, records) {
      forall order | multiset(order) == multiset(records) ensures SameTable(cat, place, part, order, records) {
        OneBucketSameTable(cat, place, part, records, order);
      }
    } else {
      var a, b, v :| a in records && b in records && v !in cat && Names(a, part, v) && Names(b, part, v)
        && a.bucket != b.bucket;
      LocationTellsBuckets(a.bucket, b.bucket, prefix, v);
      TwoBucketsTwoTables(cat, place, part, records, a, b, v);
    }
  }
}
