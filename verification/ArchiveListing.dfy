/**
 * The deploy-time listing of the archive's partitions, four levels of common prefixes below the archive's own
 * (backend/lambda/src/archive-partition-registrar.ts, childPrefixes and existingPartitions).
 */
module ArchiveListing {
  import opened Prelude
  import opened ArchiveKeys

  // ---------------------------------------------------------------- paths

  function Depth(s: string): nat {
    if s == "" then 0 else (if s[0] == '/' then 1 else 0) + Depth(s[1..])
  }

  /** `n` segments, each closed by a slash. */
  predicate IsPath(s: string, n: nat) {
    Depth(s) == n && (s == "" || s[|s| - 1] == '/')
  }

  lemma {:induction false} DepthConcat(a: string, b: string)
    ensures Depth(a + b) == Depth(a) + Depth(b)
  {
    if a == "" {
      assert a + b == b;
    } else {
      DepthConcat(a[1..], b);
      assert (a + b)[1..] == a[1..] + b;
    }
  }

  lemma {:induction false} NoSlashes(s: string)
    ensures Depth(s) == 0 <==> '/' !in s
  {
    if s != "" {
      NoSlashes(s[1..]);
      assert s == [s[0]] + s[1..];
    }
  }

  lemma EndsInSlash(s: string)
    requires s != "" && s[|s| - 1] == '/'
    ensures Depth(s) > 0
  {
    NoSlashes(s);
  }

  /** Of one string, one prefix is a path of a given depth. */
  lemma OnePathAtDepth(a: string, b: string, s: string, n: nat)
    requires a <= s && b <= s && IsPath(a, n) && IsPath(b, n)
    ensures a == b
  {
    if |a| < |b| {
      LongerIsDeeper(a, b);
    } else if |b| < |a| {
      LongerIsDeeper(b, a);
    }
  }

  lemma LongerIsDeeper(a: string, b: string)
    requires a <= b && |a| < |b| && b[|b| - 1] == '/'
    ensures Depth(a) < Depth(b)
  {
    var rest := b[|a|..];
    assert b == a + rest;
    DepthConcat(a, rest);
    EndsInSlash(rest);
  }

  lemma {:induction false} LastSegment(body: string) returns (i: nat)
    ensures i <= |body| && '/' !in body[i..] && (i == 0 || body[i - 1] == '/')
  {
    if body == "" || body[|body| - 1] == '/' {
      i := |body|;
    } else {
      var init := body[..|body| - 1];
      i := LastSegment(init);
      assert body[i..] == init[i..] + [body[|body| - 1]];
    }
  }

  lemma OneSegment(name: string)
    requires '/' !in name
    ensures IsPath(name + "/", 1)
  {
    NoSlashes(name);
    DepthConcat(name, "/");
    assert Depth("/") == 1 + Depth("");
  }

  /** A path is a path one shorter and one segment. */
  lemma SplitPath(e: string, n: nat) returns (c: string, segment: string)
    requires IsPath(e, n + 1)
    ensures e == c + segment && IsPath(c, n) && IsPath(segment, 1)
  {
    var body := e[..|e| - 1];
    var i := LastSegment(body);
    c, segment := body[..i], body[i..] + "/";
    assert e == c + segment;
    OneSegment(body[i..]);
    DepthConcat(c, segment);
    if c != "" { EndsInSlash(c); }
  }

  lemma JoinPath(c: string, segment: string, n: nat)
    requires IsPath(c, n) && IsPath(segment, 1)
    ensures IsPath(c + segment, n + 1)
  {
    DepthConcat(c, segment);
  }

  // ---------------------------------------------------------------- one level

  /** The common prefixes of `keys` one level below `prefix`: through the first slash after it. */
  function Children(keys: set<string>, prefix: string): set<string> {
    set key | key in keys && prefix <= key && '/' in key[|prefix|..] :: key[..|prefix| + Slash(key[|prefix|..]) + 1]
  }

  lemma {:induction false} SlashFound(rest: string)
    requires '/' in rest
    ensures Slash(rest) < |rest|
  {
    if rest[0] != '/' {
      assert rest == [rest[0]] + rest[1..];
      SlashFound(rest[1..]);
    }
  }

  lemma SlashSplits(rest: string, i: nat)
    requires i < |rest| && rest[i] == '/' && i == Slash(rest)
    ensures rest[..i + 1] == rest[..i] + "/" && '/' !in rest[..i]
  {
  }

  lemma SegmentOf(rest: string)
    requires '/' in rest
    ensures Slash(rest) < |rest| && IsPath(rest[..Slash(rest) + 1], 1)
  {
    SlashFound(rest);
    SlashSplits(rest, Slash(rest));
    OneSegment(rest[..Slash(rest)]);
  }

  /** A common prefix is one segment more, and some key stands under it. */
  lemma ChildIff(keys: set<string>, prefix: string, q: string)
    ensures q in Children(keys, prefix) <==>
      prefix <= q && IsPath(q[|prefix|..], 1) && exists key :: key in keys && q <= key
  {
    if q in Children(keys, prefix) {
      var key :| key in keys && prefix <= key && '/' in key[|prefix|..]
        && q == key[..|prefix| + Slash(key[|prefix|..]) + 1];
      SegmentOf(key[|prefix|..]);
      assert q[|prefix|..] == key[|prefix|..][..Slash(key[|prefix|..]) + 1];
      assert q <= key;
    }
    if prefix <= q && IsPath(q[|prefix|..], 1) {
      if key :| key in keys && q <= key {
        ChildOfKey(keys, prefix, q, key);
      }
    }
  }

  lemma ChildOfKey(keys: set<string>, prefix: string, q: string, key: string)
    requires prefix <= q && IsPath(q[|prefix|..], 1) && key in keys && q <= key
    ensures q in Children(keys, prefix)
  {
    var segment, rest := q[|prefix|..], key[|prefix|..];
    assert segment <= rest;
    NoSlashes(segment);
    assert '/' in rest;
    SegmentOf(rest);
    OnePathAtDepth(segment, rest[..Slash(rest) + 1], rest, 1);
    assert q == key[..|prefix| + Slash(rest) + 1];
  }

  // ---------------------------------------------------------------- every level

  /** The bucket's listing of a prefix, page by page. */
  type Listing = string -> seq<seq<string>>

  /** The listing answers each common prefix of the keys, once, over its pages. */
  ghost predicate Lists(keys: set<string>, list: Listing) {
    forall p :: Distinct(Flatten(list(p))) && Elems(Flatten(list(p))) == Children(keys, p)
  }

  function Below(list: Listing, level: seq<string>): seq<string> {
    if level == [] then [] else Below(list, level[..|level| - 1]) + Flatten(list(level[|level| - 1]))
  }

  function Level(list: Listing, prefix: string, n: nat): seq<string> {
    if n == 0 then [prefix] else Below(list, Level(list, prefix, n - 1))
  }

  predicate AtDepth(prefix: string, p: string, n: nat) {
    prefix <= p && IsPath(p[|prefix|..], n)
  }

  predicate Holds(keys: set<string>, p: string) {
    exists key :: key in keys && p <= key
  }

  lemma {:induction false} BelowIff(keys: set<string>, list: Listing, level: seq<string>, q: string)
    requires Lists(keys, list)
    ensures q in Below(list, level) <==> exists p :: p in level && q in Children(keys, p)
  {
    if level != [] {
      var rest, last := level[..|level| - 1], level[|level| - 1];
      BelowIff(keys, list, rest, q);
      assert level == rest + [last];
      assert q in Flatten(list(last)) <==> q in Elems(Flatten(list(last)));
    }
  }

  lemma ChildAtDepth(keys: set<string>, prefix: string, p: string, q: string, n: nat)
    requires AtDepth(prefix, p, n) && q in Children(keys, p)
    ensures AtDepth(prefix, q, n + 1) && Holds(keys, q)
  {
    ChildIff(keys, p, q);
    JoinPath(p[|prefix|..], q[|p|..], n);
    assert q[|prefix|..] == p[|prefix|..] + q[|p|..];
  }

  lemma ParentOf(keys: set<string>, prefix: string, q: string, n: nat) returns (p: string)
    requires AtDepth(prefix, q, n + 1) && Holds(keys, q)
    ensures AtDepth(prefix, p, n) && q in Children(keys, p) && (n > 0 ==> Holds(keys, p))
  {
    var c, segment := SplitPath(q[|prefix|..], n);
    p := prefix + c;
    assert q == p + segment && p[|prefix|..] == c && q[|p|..] == segment;
    ChildIff(keys, p, q);
    var key :| key in keys && q <= key;
    assert p <= key;
  }

  lemma {:induction false} LevelIsHeld(keys: set<string>, list: Listing, prefix: string, n: nat, q: string)
    requires Lists(keys, list) && q in Level(list, prefix, n)
    ensures AtDepth(prefix, q, n) && (n == 0 || Holds(keys, q))
  {
    if n > 0 {
      BelowIff(keys, list, Level(list, prefix, n - 1), q);
      var p :| p in Level(list, prefix, n - 1) && q in Children(keys, p);
      LevelIsHeld(keys, list, prefix, n - 1, p);
      ChildAtDepth(keys, prefix, p, q, n - 1);
    }
  }

  lemma {:induction false} HeldIsLevel(keys: set<string>, list: Listing, prefix: string, n: nat, q: string)
    requires Lists(keys, list) && AtDepth(prefix, q, n) && (n == 0 || Holds(keys, q))
    ensures q in Level(list, prefix, n)
  {
    if n == 0 {
      if q[|prefix|..] != "" { EndsInSlash(q[|prefix|..]); }
      assert q == prefix;
    } else {
      var p := ParentOf(keys, prefix, q, n - 1);
      HeldIsLevel(keys, list, prefix, n - 1, p);
      BelowIff(keys, list, Level(list, prefix, n - 1), q);
    }
  }

  /** A level is the paths of its depth that some key stands under. */
  lemma LevelIff(keys: set<string>, list: Listing, prefix: string, n: nat, q: string)
    requires Lists(keys, list)
    ensures q in Level(list, prefix, n) <==> AtDepth(prefix, q, n) && (n == 0 || Holds(keys, q))
  {
    if q in Level(list, prefix, n) {
      LevelIsHeld(keys, list, prefix, n, q);
    } else if AtDepth(prefix, q, n) && (n == 0 || Holds(keys, q)) {
      HeldIsLevel(keys, list, prefix, n, q);
    }
  }

  lemma OneParent(keys: set<string>, prefix: string, p: string, r: string, q: string, n: nat)
    requires AtDepth(prefix, p, n) && AtDepth(prefix, r, n)
    requires q in Children(keys, p) && q in Children(keys, r)
    ensures p == r
  {
    ChildIff(keys, p, q);
    ChildIff(keys, r, q);
    OnePathAtDepth(p[|prefix|..], r[|prefix|..], q[|prefix|..], n);
    assert p == prefix + p[|prefix|..] && r == prefix + r[|prefix|..];
  }

  lemma DistinctConcat<T>(a: seq<T>, b: seq<T>)
    requires Distinct(a) && Distinct(b) && forall x :: x in a ==> x !in b
    ensures Distinct(a + b)
  {
    forall i, j | 0 <= i < j < |a + b| ensures (a + b)[i] != (a + b)[j] {
      if i < |a| <= j { assert a[i] in a && b[j - |a|] in b; }
    }
  }

  lemma {:induction false} BelowDistinct(keys: set<string>, list: Listing, prefix: string, level: seq<string>, n: nat)
    requires Lists(keys, list) && Distinct(level) && forall k :: 0 <= k < |level| ==> AtDepth(prefix, level[k], n)
    ensures Distinct(Below(list, level))
  {
    if level != [] {
      var rest, last := level[..|level| - 1], level[|level| - 1];
      BelowDistinct(keys, list, prefix, rest, n);
      forall q | q in Below(list, rest) ensures q !in Flatten(list(last)) {
        BelowIff(keys, list, rest, q);
        if q in Flatten(list(last)) {
          assert q in Elems(Flatten(list(last)));
          var p :| p in rest && q in Children(keys, p);
          OneParent(keys, prefix, p, last, q, n);
        }
      }
      DistinctConcat(Below(list, rest), Flatten(list(last)));
    }
  }

  lemma {:induction false} LevelDistinct(keys: set<string>, list: Listing, prefix: string, n: nat)
    requires Lists(keys, list)
    ensures Distinct(Level(list, prefix, n))
  {
    if n > 0 {
      var level := Level(list, prefix, n - 1);
      LevelDistinct(keys, list, prefix, n - 1);
      forall k | 0 <= k < |level|
        ensures AtDepth(prefix, level[k], n - 1)
      {
        LevelIff(keys, list, prefix, n - 1, level[k]);
      }
      BelowDistinct(keys, list, prefix, level, n - 1);
    }
  }

  // ---------------------------------------------------------------- the partitions found

  /** The partitions of the prefixes that have one, each read from the prefix and one character more. */
  function Found(prefix: string, level: seq<string>): seq<Partition> {
    if level == [] then []
    else
      var v := Parse(level[|level| - 1] + "x", prefix);
      Found(prefix, level[..|level| - 1]) + (if v.Some? then [v.value] else [])
  }

  function ExistingPartitions(prefix: string, list: Listing): seq<Partition> {
    Found(prefix, Level(list, prefix, 4))
  }

  /** The pages of one listing, one after another. */
  method ChildPrefixes(list: Listing, prefix: string) returns (out: seq<string>)
    ensures out == Flatten(list(prefix))
  {
    out := [];
    var pages := list(prefix);
    for i := 0 to |pages|
      invariant out == Flatten(pages[..i])
    {
      assert pages[..i + 1] == pages[..i] + [pages[i]];
      FlattenSnoc(pages[..i], pages[i]);
      out := out + pages[i];
    }
    assert pages[..|pages|] == pages;
  }

  method ListPartitions(prefix: string, list: Listing) returns (found: seq<Partition>)
    ensures found == ExistingPartitions(prefix, list)
  {
    var level := [prefix];
    for depth := 0 to 4
      invariant level == Level(list, prefix, depth)
    {
      var next := [];
      for i := 0 to |level|
        invariant next == Below(list, level[..i])
      {
        assert level[..i + 1][..i] == level[..i];
        var children := ChildPrefixes(list, level[i]);
        next := next + children;
      }
      assert level[..|level|] == level;
      level := next;
    }
    found := [];
    for i := 0 to |level|
      invariant found == Found(prefix, level[..i])
    {
      assert level[..i + 1][..i] == level[..i];
      var v := Parse(level[i] + "x", prefix);
      if v.Some? { found := found + [v.value]; }
    }
    assert level[..|level|] == level;
  }

  // ---------------------------------------------------------------- exactly the partitions written

  /** One segment of a printed partition: a mark, a field, and the slash that closes it. */
  lemma SegmentDepth(mark: string, field: string, rest: string)
    requires '/' !in mark && '/' !in field && rest != "" && rest[0] == '/'
    ensures Depth(mark + (field + rest)) == Depth(rest)
  {
    NoSlashes(mark);
    NoSlashes(field);
    DepthConcat(mark, field + rest);
    DepthConcat(field, rest);
  }

  lemma DigitsPlain(s: string, n: nat)
    requires Digits(s, n)
    ensures '/' !in s
  {
  }

  lemma DayDepth(day: string)
    requires Digits(day, 2)
    ensures IsPath(DayPath(day), 2)
  {
    DigitsPlain(day, 2);
    SegmentDepth("day=", day, "/");
    assert DayPath(day)[1..] == "day=" + (day + "/");
    assert Depth("/") == 1 + Depth("");
  }

  lemma MonthDepth(v: Partition)
    requires Valid(v)
    ensures IsPath(MonthPath(v), 3)
  {
    DayDepth(v.day);
    DigitsPlain(v.month, 2);
    SegmentDepth("month=", v.month, DayPath(v.day));
    assert MonthPath(v)[1..] == "month=" + (v.month + DayPath(v.day));
  }

  lemma YearDepth(v: Partition)
    requires Valid(v)
    ensures IsPath(YearPath(v), 4)
  {
    MonthDepth(v);
    DigitsPlain(v.year, 4);
    SegmentDepth("year=", v.year, MonthPath(v));
    assert YearPath(v)[1..] == "year=" + (v.year + MonthPath(v));
  }

  lemma PrintedDepth(v: Partition)
    requires Valid(v)
    ensures IsPath(Printed(v), 4)
  {
    YearDepth(v);
    SegmentDepth("user_type=", v.userType, YearPath(v));
  }

  /** A prefix four levels down has a partition exactly when it is where that partition is printed. */
  lemma FourthLevelIff(prefix: string, p: string, v: Partition)
    requires AtDepth(prefix, p, 4)
    ensures Parse(p + "x", prefix) == Some(v) <==> Valid(v) && p == prefix + Printed(v)
  {
    ParseIff(p + "x", prefix, v);
    if Valid(v) {
      PrintedDepth(v);
      PrefixSplit(prefix, Printed(v), p + "x");
      var rest := (p + "x")[|prefix|..];
      assert p[|prefix|..] <= rest;
      if Printed(v) <= rest {
        OnePathAtDepth(p[|prefix|..], Printed(v), rest, 4);
        assert p == prefix + p[|prefix|..];
      }
    }
  }

  lemma {:induction false} FoundIff(prefix: string, level: seq<string>, v: Partition)
    requires forall k :: 0 <= k < |level| ==> AtDepth(prefix, level[k], 4)
    ensures v in Found(prefix, level) <==> Valid(v) && prefix + Printed(v) in level
  {
    if level != [] {
      var rest, last := level[..|level| - 1], level[|level| - 1];
      FoundIff(prefix, rest, v);
      FourthLevelIff(prefix, last, v);
      assert level == rest + [last];
    }
  }

  lemma {:induction false} FoundDistinct(prefix: string, level: seq<string>)
    requires Distinct(level) && forall k :: 0 <= k < |level| ==> AtDepth(prefix, level[k], 4)
    ensures Distinct(Found(prefix, level))
  {
    if level != [] {
      var rest, last := level[..|level| - 1], level[|level| - 1];
      FoundDistinct(prefix, rest);
      var v := Parse(last + "x", prefix);
      if v.Some? {
        FourthLevelIff(prefix, last, v.value);
        FoundIff(prefix, rest, v.value);
        assert last !in rest;
        DistinctConcat(Found(prefix, rest), [v.value]);
      }
    }
  }

  /** Some object is written under the partition. */
  predicate Written(keys: set<string>, prefix: string, v: Partition) {
    exists key :: key in keys && Parse(key, prefix) == Some(v)
  }

  lemma WrittenIff(keys: set<string>, prefix: string, v: Partition)
    ensures Written(keys, prefix, v) <==> Valid(v) && Holds(keys, prefix + Printed(v))
  {
    forall key | key in keys ensures Parse(key, prefix) == Some(v) <==> Valid(v) && prefix + Printed(v) <= key {
      ParseIff(key, prefix, v);
    }
  }

  /**
   * THE LISTING FINDS EXACTLY WHAT IS WRITTEN. Over any keys, four levels of common prefixes find each partition some
   * key is written under, once, and no other, whatever else stands beside them in the bucket.
   */
  lemma ListingIsWritten(keys: set<string>, prefix: string, list: Listing)
    requires Lists(keys, list)
    ensures Distinct(ExistingPartitions(prefix, list))
    ensures forall v :: v in ExistingPartitions(prefix, list) <==> Written(keys, prefix, v)
  {
    var level := Level(list, prefix, 4);
    LevelDistinct(keys, list, prefix, 4);
    forall k | 0 <= k < |level| ensures AtDepth(prefix, level[k], 4) { LevelIff(keys, list, prefix, 4, level[k]); }
    FoundDistinct(prefix, level);
    forall v ensures v in ExistingPartitions(prefix, list) <==> Written(keys, prefix, v) {
      ListedIff(keys, prefix, list, v);
    }
  }

  lemma ListedIff(keys: set<string>, prefix: string, list: Listing, v: Partition)
    requires Lists(keys, list)
    ensures v in ExistingPartitions(prefix, list) <==> Written(keys, prefix, v)
  {
    var level, p := Level(list, prefix, 4), prefix + Printed(v);
    forall k | 0 <= k < |level| ensures AtDepth(prefix, level[k], 4) { LevelIff(keys, list, prefix, 4, level[k]); }
    FoundIff(prefix, level, v);
    WrittenIff(keys, prefix, v);
    LevelIff(keys, list, prefix, 4, p);
    if Valid(v) {
      PrintedDepth(v);
      assert p[|prefix|..] == Printed(v);
    }
  }
}
