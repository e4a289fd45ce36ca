/**
 * The archive's object keys and the partitions they are written under
 * (backend/lambda/src/archive-partition-registrar.ts).
 */
module ArchiveKeys {
  import opened Prelude

  datatype Partition = Partition(userType: string, year: string, month: string, day: string)

  predicate Digits(s: string, n: nat) {
    |s| == n && forall i :: 0 <= i < |s| ==> '0' <= s[i] <= '9'
  }

  lemma DigitsAre(s: string, n: nat)
    ensures Digits(s, n) <==> |s| == n && forall c :: c in s ==> c in "0123456789"
  {
    if Digits(s, n) {
      forall c | c in s ensures c in "0123456789" {
        assert "0123456789"[(c - '0') as int] == c;
      }
    }
    if |s| == n && forall c :: c in s ==> c in "0123456789" {
      forall i | 0 <= i < |s| ensures '0' <= s[i] <= '9' { assert s[i] in "0123456789"; }
    }
  }

  predicate Valid(v: Partition) {
    v.userType != "" && '/' !in v.userType && Digits(v.year, 4) && Digits(v.month, 2) && Digits(v.day, 2)
  }

  function DayPath(day: string): string { "/day=" + (day + "/") }
  function MonthPath(v: Partition): string { "/month=" + (v.month + DayPath(v.day)) }
  function YearPath(v: Partition): string { "/year=" + (v.year + MonthPath(v)) }

  /** Where a partition's objects stand below the archive's prefix. */
  function Printed(v: Partition): string { "user_type=" + (v.userType + YearPath(v)) }

  /** A partition's path, as one string. */
  lemma PrintedWhole(v: Partition)
    ensures Printed(v) ==
            "user_type=" + v.userType + "/year=" + v.year + "/month=" + v.month + "/day=" + v.day + "/"
  {
  }

  // ---------------------------------------------------------------- the parser

  /** Where the first slash stands; the length where there is none. */
  function Slash(s: string): (i: nat)
    ensures i <= |s| && (i < |s| ==> s[i] == '/')
    ensures forall k :: 0 <= k < i ==> s[k] != '/'
  {
    if s == "" || s[0] == '/' then 0 else 1 + Slash(s[1..])
  }

  function ParseDay(s: string): Option<string> {
    if !("/day=" <= s) then None
    else
      var r := s[5..];
      if |r| >= 3 && Digits(r[..2], 2) && r[2] == '/' then Some(r[..2]) else None
  }

  function ParseMonth(s: string): Option<(string, string)> {
    if !("/month=" <= s) then None
    else
      var r := s[7..];
      if |r| < 2 || !Digits(r[..2], 2) then None
      else
        var day := ParseDay(r[2..]);
        if day.Some? then Some((r[..2], day.value)) else None
  }

  function ParseYear(s: string): Option<(string, string, string)> {
    if !("/year=" <= s) then None
    else
      var r := s[6..];
      if |r| < 4 || !Digits(r[..4], 4) then None
      else
        var rest := ParseMonth(r[4..]);
        if rest.Some? then Some((r[..4], rest.value.0, rest.value.1)) else None
  }

  /** The partition a key is written under. A key that is not under one has none. */
  function Parse(key: string, prefix: string): Option<Partition> {
    if !(prefix + "user_type=" <= key) then None
    else
      var r := key[|prefix| + 10..];
      var i := Slash(r);
      if i == 0 || i == |r| then None
      else
        var rest := ParseYear(r[i..]);
        if rest.Some? then Some(Partition(r[..i], rest.value.0, rest.value.1, rest.value.2)) else None
  }

  lemma PrefixSplit(a: string, b: string, s: string)
    ensures a + b <= s <==> a <= s && b <= s[|a|..]
  {
    if a <= s && b <= s[|a|..] {
      assert s == a + s[|a|..];
    }
    if a + b <= s {
      assert s[..|a|] == a && s[|a|..][..|b|] == b;
    }
  }

  /** What stands between two marks: `a`, then something of one length, then `b`. */
  lemma FieldSplit(a: string, field: string, b: string, s: string)
    ensures a + (field + b) <= s <==>
            a <= s && |field| <= |s[|a|..]| && s[|a|..][..|field|] == field && b <= s[|a|..][|field|..]
  {
    PrefixSplit(a, field + b, s);
    if a <= s {
      PrefixSplit(field, b, s[|a|..]);
      assert field <= s[|a|..] <==> |field| <= |s[|a|..]| && s[|a|..][..|field|] == field;
    }
  }

  lemma DayIff(s: string, day: string)
    ensures ParseDay(s) == Some(day) <==> Digits(day, 2) && DayPath(day) <= s
  {
    FieldSplit("/day=", day, "/", s);
  }

  lemma MonthIff(s: string, v: Partition)
    ensures ParseMonth(s) == Some((v.month, v.day)) <==> Digits(v.month, 2) && Digits(v.day, 2) && MonthPath(v) <= s
  {
    FieldSplit("/month=", v.month, DayPath(v.day), s);
    if "/month=" <= s && |s[7..]| >= 2 { DayIff(s[7..][2..], v.day); }
  }

  lemma YearIff(s: string, v: Partition)
    ensures ParseYear(s) == Some((v.year, v.month, v.day)) <==>
            Digits(v.year, 4) && Digits(v.month, 2) && Digits(v.day, 2) && YearPath(v) <= s
  {
    FieldSplit("/year=", v.year, MonthPath(v), s);
    if "/year=" <= s && |s[6..]| >= 4 { MonthIff(s[6..][4..], v); }
  }

  /** A name before a slash ends at the first slash. */
  lemma NameEnds(r: string, name: string, rest: string)
    requires '/' !in name && rest != "" && rest[0] == '/' && name + rest <= r
    ensures Slash(r) == |name| && r[..|name|] == name && rest <= r[|name|..]
  {
    PrefixSplit(name, rest, r);
    assert r[|name|..][0] == rest[0];
    forall k | 0 <= k < |name| ensures r[k] != '/' {
      assert r[k] == name[k];
      assert name[k] in name;
    }
  }

  /**
   * THE PARSER READS EXACTLY WHAT IS PRINTED. A key's partition is `v` just when `v` is a partition and the key stands
   * under where `v` is printed.
   */
  lemma ParseIff(key: string, prefix: string, v: Partition)
    ensures Parse(key, prefix) == Some(v) <==> Valid(v) && prefix + Printed(v) <= key
  {
    assert prefix + Printed(v) == (prefix + "user_type=") + (v.userType + YearPath(v));
    PrefixSplit(prefix + "user_type=", v.userType + YearPath(v), key);
    if prefix + "user_type=" <= key {
      var r := key[|prefix| + 10..];
      var i := Slash(r);
      YearIff(r[i..], v);
      PrefixSplit(v.userType, YearPath(v), r);
      if Valid(v) && v.userType + YearPath(v) <= r {
        NameEnds(r, v.userType, YearPath(v));
      }
    }
  }
}
