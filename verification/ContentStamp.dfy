/**
 * The classification unclassified content is stamped with (backend/lib/profile-registry.ts, failClosedContentValue).
 */
module ContentStamp {
  import opened Prelude
  import opened Registry

  /** The classifications that hold conversations of the deployment's own people, in declaration order. */
  function Conversational(cfg: Config): seq<string> {
    Map((c: Classification) => c.value, Filter((c: Classification) => !c.adminPlane && !c.outside, cfg.classifications))
  }

  /** How many declared classifications reach `target`. */
  function ReachCount(cfg: Config, target: string): nat {
    |Filter((c: Classification) => Reaches(cfg, c.value, target), cfg.classifications)|
  }

  function CountReach(cfg: Config): string -> nat {
    v => ReachCount(cfg, v)
  }

  /** Left to right, a value replaces the best so far when its count is strictly smaller. */
  function Reduced(count: string -> nat, values: seq<string>): string
    requires values != []
  {
    var n := |values| - 1;
    if n == 0 then values[0]
    else
      var best := Reduced(count, values[..n]);
      if count(values[n]) < count(best) then values[n] else best
  }

  /** The stamp, or nothing where no classification is conversational: the source throws there. */
  function FailClosedContentValue(cfg: Config): Option<string> {
    if Conversational(cfg) == [] then None else Some(Reduced(CountReach(cfg), Conversational(cfg)))
  }

  /** `values[i]` counts no more than any other, and strictly less than any before it. */
  predicate FirstFewest(count: string -> nat, values: seq<string>, i: nat)
    requires i < |values|
  {
    && (forall k :: 0 <= k < |values| ==> count(values[i]) <= count(values[k]))
    && (forall k :: 0 <= k < i ==> count(values[i]) < count(values[k]))
  }

  lemma {:induction false} ReducedIsFirstFewest(count: string -> nat, values: seq<string>) returns (i: nat)
    requires values != []
    ensures i < |values| && values[i] == Reduced(count, values) && FirstFewest(count, values, i)
  {
    var n := |values| - 1;
    i := 0;
    if n > 0 {
      var init := values[..n];
      i := ReducedIsFirstFewest(count, init);
      forall k | 0 <= k < n ensures count(init[i]) <= count(values[k]) { assert init[k] == values[k]; }
      forall k | 0 <= k < i ensures count(init[i]) < count(values[k]) { assert init[k] == values[k]; }
      if count(values[n]) < count(values[i]) { i := n; }
    }
  }

  lemma ConversationalIff(cfg: Config, v: string)
    ensures v in Conversational(cfg) <==>
      exists c :: c in cfg.classifications && c.value == v && !c.adminPlane && !c.outside
  {
    var kept := Filter((c: Classification) => !c.adminPlane && !c.outside, cfg.classifications);
    if v in Conversational(cfg) {
      var i :| 0 <= i < |kept| && Conversational(cfg)[i] == v;
      assert kept[i] in kept;
    }
    if c :| c in cfg.classifications && c.value == v && !c.adminPlane && !c.outside {
      var i :| 0 <= i < |kept| && kept[i] == c;
      assert Conversational(cfg)[i] == v;
    }
  }

  /** Somebody still reaches the stamp: the classification it names. */
  lemma StampIsReached(cfg: Config)
    requires WellFormed(cfg)
    ensures FailClosedContentValue(cfg).Some? ==>
      ReachCount(cfg, FailClosedContentValue(cfg).value) >= 1
      && exists c :: c in cfg.classifications && FailClosedContentValue(cfg).value in c.grants
  {
    if Conversational(cfg) != [] {
      var i := ReducedIsFirstFewest(CountReach(cfg), Conversational(cfg));
      var stamp := Conversational(cfg)[i];
      ConversationalIff(cfg, stamp);
      var c :| c in cfg.classifications && c.value == stamp;
      assert Declared(cfg)[PlaceOf(cfg, c)] == stamp;
      OwnGrants(cfg, stamp);
      assert c in Filter((c: Classification) => Reaches(cfg, c.value, stamp), cfg.classifications);
    }
  }

  /** The declared classifications that grant `v`. */
  function Granters(cfg: Config, v: string): set<string> {
    set c | c in cfg.classifications && v in c.grants :: c.value
  }

  function ValuesWhere(p: Classification -> bool, cs: seq<Classification>): set<string> {
    set c | c in cs && p(c) :: c.value
  }

  lemma ValuesSplit(p: Classification -> bool, cs: seq<Classification>)
    requires cs != []
    ensures ValuesWhere(p, cs) == ValuesWhere(p, cs[1..]) + (if p(cs[0]) then {cs[0].value} else {})
  {
    assert forall c :: c in cs <==> c == cs[0] || c in cs[1..];
  }

  lemma {:induction false} CountedOnce(p: Classification -> bool, cs: seq<Classification>)
    requires forall i, j :: 0 <= i < j < |cs| ==> cs[i].value != cs[j].value
    ensures |Filter(p, cs)| == |ValuesWhere(p, cs)|
  {
    if cs != [] {
      CountedOnce(p, cs[1..]);
      ValuesSplit(p, cs);
      assert cs[0].value !in ValuesWhere(p, cs[1..]);
    }
  }

  lemma GrantIff(cfg: Config, c: Classification, v: string)
    requires WellFormed(cfg) && c in cfg.classifications
    ensures Reaches(cfg, c.value, v) <==> v in c.grants
  {
    GrantsOfDeclared(cfg, c);
    assert v in Grants(cfg, c.value) <==> v in Elems(c.grants);
  }

  lemma GrantersWhere(cfg: Config, v: string, p: Classification -> bool)
    requires forall c :: c in cfg.classifications ==> (p(c) <==> v in c.grants)
    ensures ValuesWhere(p, cfg.classifications) == Granters(cfg, v)
  {
  }

  /** What the count counts: the classifications that declare a grant of the value. */
  lemma CountsGranters(cfg: Config, v: string)
    requires WellFormed(cfg)
    ensures ReachCount(cfg, v) == |Granters(cfg, v)|
  {
    ValuesApart(cfg);
    CountedOnce((c: Classification) => Reaches(cfg, c.value, v), cfg.classifications);
    forall c | c in cfg.classifications ensures Reaches(cfg, c.value, v) <==> v in c.grants { GrantIff(cfg, c, v); }
    GrantersWhere(cfg, v, (c: Classification) => Reaches(cfg, c.value, v));
  }

  lemma ValuesApart(cfg: Config)
    requires WellFormed(cfg)
    ensures forall i, j :: 0 <= i < j < |cfg.classifications| ==>
      cfg.classifications[i].value != cfg.classifications[j].value
  {
    forall i, j | 0 <= i < j < |cfg.classifications|
      ensures cfg.classifications[i].value != cfg.classifications[j].value
    {
      assert Declared(cfg)[i] != Declared(cfg)[j];
    }
  }

  predicate HoldsConversations(c: Classification) {
    !c.adminPlane && !c.outside
  }

  /** A filter keeps what it keeps in the order it came. */
  lemma {:induction false} FilterPlaces(p: Classification -> bool, cs: seq<Classification>, i: nat) returns (k: nat)
    requires i < |Filter(p, cs)|
    ensures k < |cs| && cs[k] == Filter(p, cs)[i] && p(cs[k])
    ensures |Filter(p, cs[..k])| == i
  {
    if p(cs[0]) && i == 0 {
      k := 0;
    } else {
      var before := FilterPlaces(p, cs[1..], if p(cs[0]) then i - 1 else i);
      k := before + 1;
      assert cs[..k] == [cs[0]] + cs[1..][..before];
    }
  }

  lemma FilterKeepsPlace(p: Classification -> bool, cs: seq<Classification>, k: nat)
    requires k < |cs| && p(cs[k])
    ensures |Filter(p, cs[..k])| < |Filter(p, cs)|
    ensures Filter(p, cs)[|Filter(p, cs[..k])|] == cs[k]
  {
    assert cs == cs[..k] + cs[k..] && cs[k..] == [cs[k]] + cs[k + 1..];
    FilterConcat(p, cs[..k], cs[k..]);
  }

  lemma FilterShorter(p: Classification -> bool, cs: seq<Classification>, j: nat, k: nat)
    requires j < k <= |cs| && p(cs[j])
    ensures |Filter(p, cs[..j])| < |Filter(p, cs[..k])|
  {
    FilterKeepsPlace(p, cs[..k], j);
    assert cs[..k][..j] == cs[..j];
  }

  /** The stamp is declared at `s`: fewest grant it, and of those that as few do, it is declared first. */
  predicate StampedAt(cfg: Config, s: nat)
    requires s < |cfg.classifications|
  {
    var cs := cfg.classifications;
    && HoldsConversations(cs[s])
    && (forall k :: 0 <= k < |cs| && HoldsConversations(cs[k]) ==>
          |Granters(cfg, cs[s].value)| <= |Granters(cfg, cs[k].value)|)
    && (forall k :: 0 <= k < s && HoldsConversations(cs[k]) ==>
          |Granters(cfg, cs[s].value)| < |Granters(cfg, cs[k].value)|)
  }

  lemma ConversationalAt(cfg: Config, k: nat) returns (i: nat)
    requires k < |cfg.classifications| && HoldsConversations(cfg.classifications[k])
    ensures i < |Conversational(cfg)| && Conversational(cfg)[i] == cfg.classifications[k].value
    ensures i == |Filter((c: Classification) => !c.adminPlane && !c.outside, cfg.classifications[..k])|
  {
    FilterKeepsPlace((c: Classification) => !c.adminPlane && !c.outside, cfg.classifications, k);
    i := |Filter((c: Classification) => !c.adminPlane && !c.outside, cfg.classifications[..k])|;
  }

  /**
   * THE STAMP WITHHOLDS FROM THE MOST. It is the first conversational classification, in declaration order, that the
   * fewest classifications grant; there is none exactly where no classification is conversational, and so it is never
   * an admin plane or an outside audience.
   */
  lemma StampIsFirstFewest(cfg: Config) returns (s: nat)
    requires WellFormed(cfg)
    ensures FailClosedContentValue(cfg).None? <==> forall c :: c in cfg.classifications ==> c.adminPlane || c.outside
    ensures FailClosedContentValue(cfg).Some? ==>
      s < |cfg.classifications| && StampedAt(cfg, s)
        && FailClosedContentValue(cfg) == Some(cfg.classifications[s].value)
  {
    s := 0;
    NoneConversational(cfg);
    if Conversational(cfg) != [] {
      var i := ReducedIsFirstFewest(CountReach(cfg), Conversational(cfg));
      s := FilterPlaces((c: Classification) => !c.adminPlane && !c.outside, cfg.classifications, i);
      FewestAt(cfg, s, i);
    }
  }

  lemma FewestBeside(cfg: Config, s: nat, i: nat, k: nat)
    requires WellFormed(cfg) && s < |cfg.classifications| && k < |cfg.classifications|
    requires HoldsConversations(cfg.classifications[k])
    requires i < |Conversational(cfg)| && FirstFewest(CountReach(cfg), Conversational(cfg), i)
    requires Conversational(cfg)[i] == cfg.classifications[s].value
    requires i == |Filter((c: Classification) => !c.adminPlane && !c.outside, cfg.classifications[..s])|
    ensures ReachCount(cfg, cfg.classifications[s].value) <= ReachCount(cfg, cfg.classifications[k].value)
    ensures k < s ==> ReachCount(cfg, cfg.classifications[s].value) < ReachCount(cfg, cfg.classifications[k].value)
  {
    var cs := cfg.classifications;
    var j := ConversationalAt(cfg, k);
    assert CountReach(cfg)(Conversational(cfg)[j]) == ReachCount(cfg, cs[k].value);
    assert CountReach(cfg)(Conversational(cfg)[i]) == ReachCount(cfg, cs[s].value);
    if k < s { FilterShorter((c: Classification) => !c.adminPlane && !c.outside, cs, k, s); }
  }

  lemma FewestAt(cfg: Config, s: nat, i: nat)
    requires WellFormed(cfg) && s < |cfg.classifications| && HoldsConversations(cfg.classifications[s])
    requires i < |Conversational(cfg)| && FirstFewest(CountReach(cfg), Conversational(cfg), i)
    requires Conversational(cfg)[i] == cfg.classifications[s].value
    requires i == |Filter((c: Classification) => !c.adminPlane && !c.outside, cfg.classifications[..s])|
    ensures StampedAt(cfg, s)
  {
    var cs := cfg.classifications;
    CountsGranters(cfg, cs[s].value);
    forall k | 0 <= k < |cs| && HoldsConversations(cs[k])
      ensures |Granters(cfg, cs[s].value)| <= |Granters(cfg, cs[k].value)|
      ensures k < s ==> |Granters(cfg, cs[s].value)| < |Granters(cfg, cs[k].value)|
    {
      FewestBeside(cfg, s, i, k);
      CountsGranters(cfg, cs[k].value);
    }
  }

  lemma NoneConversational(cfg: Config)
    ensures Conversational(cfg) == [] <==> forall c :: c in cfg.classifications ==> c.adminPlane || c.outside
  {
    if Conversational(cfg) != [] {
      assert Conversational(cfg)[0] in Conversational(cfg);
      ConversationalIff(cfg, Conversational(cfg)[0]);
    }
    if c :| c in cfg.classifications && !c.adminPlane && !c.outside {
      ConversationalIff(cfg, c.value);
    }
  }
}
