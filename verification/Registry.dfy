/**
 * The classification registry's reach algebra (backend/lib/profile-registry.ts). A classification is a set, the
 * classifications it grants, and a person carries one token standing for everything they hold.
 */
module Registry {
  import opened Prelude
  import opened Sorting

  datatype Classification = Classification(
    value: string,
    aliases: seq<string>,
    grants: seq<string>,
    adminPlane: bool,
    outside: bool,
    profile: string,
    roles: seq<string>)

  /** A map as the source's objects hold one: entries in insertion order, one per key. */
  type Entries = seq<(string, string)>

  datatype Config = Config(
    classifications: seq<Classification>,
    profiles: seq<string>,
    groupClearance: Entries,
    membershipGroups: map<string, string>)

  function Lookup(entries: Entries, key: string): (r: Option<string>)
    ensures r.Some? <==> exists e :: e in entries && e.0 == key
    ensures r.Some? ==> (key, r.value) in entries
  {
    if entries == [] then None
    else if entries[0].0 == key then Some(entries[0].1)
    else Lookup(entries[1..], key)
  }

  function Declared(cfg: Config): (r: seq<string>)
    ensures |r| == |cfg.classifications|
    ensures forall i :: 0 <= i < |r| ==> r[i] == cfg.classifications[i].value
  {
    Map((c: Classification) => c.value, cfg.classifications)
  }

  function Find(cs: seq<Classification>, value: string): (r: Option<Classification>)
    ensures r.Some? ==> r.value in cs && r.value.value == value
    ensures r.None? ==> forall c :: c in cs ==> c.value != value
  {
    if cs == [] then None else if cs[0].value == value then Some(cs[0]) else Find(cs[1..], value)
  }

  function FindAlias(cs: seq<Classification>, tag: string): (r: Option<Classification>)
    ensures r.Some? ==> r.value in cs && tag in r.value.aliases
    ensures r.None? ==> forall c :: c in cs ==> tag !in c.aliases
  {
    if cs == [] then None else if tag in cs[0].aliases then Some(cs[0]) else FindAlias(cs[1..], tag)
  }

  /** A tag value as a declared classification: itself, or the one it is an alias of. */
  function Resolve(cfg: Config, tag: string): (r: Option<string>)
    ensures r.Some? ==> r.value in Declared(cfg)
  {
    if Find(cfg.classifications, tag).Some? then Some(tag)
    else
      var aliased := FindAlias(cfg.classifications, tag);
      if aliased.Some? then
        var i := PlaceOf(cfg, aliased.value);
        Some(Declared(cfg)[i])
      else None
  }

  function PlaceOf(cfg: Config, c: Classification): (i: nat)
    requires c in cfg.classifications
    ensures i < |cfg.classifications| && cfg.classifications[i] == c
  {
    IndexOf(cfg.classifications, c)
  }

  predicate IsPlane(cfg: Config, value: string) {
    var c := Find(cfg.classifications, value);
    c.Some? && c.value.adminPlane
  }

  function AdminPlaneValues(cfg: Config): seq<string> {
    Map((c: Classification) => c.value, Filter((c: Classification) => c.adminPlane, cfg.classifications))
  }

  // ---------------------------------------------------------------- validation

  function Joined(values: seq<string>): string {
    if values == [] then "" else if |values| == 1 then values[0] else values[0] + "," + Joined(values[1..])
  }

  /** What validation compares two grant lists by: their values in order, joined. */
  function GrantKey(grants: seq<string>): string {
    Joined(Sort(StringLe, grants))
  }

  lemma SameGrantKey(a: seq<string>, b: seq<string>)
    requires multiset(a) == multiset(b)
    ensures GrantKey(a) == GrantKey(b)
  {
    StringOrders();
    SortForgetsOrder(StringLe, a, b);
  }

  /** Every grant is declared, every classification grants itself, and no two grant the same list in any order. */
  predicate GrantsDeclared(cfg: Config) {
    && Distinct(Declared(cfg))
    && (forall c :: c in cfg.classifications ==> c.value in c.grants)
    && (forall c, g :: c in cfg.classifications && g in c.grants ==> g in Declared(cfg))
    && (forall i, j :: 0 <= i < j < |cfg.classifications| ==>
          GrantKey(cfg.classifications[i].grants) != GrantKey(cfg.classifications[j].grants))
  }

  /** The admin plane grants itself alone and nothing else grants it. */
  predicate PlanesAlone(cfg: Config) {
    && (forall c :: c in cfg.classifications && c.adminPlane ==> c.grants == [c.value])
    && (forall c, d :: c in cfg.classifications && d in cfg.classifications && !c.adminPlane && d.adminPlane ==>
          d.value !in c.grants)
  }

  /** An outside classification grants itself alone, nothing else grants it, and no group clears for it. */
  predicate OutsideAlone(cfg: Config) {
    && (forall c :: c in cfg.classifications && c.outside ==> !c.adminPlane && c.grants == [c.value])
    && (forall c, d :: c in cfg.classifications && d in cfg.classifications && c.outside && c != d ==>
      c.value !in d.grants)
    && (forall c, e :: c in cfg.classifications && c.outside && e in cfg.groupClearance ==> e.1 != c.value)
  }

  predicate PlanesApart(cfg: Config) {
    PlanesAlone(cfg) && OutsideAlone(cfg)
  }

  /** Groups clear for, and membership groups require, declared classifications; no group does both. */
  predicate GroupsDeclared(cfg: Config) {
    && (forall i, j :: 0 <= i < j < |cfg.groupClearance| ==> cfg.groupClearance[i].0 != cfg.groupClearance[j].0)
    && (forall e :: e in cfg.groupClearance ==> e.1 in Declared(cfg))
    && (forall g :: g in cfg.membershipGroups ==>
          cfg.membershipGroups[g] in Declared(cfg) && Lookup(cfg.groupClearance, g).None?)
  }

  /** Every classification's profile is declared, and none has a classification's name or a challenger's prefix. */
  predicate ProfilesApart(cfg: Config) {
    && (forall c :: c in cfg.classifications ==> c.profile in cfg.profiles)
    && (forall p :: p in cfg.profiles ==> p !in Declared(cfg) && !("alt-" <= p))
  }

  /** Aliases collide with nothing. */
  predicate AliasesApart(cfg: Config) {
    && (forall c :: c in cfg.classifications ==> Distinct(c.aliases))
    && (forall c, a :: c in cfg.classifications && a in c.aliases ==> a !in Declared(cfg))
    && (forall i, j, a :: 0 <= i < j < |cfg.classifications| && a in cfg.classifications[i].aliases ==>
          a !in cfg.classifications[j].aliases)
  }

  predicate NamesApart(cfg: Config) {
    ProfilesApart(cfg) && AliasesApart(cfg)
  }

  /** What `validateProfilesConfig` accepts, for everything this model reads. */
  predicate WellFormed(cfg: Config) {
    && cfg.classifications != [] && cfg.profiles != []
    && GrantsDeclared(cfg) && PlanesApart(cfg) && GroupsDeclared(cfg) && NamesApart(cfg)
  }

  /** No declared grant list names a classification twice. Validation does not ask this (`OwnTokenIffRepeatFree`). */
  predicate RepeatFree(cfg: Config) {
    forall c :: c in cfg.classifications ==> Distinct(c.grants)
  }

  // ---------------------------------------------------------------- grants

  /** The classifications a holder of `tag` reaches, in declaration order. */
  function GrantsFor(cfg: Config, tag: string): seq<string> {
    var resolved := Resolve(cfg, tag);
    var c := if resolved.Some? then Find(cfg.classifications, resolved.value) else None;
    if c.None? then []
    else Sort(ByIndex(Declared(cfg)), Filter(v => v in Declared(cfg), c.value.grants))
  }

  function Grants(cfg: Config, tag: string): set<string> {
    Elems(GrantsFor(cfg, tag))
  }

  predicate Reaches(cfg: Config, holder: string, target: string) {
    target in GrantsFor(cfg, holder)
  }

  lemma FindDeclared(cfg: Config, c: Classification)
    requires Distinct(Declared(cfg)) && c in cfg.classifications
    ensures Find(cfg.classifications, c.value) == Some(c)
  {
    var d := Find(cfg.classifications, c.value).value;
    var i, j := PlaceOf(cfg, c), PlaceOf(cfg, d);
    assert Declared(cfg)[i] == Declared(cfg)[j];
  }

  /** A declared classification reaches exactly what it declares. */
  lemma GrantsOfDeclared(cfg: Config, c: Classification)
    requires WellFormed(cfg) && c in cfg.classifications
    ensures multiset(GrantsFor(cfg, c.value)) == multiset(c.grants)
    ensures Grants(cfg, c.value) == Elems(c.grants)
  {
    FindDeclared(cfg, c);
    FilterAll(v => v in Declared(cfg), c.grants);
    SortMultiset(ByIndex(Declared(cfg)), c.grants);
    SortElems(ByIndex(Declared(cfg)), c.grants);
  }

  lemma {:induction false} AliasFound(cs: seq<Classification>, c: Classification, tag: string)
    requires c in cs && tag in c.aliases
    requires forall i, j :: 0 <= i < j < |cs| && tag in cs[i].aliases ==> tag !in cs[j].aliases
    ensures FindAlias(cs, tag) == Some(c)
  {
    if tag in cs[0].aliases {
      var j :| 0 <= j < |cs| && cs[j] == c;
      assert j == 0;
    } else {
      assert c in cs[1..];
      AliasFound(cs[1..], c, tag);
    }
  }

  /** A value, or an alias of one, resolves to the classification it names. */
  lemma ResolveIs(cfg: Config, c: Classification, tag: string)
    requires WellFormed(cfg) && c in cfg.classifications && (tag == c.value || tag in c.aliases)
    ensures Resolve(cfg, tag) == Some(c.value)
    ensures GrantsFor(cfg, tag) == GrantsFor(cfg, c.value)
  {
    FindDeclared(cfg, c);
    if tag != c.value {
      AliasFound(cfg.classifications, c, tag);
      assert tag !in Declared(cfg);
      NotFound(cfg, tag);
    }
  }

  lemma NotFound(cfg: Config, tag: string)
    requires tag !in Declared(cfg)
    ensures Find(cfg.classifications, tag).None?
  {
    forall c | c in cfg.classifications ensures c.value != tag { assert Declared(cfg)[PlaceOf(cfg, c)] == c.value; }
  }

  /** A reach lists what it holds in declaration order. */
  lemma GrantsInOrder(cfg: Config, tag: string, i: nat, j: nat)
    requires i < j < |GrantsFor(cfg, tag)|
    ensures IndexOf(Declared(cfg), GrantsFor(cfg, tag)[i]) <= IndexOf(Declared(cfg), GrantsFor(cfg, tag)[j])
  {
    var c := Find(cfg.classifications, Resolve(cfg, tag).value).value;
    ByIndexOrders(Declared(cfg));
    SortSorted(ByIndex(Declared(cfg)), Filter(v => v in Declared(cfg), c.grants));
  }

  /** Nothing else resolves, and what does not reaches nothing. */
  lemma UnknownIs(cfg: Config, tag: string)
    requires forall c :: c in cfg.classifications ==> tag != c.value && tag !in c.aliases
    ensures Resolve(cfg, tag) == None && GrantsFor(cfg, tag) == []
  {
  }

  function DeclaredAt(cfg: Config, value: string): (c: Classification)
    requires value in Declared(cfg)
    ensures c in cfg.classifications && c.value == value
  {
    cfg.classifications[IndexOf(Declared(cfg), value)]
  }

  // ---------------------------------------------------------------- tokens

  function FlatGrants(cfg: Config, held: seq<string>): seq<string> {
    if held == [] then [] else GrantsFor(cfg, held[0]) + FlatGrants(cfg, held[1..])
  }

  /** The union of what the held classifications grant. */
  function Union(cfg: Config, held: seq<string>): set<string> {
    Elems(FlatGrants(cfg, held))
  }

  lemma {:induction false} UnionMember(cfg: Config, held: seq<string>, g: string)
    ensures g in Union(cfg, held) <==> exists v :: v in held && g in Grants(cfg, v)
  {
    if held != [] {
      var rest := held[1..];
      UnionMember(cfg, rest, g);
      assert g in Union(cfg, held) <==> g in Grants(cfg, held[0]) || g in Union(cfg, rest) by {
        assert FlatGrants(cfg, held) == GrantsFor(cfg, held[0]) + FlatGrants(cfg, rest);
      }
      if v :| v in held && g in Grants(cfg, v) {
        assert v == held[0] || v in rest;
      }
    }
  }

  lemma UnionGrows(cfg: Config, a: seq<string>, b: seq<string>)
    requires Elems(a) <= Elems(b)
    ensures Union(cfg, a) <= Union(cfg, b)
  {
    forall g | g in Union(cfg, a) ensures g in Union(cfg, b) {
      UnionMember(cfg, a, g);
      UnionMember(cfg, b, g);
      var v :| v in a && g in Grants(cfg, v);
      assert v in Elems(b);
    }
  }

  /** The source's test for "this classification's grant set is the union": as long, and inside it. */
  predicate Matches(cfg: Config, c: Classification, union: set<string>) {
    var g := GrantsFor(cfg, c.value);
    |g| == |union| && forall v :: v in g ==> v in union
  }

  function MatchesUnion(cfg: Config, union: set<string>): Classification -> bool {
    c => Matches(cfg, c, union)
  }

  /** The first classification that fits, in declaration order. */
  function FirstMatch(fits: Classification -> bool, cs: seq<Classification>): (r: Option<string>)
    ensures r.Some? ==> exists c :: c in cs && c.value == r.value && fits(c)
    ensures r.None? ==> forall c :: c in cs ==> !fits(c)
  {
    if cs == [] then None
    else if fits(cs[0]) then Some(cs[0].value)
    else FirstMatch(fits, cs[1..])
  }

  function TokenForUnion(cfg: Config, held: seq<string>): Option<string> {
    if held == [] then None else FirstMatch(MatchesUnion(cfg, Union(cfg, held)), cfg.classifications)
  }

  /** Some declared classification grants exactly this set. */
  predicate Named(cfg: Config, s: set<string>) {
    exists c :: c in cfg.classifications && Elems(c.grants) == s
  }

  /** On a list that repeats nothing, the length test is set equality. */
  lemma MatchIsSetEquality(cfg: Config, c: Classification, union: set<string>)
    requires WellFormed(cfg) && c in cfg.classifications && Distinct(c.grants)
    ensures Matches(cfg, c, union) <==> Elems(c.grants) == union
  {
    GrantsOfDeclared(cfg, c);
    var g := GrantsFor(cfg, c.value);
    MultisetElems(c.grants, g);
    DistinctCard(g);
    if Matches(cfg, c, union) { SubsetCardEqual(Elems(g), union); }
  }

  lemma NamedOnce(cfg: Config, c: Classification, d: Classification)
    requires WellFormed(cfg) && c in cfg.classifications && d in cfg.classifications
    requires Distinct(c.grants) && Distinct(d.grants) && Elems(c.grants) == Elems(d.grants)
    ensures c == d
  {
    DistinctMultiset(c.grants);
    DistinctMultiset(d.grants);
    SameGrantKey(c.grants, d.grants);
    var i, j := PlaceOf(cfg, c), PlaceOf(cfg, d);
  }

  /**
   * THE EXACT TOKEN. With no repeated grant, a token exists exactly when some declared grant set equals the union of
   * what is held; it is the one classification whose set that is.
   */
  lemma ExactToken(cfg: Config, held: seq<string>)
    requires WellFormed(cfg) && RepeatFree(cfg) && held != []
    ensures TokenForUnion(cfg, held).Some? <==> Named(cfg, Union(cfg, held))
    ensures forall c :: c in cfg.classifications ==>
      (TokenForUnion(cfg, held) == Some(c.value) <==> Elems(c.grants) == Union(cfg, held))
  {
    var union := Union(cfg, held);
    var token := FirstMatch(MatchesUnion(cfg, union), cfg.classifications);
    forall c | c in cfg.classifications
      ensures Matches(cfg, c, union) <==> Elems(c.grants) == union
      ensures token == Some(c.value) <==> Elems(c.grants) == union
    {
      MatchIsSetEquality(cfg, c, union);
      if token.Some? {
        var t :| t in cfg.classifications && t.value == token.value && Matches(cfg, t, union);
        MatchIsSetEquality(cfg, t, union);
        FindDeclared(cfg, t);
        FindDeclared(cfg, c);
        if Elems(c.grants) == union { NamedOnce(cfg, c, t); }
      }
    }
  }

  /** A token grants exactly the union held just when its own list repeats nothing; otherwise less. */
  lemma TokenGrantsUnionIff(cfg: Config, held: seq<string>, c: Classification)
    requires WellFormed(cfg) && c in cfg.classifications && TokenForUnion(cfg, held) == Some(c.value)
    ensures Grants(cfg, c.value) <= Union(cfg, held)
    ensures Grants(cfg, c.value) == Union(cfg, held) <==> Distinct(c.grants)
  {
    var union := Union(cfg, held);
    var d :| d in cfg.classifications && d.value == c.value && Matches(cfg, d, union);
    FindDeclared(cfg, c);
    FindDeclared(cfg, d);
    InsideIff(cfg, c, union);
    InsideEither(c, union);
    GrantsOfDeclared(cfg, c);
  }

  // ---------------------------------------------------------------- repeated lists

  /** As long as the set, and inside it: what the token's test asks of a declared list. */
  predicate Inside(c: Classification, union: set<string>) {
    |c.grants| == |union| && Elems(c.grants) <= union
  }

  /** The set, each value once. */
  predicate Exactly(c: Classification, union: set<string>) {
    Distinct(c.grants) && Elems(c.grants) == union
  }

  lemma InsideIff(cfg: Config, c: Classification, union: set<string>)
    requires WellFormed(cfg) && c in cfg.classifications
    ensures Matches(cfg, c, union) <==> Inside(c, union)
  {
    GrantsOfDeclared(cfg, c);
    var g := GrantsFor(cfg, c.value);
    assert |multiset(g)| == |g| && |multiset(c.grants)| == |c.grants|;
    assert Elems(g) <= union <==> forall v :: v in g ==> v in union;
  }

  /** A list as long as the set and inside it is the set, or repeats a value and falls short of it. */
  lemma InsideEither(c: Classification, union: set<string>)
    ensures Exactly(c, union) ==> Inside(c, union)
    ensures Inside(c, union) ==>
      (Exactly(c, union) <==> Distinct(c.grants)) && (Elems(c.grants) == union <==> Distinct(c.grants))
  {
    DistinctCard(c.grants);
    if Inside(c, union) && Distinct(c.grants) { SubsetCardEqual(Elems(c.grants), union); }
  }

  /**
   * No list that repeats a value gets in the way of the set's name: each that is as long as the set and inside it, or
   * that has the set's values, has the list that is the set declared, and declared before it where it could be taken
   * for it.
   */
  predicate Unshadowed(cfg: Config, union: set<string>) {
    var cs := cfg.classifications;
    forall i :: 0 <= i < |cs| && !Distinct(cs[i].grants) && (Inside(cs[i], union) || Elems(cs[i].grants) == union) ==>
      NamedBefore(cs, union, if Inside(cs[i], union) then i else |cs|)
  }

  predicate NamedBefore(cs: seq<Classification>, union: set<string>, n: nat)
    requires n <= |cs|
  {
    exists j :: 0 <= j < n && Exactly(cs[j], union)
  }

  lemma RepeatFreeUnshadowed(cfg: Config, union: set<string>)
    requires RepeatFree(cfg)
    ensures Unshadowed(cfg, union)
  {
    forall i | 0 <= i < |cfg.classifications| ensures Distinct(cfg.classifications[i].grants) {
      assert cfg.classifications[i] in cfg.classifications;
    }
  }

  lemma {:induction false} FirstMatchAt(fits: Classification -> bool, cs: seq<Classification>) returns (i: nat)
    ensures i <= |cs| && forall k :: 0 <= k < i ==> !fits(cs[k])
    ensures i < |cs| ==> fits(cs[i]) && FirstMatch(fits, cs) == Some(cs[i].value)
    ensures i == |cs| ==> FirstMatch(fits, cs) == None
  {
    if cs == [] || fits(cs[0]) {
      i := 0;
    } else {
      var k := FirstMatchAt(fits, cs[1..]);
      i := k + 1;
    }
  }

  /** The first declared list the token's test passes, by the lists alone. */
  lemma TokenAt(cfg: Config, held: seq<string>) returns (i: nat)
    requires WellFormed(cfg) && held != []
    ensures var cs, union := cfg.classifications, Union(cfg, held);
            && i <= |cs| && (forall k :: 0 <= k < i ==> !Inside(cs[k], union))
            && (i < |cs| ==> Inside(cs[i], union) && TokenForUnion(cfg, held) == Some(cs[i].value)
                             && Grants(cfg, cs[i].value) == Elems(cs[i].grants))
            && (i == |cs| ==> TokenForUnion(cfg, held) == None)
  {
    var cs, union := cfg.classifications, Union(cfg, held);
    i := FirstMatchAt(MatchesUnion(cfg, union), cs);
    forall k | 0 <= k < |cs| ensures Matches(cfg, cs[k], union) <==> Inside(cs[k], union) {
      assert cs[k] in cs;
      InsideIff(cfg, cs[k], union);
    }
    if i < |cs| { GrantsOfDeclared(cfg, cs[i]); }
  }

  /**
   * The token names what is held: there is one exactly when some declared set is the union, and its grants are the
   * union.
   */
  predicate TokenNames(cfg: Config, held: seq<string>) {
    var token := TokenForUnion(cfg, held);
    && (token.Some? <==> Named(cfg, Union(cfg, held)))
    && (token.Some? ==> Grants(cfg, token.value) == Union(cfg, held))
  }

  /** THE TOKEN NAMES WHAT IS HELD, EXACTLY WHERE NO REPEATED LIST SHADOWS IT. On any set validation accepts. */
  lemma TokenNamesIff(cfg: Config, held: seq<string>)
    requires WellFormed(cfg) && held != []
    ensures TokenNames(cfg, held) <==> Unshadowed(cfg, Union(cfg, held))
  {
    if Unshadowed(cfg, Union(cfg, held)) { UnshadowedNames(cfg, held); }
    if TokenNames(cfg, held) { NamesUnshadowed(cfg, held); }
  }

  lemma UnshadowedNames(cfg: Config, held: seq<string>)
    requires WellFormed(cfg) && held != [] && Unshadowed(cfg, Union(cfg, held))
    ensures TokenNames(cfg, held)
  {
    var cs, union := cfg.classifications, Union(cfg, held);
    var i := TokenAt(cfg, held);
    if i < |cs| {
      assert cs[i] in cs;
      InsideEither(cs[i], union);
      if !Distinct(cs[i].grants) {
        var j :| 0 <= j < i && Exactly(cs[j], union);
        InsideEither(cs[j], union);
      }
    }
    if c :| c in cs && Elems(c.grants) == union {
      var k := PlaceOf(cfg, c);
      if !Distinct(c.grants) {
        assert NamedBefore(cs, union, if Inside(cs[k], union) then k else |cs|);
        var j :| 0 <= j < |cs| && Exactly(cs[j], union);
        InsideEither(cs[j], union);
      } else {
        InsideEither(cs[k], union);
      }
    }
  }

  lemma NamesUnshadowed(cfg: Config, held: seq<string>)
    requires WellFormed(cfg) && held != [] && TokenNames(cfg, held)
    ensures Unshadowed(cfg, Union(cfg, held))
  {
    var cs, union := cfg.classifications, Union(cfg, held);
    var f := TokenAt(cfg, held);
    forall i | 0 <= i < |cs| && !Distinct(cs[i].grants) && (Inside(cs[i], union) || Elems(cs[i].grants) == union)
      ensures NamedBefore(cs, union, if Inside(cs[i], union) then i else |cs|)
    {
      assert cs[i] in cs;
      assert f < |cs|;
      InsideEither(cs[f], union);
      assert Exactly(cs[f], union);
    }
  }

  lemma SingleUnion(cfg: Config, value: string)
    ensures Union(cfg, [value]) == Grants(cfg, value)
  {
    forall g ensures g in Union(cfg, [value]) <==> g in Grants(cfg, value) { UnionMember(cfg, [value], g); }
  }

  /** NO TOKEN EXCEEDS WHAT IS HELD. Whatever the grant lists repeat, a token grants nothing beyond the union held. */
  lemma TokenNeverExceeds(cfg: Config, held: seq<string>)
    ensures TokenForUnion(cfg, held).Some? ==> Grants(cfg, TokenForUnion(cfg, held).value) <= Union(cfg, held)
  {
    if TokenForUnion(cfg, held).Some? {
      var c :| c in cfg.classifications && c.value == TokenForUnion(cfg, held).value
        && Matches(cfg, c, Union(cfg, held));
    }
  }

  lemma RepeatedIsNotOwn(cfg: Config, c: Classification)
    requires WellFormed(cfg) && c in cfg.classifications && !Distinct(c.grants)
    ensures TokenForUnion(cfg, [c.value]) != Some(c.value)
  {
    if TokenForUnion(cfg, [c.value]) == Some(c.value) {
      SingleUnion(cfg, c.value);
      var d :| d in cfg.classifications && d.value == c.value && Matches(cfg, d, Grants(cfg, c.value));
      GrantsOfDeclared(cfg, c);
      FindDeclared(cfg, c);
      FindDeclared(cfg, d);
      DistinctCard(GrantsFor(cfg, c.value));
      MultisetElems(GrantsFor(cfg, c.value), c.grants);
    }
  }

  lemma OwnToken(cfg: Config, c: Classification)
    requires WellFormed(cfg) && RepeatFree(cfg) && c in cfg.classifications
    ensures TokenForUnion(cfg, [c.value]) == Some(c.value)
  {
    SingleUnion(cfg, c.value);
    GrantsOfDeclared(cfg, c);
    ExactToken(cfg, [c.value]);
  }

  /**
   * ONE HELD CLASSIFICATION IS ITS OWN TOKEN, EXACTLY WHEN NO GRANT LIST REPEATS. Validation accepts a list that
   * names a classification twice, and then some holder's token is not the classification they hold.
   */
  lemma OwnTokenIffRepeatFree(cfg: Config)
    requires WellFormed(cfg)
    ensures (forall c :: c in cfg.classifications && !c.adminPlane ==> TokenForUnion(cfg, [c.value]) == Some(c.value))
       <==> RepeatFree(cfg)
  {
    if RepeatFree(cfg) {
      forall c | c in cfg.classifications ensures TokenForUnion(cfg, [c.value]) == Some(c.value) { OwnToken(cfg, c); }
    } else {
      var c :| c in cfg.classifications && !Distinct(c.grants);
      RepeatedIsNotOwn(cfg, c);
    }
  }

  /**
   * Of what is held, the token is the one classification whose declared grant set is the union, and there is none where
   * none is.
   */
  predicate TokenIsExact(cfg: Config, held: seq<string>) {
    && (TokenForUnion(cfg, held).Some? <==> Named(cfg, Union(cfg, held)))
    && (forall c :: c in cfg.classifications ==>
          (TokenForUnion(cfg, held) == Some(c.value) <==> Elems(c.grants) == Union(cfg, held)))
  }

  /** THE TOKEN IS EXACT WHATEVER IS HELD, EXACTLY WHEN NO GRANT LIST REPEATS. */
  lemma ExactTokenIffRepeatFree(cfg: Config)
    requires WellFormed(cfg)
    ensures (forall held :: held != [] ==> TokenIsExact(cfg, held)) <==> RepeatFree(cfg)
  {
    if RepeatFree(cfg) {
      forall held | held != [] ensures TokenIsExact(cfg, held) { ExactToken(cfg, held); }
    } else {
      var c :| c in cfg.classifications && !Distinct(c.grants);
      RepeatedIsNotOwn(cfg, c);
      SingleUnion(cfg, c.value);
      GrantsOfDeclared(cfg, c);
      assert !TokenIsExact(cfg, [c.value]);
    }
  }

  // ---------------------------------------------------------------- holders

  /** What a person holds, as a vend carries it: one member token, and whether the admin plane is held beside it. */
  datatype Holder = Holder(token: Option<string>, adminPlane: bool)

  /** Each group's classification, once, in the order the groups name them. */
  function Held(cfg: Config, groups: seq<string>): seq<string> {
    if groups == [] then []
    else
      var before := Held(cfg, groups[..|groups| - 1]);
      var target := Lookup(cfg.groupClearance, groups[|groups| - 1]);
      if target.Some? && target.value in Declared(cfg) && target.value !in before
      then before + [target.value]
      else before
  }

  lemma {:induction false} HeldDistinct(cfg: Config, groups: seq<string>)
    ensures Distinct(Held(cfg, groups))
  {
    if groups != [] { HeldDistinct(cfg, groups[..|groups| - 1]); }
  }

  predicate ClearsFor(cfg: Config, groups: seq<string>, v: string) {
    v in Declared(cfg) && exists g :: g in groups && Lookup(cfg.groupClearance, g) == Some(v)
  }

  lemma {:induction false} HeldExactly(cfg: Config, groups: seq<string>, v: string)
    ensures v in Held(cfg, groups) <==> ClearsFor(cfg, groups, v)
  {
    if groups != [] {
      var rest, last := groups[..|groups| - 1], groups[|groups| - 1];
      HeldExactly(cfg, rest, v);
      assert groups == rest + [last];
      if ClearsFor(cfg, groups, v) {
        var g :| g in groups && Lookup(cfg.groupClearance, g) == Some(v);
        assert g in rest || g == last;
      }
      if ClearsFor(cfg, rest, v) {
        var g :| g in rest && Lookup(cfg.groupClearance, g) == Some(v);
        assert g in groups;
      }
    }
  }

  lemma MoreGroupsClearMore(cfg: Config, a: seq<string>, b: seq<string>)
    requires Elems(a) <= Elems(b)
    ensures Elems(Held(cfg, a)) <= Elems(Held(cfg, b))
  {
    forall v | v in Held(cfg, a) ensures v in Held(cfg, b) {
      HeldExactly(cfg, a, v);
      HeldExactly(cfg, b, v);
      var g :| g in a && Lookup(cfg.groupClearance, g) == Some(v);
      assert g in Elems(b);
    }
  }

  /** Every classification the groups clear for, in declaration order. */
  function ClearancesForGroups(cfg: Config, groups: seq<string>): seq<string> {
    Sort(ByIndex(Declared(cfg)), Held(cfg, groups))
  }

  function Members(cfg: Config, held: seq<string>): seq<string> {
    Filter(v => !IsPlane(cfg, v), held)
  }

  function Planes(cfg: Config, held: seq<string>): seq<string> {
    Filter(v => IsPlane(cfg, v), held)
  }

  function HolderOf(cfg: Config, held: seq<string>): Holder {
    var planes, members := Planes(cfg, held), Members(cfg, held);
    if members == [] then Holder(if planes == [] then None else Some(planes[0]), planes != [])
    else Holder(TokenForUnion(cfg, members), planes != [])
  }

  function HolderForGroups(cfg: Config, groups: seq<string>): Holder {
    HolderOf(cfg, ClearancesForGroups(cfg, groups))
  }

  function Dedup(s: seq<string>): (r: seq<string>)
    ensures Elems(r) == Elems(s)
  {
    if s == [] then []
    else
      var before := Dedup(s[..|s| - 1]);
      assert Elems(s) == Elems(s[..|s| - 1]) + {s[|s| - 1]};
      assert Elems(before + [s[|s| - 1]]) == Elems(before) + {s[|s| - 1]};
      if s[|s| - 1] in before then before else before + [s[|s| - 1]]
  }

  function ReachOf(cfg: Config, holder: Holder): seq<string> {
    var reach := if holder.token.Some? then GrantsFor(cfg, holder.token.value) else [];
    if !holder.adminPlane then reach else Dedup(reach + AdminPlaneValues(cfg))
  }

  predicate HolderReaches(cfg: Config, holder: Holder, target: string) {
    target in ReachOf(cfg, holder)
  }

  predicate HolderTokenCovers(cfg: Config, groups: seq<string>) {
    var held := ClearancesForGroups(cfg, groups);
    if held == [] then true
    else if HolderForGroups(cfg, groups).token.None? then false
    else forall v :: v in held ==> v in ReachOf(cfg, HolderOf(cfg, held))
  }

  lemma ClearanceElems(cfg: Config, groups: seq<string>)
    ensures Distinct(ClearancesForGroups(cfg, groups))
    ensures Elems(ClearancesForGroups(cfg, groups)) == Elems(Held(cfg, groups))
    ensures forall v :: v in ClearancesForGroups(cfg, groups) <==> v in Held(cfg, groups)
  {
    HeldDistinct(cfg, groups);
    SortElems(ByIndex(Declared(cfg)), Held(cfg, groups));
    forall v ensures v in ClearancesForGroups(cfg, groups) <==> v in Held(cfg, groups) {
      assert v in Elems(ClearancesForGroups(cfg, groups)) <==> v in Elems(Held(cfg, groups));
    }
  }

  /** What the groups clear for is listed in declaration order. */
  lemma ClearancesInOrder(cfg: Config, groups: seq<string>, i: nat, j: nat)
    requires i < j < |ClearancesForGroups(cfg, groups)|
    ensures var held := ClearancesForGroups(cfg, groups);
            IndexOf(Declared(cfg), held[i]) <= IndexOf(Declared(cfg), held[j])
  {
    ByIndexOrders(Declared(cfg));
    SortSorted(ByIndex(Declared(cfg)), Held(cfg, groups));
  }

  /** Some group clears for a classification that is, or is not, an admin plane. */
  predicate ClearsAs(cfg: Config, groups: seq<string>, plane: bool) {
    exists c :: c in cfg.classifications && c.adminPlane == plane && ClearsFor(cfg, groups, c.value)
  }

  lemma HeldClears(cfg: Config, groups: seq<string>, v: string)
    ensures v in ClearancesForGroups(cfg, groups) <==> ClearsFor(cfg, groups, v)
  {
    ClearanceElems(cfg, groups);
    HeldExactly(cfg, groups, v);
  }

  /** Of what the groups clear for, some is a plane, or some is not, exactly where the declarations say so. */
  lemma ClearsAsIff(cfg: Config, groups: seq<string>, plane: bool)
    requires WellFormed(cfg)
    ensures ClearsAs(cfg, groups, plane) <==>
      exists v :: v in ClearancesForGroups(cfg, groups) && IsPlane(cfg, v) == plane
  {
    if v :| v in ClearancesForGroups(cfg, groups) && IsPlane(cfg, v) == plane {
      HeldClears(cfg, groups, v);
      ClearsAsOne(cfg, groups, v);
    }
    if c :| c in cfg.classifications && c.adminPlane == plane && ClearsFor(cfg, groups, c.value) {
      HeldClears(cfg, groups, c.value);
      FindDeclared(cfg, c);
    }
  }

  lemma SplitHeld(cfg: Config, held: seq<string>)
    ensures Planes(cfg, held) != [] <==> exists v :: v in held && IsPlane(cfg, v)
    ensures Members(cfg, held) != [] <==> exists v :: v in held && !IsPlane(cfg, v)
  {
    if Planes(cfg, held) != [] { assert Planes(cfg, held)[0] in Planes(cfg, held); }
    if Members(cfg, held) != [] { assert Members(cfg, held)[0] in Members(cfg, held); }
    forall v | v in held ensures v in Planes(cfg, held) || v in Members(cfg, held) {}
  }

  lemma ClearsAsOne(cfg: Config, groups: seq<string>, v: string)
    requires WellFormed(cfg) && ClearsFor(cfg, groups, v)
    ensures ClearsAs(cfg, groups, IsPlane(cfg, v))
  {
    var c := DeclaredAt(cfg, v);
    FindDeclared(cfg, c);
  }

  /**
   * WHAT A PERSON CARRIES: the admin plane beside the token exactly where some group clears for one; a token for
   * nothing else but what their member classifications name; and of planes alone, the first declared.
   */
  lemma HolderIs(cfg: Config, groups: seq<string>)
    requires WellFormed(cfg)
    ensures var holder := HolderForGroups(cfg, groups);
            && (holder.adminPlane <==> ClearsAs(cfg, groups, true))
            && (ClearsAs(cfg, groups, false) ==>
                  holder.token == TokenForUnion(cfg, Members(cfg, ClearancesForGroups(cfg, groups))))
            && (!ClearsAs(cfg, groups, false) && ClearsAs(cfg, groups, true) ==>
                  && ClearancesForGroups(cfg, groups) != []
                  && holder.token == Some(ClearancesForGroups(cfg, groups)[0]))
            && (!ClearsAs(cfg, groups, false) && !ClearsAs(cfg, groups, true) ==> holder.token == None)
  {
    var held := ClearancesForGroups(cfg, groups);
    ClearsAsIff(cfg, groups, true);
    ClearsAsIff(cfg, groups, false);
    SplitHeld(cfg, held);
    if Members(cfg, held) == [] { FilterAll(v => IsPlane(cfg, v), held); }
  }

  /** THE HOLDER FORGETS ORDER AND DUPLICATES. Two lists naming the same groups stand for one holder. */
  lemma HolderForgetsOrder(cfg: Config, a: seq<string>, b: seq<string>)
    requires Elems(a) == Elems(b)
    ensures HolderForGroups(cfg, a) == HolderForGroups(cfg, b)
  {
    MoreGroupsClearMore(cfg, a, b);
    MoreGroupsClearMore(cfg, b, a);
    HeldDistinct(cfg, a);
    HeldDistinct(cfg, b);
    forall v | v in Held(cfg, a) ensures v in Elems(Declared(cfg)) { HeldExactly(cfg, a, v); }
    SortByIndexForgetsOrder(Declared(cfg), Held(cfg, a), Held(cfg, b));
  }

  lemma PlaneValuesArePlanes(cfg: Config, v: string)
    requires WellFormed(cfg)
    ensures v in AdminPlaneValues(cfg) <==> IsPlane(cfg, v)
  {
    var planes := Filter((c: Classification) => c.adminPlane, cfg.classifications);
    if v in AdminPlaneValues(cfg) {
      var i :| 0 <= i < |planes| && AdminPlaneValues(cfg)[i] == v;
      FindDeclared(cfg, planes[i]);
    }
    if IsPlane(cfg, v) {
      var c := Find(cfg.classifications, v).value;
      var i :| 0 <= i < |planes| && planes[i] == c;
      assert AdminPlaneValues(cfg)[i] == v;
    }
  }

  /** A member's grants hold itself and no admin plane; an admin plane's hold itself alone. */
  lemma OwnGrants(cfg: Config, v: string)
    requires WellFormed(cfg) && v in Declared(cfg)
    ensures v in Grants(cfg, v)
    ensures IsPlane(cfg, v) ==> Grants(cfg, v) == {v}
    ensures !IsPlane(cfg, v) ==> forall g :: g in Grants(cfg, v) ==> !IsPlane(cfg, g)
  {
    var c := DeclaredAt(cfg, v);
    FindDeclared(cfg, c);
    GrantsOfDeclared(cfg, c);
    assert c.value in Elems(c.grants);
    if !IsPlane(cfg, v) {
      forall g | g in Grants(cfg, v) ensures !IsPlane(cfg, g) {
        assert g in c.grants;
        var d := DeclaredAt(cfg, g);
        FindDeclared(cfg, d);
      }
    }
  }

  /** The member classifications the groups clear for. */
  function MembersHeld(cfg: Config, groups: seq<string>): seq<string> {
    Members(cfg, ClearancesForGroups(cfg, groups))
  }

  function PlanesHeld(cfg: Config, groups: seq<string>): seq<string> {
    Planes(cfg, ClearancesForGroups(cfg, groups))
  }

  lemma HeldIsDeclared(cfg: Config, groups: seq<string>, v: string)
    requires v in ClearancesForGroups(cfg, groups)
    ensures v in Declared(cfg)
  {
    ClearanceElems(cfg, groups);
    HeldExactly(cfg, groups, v);
  }

  lemma MembersUnion(cfg: Config, groups: seq<string>)
    requires WellFormed(cfg)
    ensures var m := MembersHeld(cfg, groups);
            && (forall v :: v in m ==> v in Declared(cfg) && v in Union(cfg, m))
            && (forall g :: g in Union(cfg, m) ==> !IsPlane(cfg, g))
  {
    var m := MembersHeld(cfg, groups);
    forall v | v in m ensures v in Declared(cfg) && v in Union(cfg, m) {
      HeldIsDeclared(cfg, groups, v);
      OwnGrants(cfg, v);
      UnionMember(cfg, m, v);
    }
    forall g | g in Union(cfg, m) ensures !IsPlane(cfg, g) {
      UnionMember(cfg, m, g);
      var v :| v in m && g in Grants(cfg, v);
      HeldIsDeclared(cfg, groups, v);
      OwnGrants(cfg, v);
    }
  }

  /** The admin-plane values, when any is held. */
  function PlaneReach(cfg: Config, groups: seq<string>): set<string> {
    if PlanesHeld(cfg, groups) == [] then {} else Elems(AdminPlaneValues(cfg))
  }

  /** What the member classifications held reach: their union where it has a name, and nothing where it has none. */
  function MemberReach(cfg: Config, groups: seq<string>): set<string> {
    var m := MembersHeld(cfg, groups);
    if m != [] && Named(cfg, Union(cfg, m)) then Union(cfg, m) else {}
  }

  /** A holder of no member classification has an admin plane for a token, which adds nothing to the plane's reach. */
  lemma PlaneTokenReach(cfg: Config, groups: seq<string>)
    requires WellFormed(cfg) && MembersHeld(cfg, groups) == []
    ensures var holder := HolderForGroups(cfg, groups);
            holder.token.Some? ==> Grants(cfg, holder.token.value) <= Elems(AdminPlaneValues(cfg))
  {
    var p := PlanesHeld(cfg, groups);
    if p != [] {
      assert p[0] in p;
      HeldIsDeclared(cfg, groups, p[0]);
      OwnGrants(cfg, p[0]);
      PlaneValuesArePlanes(cfg, p[0]);
    }
  }

  /** No repeated list shadows what the groups hold as members. */
  predicate HoldingClear(cfg: Config, groups: seq<string>) {
    MembersHeld(cfg, groups) == [] || Unshadowed(cfg, Union(cfg, MembersHeld(cfg, groups)))
  }

  lemma RepeatFreeClear(cfg: Config, groups: seq<string>)
    requires RepeatFree(cfg)
    ensures HoldingClear(cfg, groups)
  {
    RepeatFreeUnshadowed(cfg, Union(cfg, MembersHeld(cfg, groups)));
  }

  /** What a token grants, where there is one. */
  function TokenReach(cfg: Config, token: Option<string>): set<string> {
    if token.Some? then Grants(cfg, token.value) else {}
  }

  lemma MemberTokenReach(cfg: Config, groups: seq<string>)
    requires WellFormed(cfg) && MembersHeld(cfg, groups) != []
    ensures TokenReach(cfg, HolderForGroups(cfg, groups).token) == MemberReach(cfg, groups)
      <==> HoldingClear(cfg, groups)
  {
    var m := MembersHeld(cfg, groups);
    TokenNamesIff(cfg, m);
    TokenGrantsSomething(cfg, m);
    MembersUnion(cfg, groups);
    assert m[0] in Union(cfg, m);
  }

  lemma TokenGrantsSomething(cfg: Config, held: seq<string>)
    requires WellFormed(cfg)
    ensures TokenForUnion(cfg, held).Some? ==> Grants(cfg, TokenForUnion(cfg, held).value) != {}
  {
    if TokenForUnion(cfg, held).Some? {
      var c :| c in cfg.classifications && c.value == TokenForUnion(cfg, held).value;
      assert Declared(cfg)[PlaceOf(cfg, c)] == c.value;
      OwnGrants(cfg, c.value);
    }
  }

  lemma ReachElems(cfg: Config, holder: Holder)
    ensures Elems(ReachOf(cfg, holder)) ==
            TokenReach(cfg, holder.token) + (if holder.adminPlane then Elems(AdminPlaneValues(cfg)) else {})
  {
    var reach := if holder.token.Some? then GrantsFor(cfg, holder.token.value) else [];
    assert Elems(reach + AdminPlaneValues(cfg)) == Elems(reach) + Elems(AdminPlaneValues(cfg));
  }

  /**
   * NO ONE REACHES MORE THAN THEY HOLD. Whatever the grant lists repeat, a person's reach is within the union they
   * hold, and the planes.
   */
  lemma ReachWithinHeld(cfg: Config, groups: seq<string>)
    requires WellFormed(cfg)
    ensures Elems(ReachOf(cfg, HolderForGroups(cfg, groups))) <= Union(cfg, MembersHeld(cfg, groups))
      + PlaneReach(cfg, groups)
  {
    ReachElems(cfg, HolderForGroups(cfg, groups));
    if MembersHeld(cfg, groups) == [] {
      PlaneTokenReach(cfg, groups);
    } else {
      TokenNeverExceeds(cfg, MembersHeld(cfg, groups));
    }
  }

  /** Two parts beside one disjoint part are equal exactly when the wholes are. */
  lemma BesideEqual(a: set<string>, b: set<string>, p: set<string>)
    requires a !! p && b !! p
    ensures a + p == b + p <==> a == b
  {
    if a + p == b + p {
      forall v ensures v in a <==> v in b { assert v in a + p <==> v in b + p; }
    }
  }

  /** A member holding's reach and its token's have no admin plane in them. */
  lemma MembersBesidePlanes(cfg: Config, groups: seq<string>)
    requires WellFormed(cfg) && MembersHeld(cfg, groups) != []
    ensures MemberReach(cfg, groups) !! PlaneReach(cfg, groups)
    ensures TokenReach(cfg, HolderForGroups(cfg, groups).token) !! PlaneReach(cfg, groups)
  {
    var m := MembersHeld(cfg, groups);
    MembersUnion(cfg, groups);
    TokenNeverExceeds(cfg, m);
    forall v | v in Union(cfg, m) ensures v !in AdminPlaneValues(cfg) { PlaneValuesArePlanes(cfg, v); }
  }

  /**
   * WHAT A HOLDER REACHES, in terms of what they hold: the union where it has a name, and the planes; exactly where no
   * repeated list shadows the holding. On any set validation accepts.
   */
  lemma ReachFormulaIff(cfg: Config, groups: seq<string>)
    requires WellFormed(cfg)
    ensures Elems(ReachOf(cfg, HolderForGroups(cfg, groups))) == MemberReach(cfg, groups) + PlaneReach(cfg, groups)
       <==> HoldingClear(cfg, groups)
  {
    ReachElems(cfg, HolderForGroups(cfg, groups));
    if MembersHeld(cfg, groups) == [] {
      PlaneTokenReach(cfg, groups);
    } else {
      MemberTokenReach(cfg, groups);
      MembersBesidePlanes(cfg, groups);
      BesideEqual(TokenReach(cfg, HolderForGroups(cfg, groups).token), MemberReach(cfg, groups),
        PlaneReach(cfg, groups));
    }
  }

  /** A holder with a token reaches everything they hold. */
  lemma TokenReachesHeld(cfg: Config, groups: seq<string>, v: string)
    requires WellFormed(cfg) && HoldingClear(cfg, groups)
    requires v in ClearancesForGroups(cfg, groups) && HolderForGroups(cfg, groups).token.Some?
    ensures v in ReachOf(cfg, HolderForGroups(cfg, groups))
  {
    ReachFormulaIff(cfg, groups);
    MembersUnion(cfg, groups);
    var m := MembersHeld(cfg, groups);
    assert v in (if IsPlane(cfg, v) then PlaneReach(cfg, groups) else MemberReach(cfg, groups)) by {
      if IsPlane(cfg, v) {
        assert v in PlanesHeld(cfg, groups);
        PlaneValuesArePlanes(cfg, v);
      } else {
        assert v in m;
        TokenNamesIff(cfg, m);
      }
    }
    assert v in Elems(ReachOf(cfg, HolderForGroups(cfg, groups)));
  }

  /** A holder no repeated list shadows is covered exactly when they hold nothing or have a token. */
  lemma CoversIff(cfg: Config, groups: seq<string>)
    requires WellFormed(cfg) && HoldingClear(cfg, groups)
    ensures HolderTokenCovers(cfg, groups) <==>
            ClearancesForGroups(cfg, groups) == [] || HolderForGroups(cfg, groups).token.Some?
  {
    if HolderForGroups(cfg, groups).token.Some? {
      forall v | v in ClearancesForGroups(cfg, groups)
        ensures v in ReachOf(cfg, HolderOf(cfg, ClearancesForGroups(cfg, groups)))
      {
        TokenReachesHeld(cfg, groups, v);
      }
    }
  }

  lemma MoreGroupsHoldMore(cfg: Config, a: seq<string>, b: seq<string>)
    requires Elems(a) <= Elems(b)
    ensures Elems(MembersHeld(cfg, a)) <= Elems(MembersHeld(cfg, b))
    ensures PlaneReach(cfg, a) <= PlaneReach(cfg, b)
  {
    ClearanceElems(cfg, a);
    ClearanceElems(cfg, b);
    MoreGroupsClearMore(cfg, a, b);
    forall v | v in ClearancesForGroups(cfg, a) ensures v in ClearancesForGroups(cfg, b) {
      assert v in Elems(Held(cfg, b));
    }
    if PlanesHeld(cfg, a) != [] {
      assert PlanesHeld(cfg, a)[0] in PlanesHeld(cfg, b);
    }
  }

  /**
   * REACH GROWS WITH THE GROUPS, EXACTLY WHEN IT IS NAMED. A person given more groups reaches everything they
   * reached before just when their new holding has a token, or their member holding reached nothing before.
   */
  lemma ReachGrowsIff(cfg: Config, a: seq<string>, b: seq<string>)
    requires WellFormed(cfg) && HoldingClear(cfg, a) && HoldingClear(cfg, b) && Elems(a) <= Elems(b)
    ensures Elems(ReachOf(cfg, HolderForGroups(cfg, a))) <= Elems(ReachOf(cfg, HolderForGroups(cfg, b)))
       <==> MembersHeld(cfg, a) == [] || HolderForGroups(cfg, a).token.None? || HolderForGroups(cfg, b).token.Some?
  {
    ReachFormulaIff(cfg, a);
    ReachFormulaIff(cfg, b);
    MoreGroupsHoldMore(cfg, a, b);
    var ma, mb := MembersHeld(cfg, a), MembersHeld(cfg, b);
    UnionGrows(cfg, ma, mb);
    if ma != [] {
      assert ma[0] in Elems(mb);
      TokenNamesIff(cfg, ma);
      TokenNamesIff(cfg, mb);
      if HolderForGroups(cfg, a).token.Some? && HolderForGroups(cfg, b).token.None? {
        MembersUnion(cfg, a);
        assert ma[0] in ma;
        PlaneValuesArePlanes(cfg, ma[0]);
        assert ma[0] in MemberReach(cfg, a) && ma[0] !in PlaneReach(cfg, b);
      }
    }
  }

  // ---------------------------------------------------------------- a repeated grant

  function RepeatedGrantConfig(): Config {
    Config([Classification("a", [], ["a", "a"], false, false, "p", []),
      Classification("b", [], ["b", "a"], false, false, "p", [])],
      ["p"], [("g", "b")], map[])
  }

  lemma RepeatedGrantValues()
    ensures Declared(RepeatedGrantConfig()) == ["a", "b"]
  {
  }

  lemma RepeatedGrantKeys()
    ensures GrantKey(["a", "a"]) != GrantKey(["b", "a"])
  {
    assert StringLe("a", "a") && !StringLe("b", "a");
    assert Sort(StringLe, ["a"]) == ["a"];
    assert Sort(StringLe, ["a", "a"]) == ["a", "a"];
    assert Sort(StringLe, ["b", "a"]) == ["a", "b"];
    assert Joined(["a"]) == "a" && Joined(["b"]) == "b";
    assert Joined(["a", "a"]) == "a,a" && Joined(["a", "b"]) == "a,b";
    assert "a,a"[2] != "a,b"[2];
  }

  lemma RepeatedGrantDeclared()
    ensures GrantsDeclared(RepeatedGrantConfig())
  {
    var cfg := RepeatedGrantConfig();
    var a, b := cfg.classifications[0], cfg.classifications[1];
    RepeatedGrantValues();
    assert a.grants == ["a", "a"] && b.grants == ["b", "a"];
    RepeatedGrantKeys();
  }

  lemma RepeatedGrantNames()
    ensures NamesApart(RepeatedGrantConfig())
  {
    RepeatedGrantValues();
    assert RepeatedGrantConfig().profiles == ["p"] && "p"[0] != "a"[0] && "p"[0] != "b"[0];
  }

  lemma RepeatedGrantPlanes()
    ensures PlanesApart(RepeatedGrantConfig())
  {
  }

  lemma RepeatedGrantGroups()
    ensures GroupsDeclared(RepeatedGrantConfig())
  {
    RepeatedGrantValues();
  }

  lemma RepeatedGrantValid()
    ensures WellFormed(RepeatedGrantConfig())
  {
    RepeatedGrantDeclared();
    RepeatedGrantNames();
    RepeatedGrantPlanes();
    RepeatedGrantGroups();
  }

  lemma OneHeld(cfg: Config, c: Classification)
    requires WellFormed(cfg) && c in cfg.classifications
    ensures Union(cfg, [c.value]) == Grants(cfg, c.value) == Elems(c.grants)
    ensures IsPlane(cfg, c.value) == c.adminPlane
  {
    SingleUnion(cfg, c.value);
    GrantsOfDeclared(cfg, c);
    FindDeclared(cfg, c);
  }

  function RepeatedA(): Classification { RepeatedGrantConfig().classifications[0] }
  function RepeatedB(): Classification { RepeatedGrantConfig().classifications[1] }

  lemma RepeatedGrantOfA()
    ensures Grants(RepeatedGrantConfig(), "a") == {"a"}
  {
    RepeatedGrantValid();
    OneHeld(RepeatedGrantConfig(), RepeatedA());
    assert Elems(RepeatedA().grants) == {"a"};
  }

  lemma RepeatedBIn()
    ensures var b := RepeatedB(); b in RepeatedGrantConfig().classifications && b.value == "b" && !b.adminPlane
    ensures Elems(RepeatedB().grants) == {"a", "b"}
  {
    assert RepeatedB().grants == ["b", "a"];
  }

  lemma RepeatedGrantUnion()
    ensures Union(RepeatedGrantConfig(), ["b"]) == {"a", "b"} && !IsPlane(RepeatedGrantConfig(), "b")
  {
    RepeatedGrantValid();
    RepeatedBIn();
    OneHeld(RepeatedGrantConfig(), RepeatedB());
  }

  /** A list of one repeated value is as long as a set of two, and inside it. */
  lemma LongEnough(g: seq<string>, union: set<string>)
    requires multiset(g) == multiset{"a", "a"} && union == {"a", "b"}
    ensures |g| == |union| && forall v :: v in g ==> v in union
  {
    assert |multiset(g)| == |g|;
    forall v | v in g ensures v in union { assert v in multiset(g); }
  }

  lemma RepeatedGrantToken()
    ensures TokenForUnion(RepeatedGrantConfig(), ["b"]) == Some("a")
  {
    var cfg := RepeatedGrantConfig();
    RepeatedGrantValid();
    RepeatedGrantUnion();
    GrantsOfDeclared(cfg, RepeatedA());
    assert multiset(RepeatedA().grants) == multiset{"a", "a"};
    LongEnough(GrantsFor(cfg, "a"), Union(cfg, ["b"]));
    assert Matches(cfg, cfg.classifications[0], Union(cfg, ["b"]));
  }

  lemma RepeatedGrantHeld()
    ensures Held(RepeatedGrantConfig(), ["g"]) == ["b"]
  {
    var cfg := RepeatedGrantConfig();
    assert ["g"][..0] == [];
    assert Lookup(cfg.groupClearance, "g") == Some("b");
    RepeatedGrantValues();
    assert Held(cfg, []) == [];
  }

  lemma RepeatedGrantMembers()
    ensures MembersHeld(RepeatedGrantConfig(), ["g"]) == ["b"] && PlanesHeld(RepeatedGrantConfig(), ["g"]) == []
  {
    RepeatedGrantHeld();
    RepeatedGrantUnion();
    assert ClearancesForGroups(RepeatedGrantConfig(), ["g"]) == ["b"];
    FilterAll(v => !IsPlane(RepeatedGrantConfig(), v), ["b"]);
    FilterNone(v => IsPlane(RepeatedGrantConfig(), v), ["b"]);
  }

  /**
   * A validated set whose `a` repeats its grant: the holder of `b` is given the token `a` and no longer reaches `b`.
   */
  lemma RepeatedGrantMisnames()
    ensures WellFormed(RepeatedGrantConfig())
    ensures HolderForGroups(RepeatedGrantConfig(), ["g"]).token == Some("a")
    ensures !HolderReaches(RepeatedGrantConfig(), HolderForGroups(RepeatedGrantConfig(), ["g"]), "b")
  {
    var cfg := RepeatedGrantConfig();
    RepeatedGrantValid();
    RepeatedGrantHeld();
    RepeatedGrantToken();
    RepeatedGrantUnion();
    RepeatedGrantOfA();
    assert ClearancesForGroups(cfg, ["g"]) == ["b"];
    var holder := HolderForGroups(cfg, ["g"]);
    assert holder == Holder(Some("a"), false);
    assert "b" !in Elems(ReachOf(cfg, holder));
  }
}
