/** What "unique yield" and "overlap" of discovery sources mean: plain sets over the entry list. */
module UniverseSets {
  datatype Entry = Entry(asset: string, source: string)

  ghost function SourcesOf(entries: seq<Entry>, asset: string): (r: set<string>)
    ensures forall s :: s in r <==> Entry(asset, s) in entries
  {
    set e | e in entries && e.asset == asset :: e.source
  }

  ghost function AssetsOf(entries: seq<Entry>, source: string): (r: set<string>)
    ensures forall a :: a in r <==> Entry(a, source) in entries
  {
    set e | e in entries && e.source == source :: e.asset
  }

  /** Assets that only this source saw. */
  ghost function UniqueTo(entries: seq<Entry>, source: string): (r: set<string>)
    ensures forall a :: a in r <==> SourcesOf(entries, a) == {source}
  {
    var r := set a | a in AssetsOf(entries, source) && SourcesOf(entries, a) == {source};
    assert forall a :: SourcesOf(entries, a) == {source} ==> a in AssetsOf(entries, source) by {
      forall a | SourcesOf(entries, a) == {source} ensures a in AssetsOf(entries, source) {
        assert source in SourcesOf(entries, a);
      }
    }
    r
  }

  /** Assets that both sources saw. */
  ghost function Shared(entries: seq<Entry>, a: string, b: string): set<string> {
    AssetsOf(entries, a) * AssetsOf(entries, b)
  }

  function Lookup(counts: map<string, nat>, key: string): nat {
    if key in counts then counts[key] else 0
  }

  function Bumped(counts: map<string, nat>, key: string): map<string, nat> {
    counts[key := Lookup(counts, key) + 1]
  }
}

/** The registry's grouped one-pass aggregation. */
module UniverseRegistry {
  import opened Lists
  import opened Texts
  import opened TextOrder
  import opened UniverseSets
  import opened ShadowSafe

  /** The record key of an ordered pair. */
  function Key(a: string, b: string): string { a + "|" + b }

  type Triple = (string, string, string)

  /** One asset seen by two sources, in code-unit order. */
  ghost predicate IsTriple(entries: seq<Entry>, t: Triple) {
    Entry(t.0, t.1) in entries && Entry(t.0, t.2) in entries && Less(t.1, t.2)
  }

  ghost function Triples(entries: seq<Entry>): (r: set<Triple>)
    ensures forall t :: t in r <==> IsTriple(entries, t)
  {
    var r := set e, f | e in entries && f in entries && e.asset == f.asset && Less(e.source, f.source) :: (e.asset, e.source, f.source);
    assert forall t :: IsTriple(entries, t) ==> t in r by {
      forall t | IsTriple(entries, t) ensures t in r {
        var e, f := Entry(t.0, t.1), Entry(t.0, t.2);
        assert e in entries && f in entries && e.asset == f.asset && Less(e.source, f.source);
      }
    }
    r
  }

  ghost function Keyed(triples: set<Triple>, key: string): set<Triple> {
    set t | t in triples && Key(t.1, t.2) == key
  }

  lemma KeyedAdd(done: set<Triple>, t: Triple, key: string)
    requires t !in done
    ensures |Keyed(done + {t}, key)| == |Keyed(done, key)| + if Key(t.1, t.2) == key then 1 else 0
  {
    if Key(t.1, t.2) == key {
      assert Keyed(done + {t}, key) == Keyed(done, key) + {t};
    } else {
      assert Keyed(done + {t}, key) == Keyed(done, key);
    }
  }

  lemma KeyedAddAll(done: set<Triple>, t: Triple)
    requires t !in done
    ensures forall key :: |Keyed(done + {t}, key)| == |Keyed(done, key)| + if Key(t.1, t.2) == key then 1 else 0
  {
    forall key ensures |Keyed(done + {t}, key)| == |Keyed(done, key)| + if Key(t.1, t.2) == key then 1 else 0 {
      KeyedAdd(done, t, key);
    }
  }

  lemma KeyedUnion(a: set<Triple>, b: set<Triple>, key: string)
    requires a !! b
    ensures |Keyed(a + b, key)| == |Keyed(a, key)| + |Keyed(b, key)|
  {
    assert Keyed(a + b, key) == Keyed(a, key) + Keyed(b, key);
    assert Keyed(a, key) !! Keyed(b, key);
  }

  /** The triples of one asset. */
  ghost predicate OfAsset(triples: set<Triple>, asset: string, sources: seq<string>) {
    forall t :: t in triples <==> t.0 == asset && t.1 in sources && t.2 in sources && Less(t.1, t.2)
  }

  // --- the loops --------------------------------------------------------------------------------

  /** Groups in first-seen order, each with its sources in arrival order. */
  method GroupByAsset(entries: seq<Entry>) returns (order: seq<string>, groups: map<string, seq<string>>)
    ensures Distinct(order)
    ensures forall a :: a in order <==> a in groups
    ensures forall a, s :: (a in groups && s in groups[a]) <==> Entry(a, s) in entries
    ensures forall a :: a in groups ==> groups[a] != []
  {
    order, groups := [], map[];
    for i := 0 to |entries|
      invariant Distinct(order)
      invariant forall a :: a in order <==> a in groups
      invariant forall a, s :: (a in groups && s in groups[a]) <==> Entry(a, s) in entries[..i]
      invariant forall a :: a in groups ==> groups[a] != []
    {
      var entry := entries[i];
      assert entries[..i + 1] == entries[..i] + [entry];
      var group := if entry.asset in groups then groups[entry.asset] else [];
      if entry.asset !in groups {
        order := order + [entry.asset];
      }
      groups := groups[entry.asset := group + [entry.source]];
    }
    assert entries[..|entries|] == entries;
  }

  /** `[...new Set(sources)].sort()`. */
  method DistinctSorted(sources: seq<string>) returns (r: seq<string>)
    ensures Distinct(r) && Sorted(r, ByText((s: string) => s, false))
    ensures forall s :: s in r <==> s in sources
  {
    var kept: seq<string> := [];
    for i := 0 to |sources|
      invariant Distinct(kept) && forall s :: s in kept <==> s in sources[..i]
    {
      assert sources[..i + 1] == sources[..i] + [sources[i]];
      if sources[i] !in kept {
        kept := kept + [sources[i]];
      }
    }
    assert sources[..|sources|] == sources;
    ghost var after := ByText((s: string) => s, false);
    var buffer := InsertionSort(kept, ByText((s: string) => s, false));
    r := buffer[..];
    assert IsOrder(after) by { ByTextIsOrder((s: string) => s, false); }
    SortIsStable(kept, after);
    PermutationOfDistinct(kept, r);
  }

  /** The triples of one asset with one first source. */
  ghost predicate OfSource(triples: set<Triple>, asset: string, source: string, sources: seq<string>) {
    forall t :: t in triples <==> t.0 == asset && t.1 == source && t.2 in sources && Less(source, t.2)
  }

  /** The inner loop: one source against all others. */
  method CountOthers(asset: string, source: string, sources: seq<string>, before: map<string, nat>, ghost mine: set<Triple>)
    returns (overlap: map<string, nat>)
    requires Distinct(sources) && OfSource(mine, asset, source, sources)
    ensures forall key :: Lookup(overlap, key) == Lookup(before, key) + |Keyed(mine, key)|
  {
    overlap := before;
    ghost var done: set<Triple> := {};
    assert forall key :: Keyed(done, key) == {};
    for q := 0 to |sources|
      invariant forall t :: t in done <==> t in mine && t.2 in sources[..q]
      invariant forall key :: Lookup(overlap, key) == Lookup(before, key) + |Keyed(done, key)|
    {
      var other := sources[q];
      assert sources[..q + 1] == sources[..q] + [other] && other !in sources[..q];
      if Less(source, other) {
        ghost var t := (asset, source, other);
        assert t in mine && t !in done;
        KeyedAddAll(done, t);
        overlap := Bumped(overlap, Key(source, other));
        done := done + {t};
      }
    }
    assert sources[..|sources|] == sources;
    assert done == mine;
  }

  /** The loops for one asset. */
  method CountPairs(asset: string, sources: seq<string>, before: map<string, nat>, ghost all: set<Triple>) returns (overlap: map<string, nat>)
    requires Distinct(sources) && OfAsset(all, asset, sources)
    ensures forall key :: Lookup(overlap, key) == Lookup(before, key) + |Keyed(all, key)|
  {
    overlap := before;
    ghost var done: set<Triple> := {};
    assert forall key :: Keyed(done, key) == {};
    for p := 0 to |sources|
      invariant forall t :: t in done <==> t in all && t.1 in sources[..p]
      invariant forall key :: Lookup(overlap, key) == Lookup(before, key) + |Keyed(done, key)|
    {
      var source := sources[p];
      assert sources[..p + 1] == sources[..p] + [source] && source !in sources[..p];
      ghost var mine := set t | t in all && t.1 == source;
      assert done !! mine;
      forall key ensures |Keyed(done + mine, key)| == |Keyed(done, key)| + |Keyed(mine, key)| {
        KeyedUnion(done, mine, key);
      }
      overlap := CountOthers(asset, source, sources, overlap, mine);
      done := done + mine;
    }
    assert sources[..|sources|] == sources;
    assert done == all;
  }

  /** The entries of the assets seen so far. */
  ghost function Within(triples: set<Triple>, assets: seq<string>): set<Triple> {
    set t | t in triples && t.0 in assets
  }

  ghost function UniqueWithin(entries: seq<Entry>, assets: seq<string>, source: string): set<string> {
    set a | a in assets && SourcesOf(entries, a) == {source}
  }

  lemma OnlyIsSingle(entries: seq<Entry>, asset: string, sources: seq<string>, s: string)
    requires Distinct(sources) && forall s :: s in sources <==> Entry(asset, s) in entries
    ensures SourcesOf(entries, asset) == {s} ==> |sources| == 1 && sources[0] == s
  {
    var all := SourcesOf(entries, asset);
    if |sources| > 1 {
      assert sources[0] in all && sources[1] in all && sources[0] != sources[1];
    } else if |sources| == 1 {
      assert sources[0] in all;
    } else {
      assert s !in all;
    }
  }

  lemma UniqueWithinStep(entries: seq<Entry>, assets: seq<string>, asset: string, sources: seq<string>, s: string)
    requires asset !in assets && Distinct(sources) && forall s :: s in sources <==> Entry(asset, s) in entries
    ensures |UniqueWithin(entries, assets + [asset], s)|
         == |UniqueWithin(entries, assets, s)| + if |sources| == 1 && sources[0] == s then 1 else 0
  {
    if |sources| == 1 && sources[0] == s {
      assert SourcesOf(entries, asset) == {s};
      assert UniqueWithin(entries, assets + [asset], s) == UniqueWithin(entries, assets, s) + {asset};
    } else {
      OnlyIsSingle(entries, asset, sources, s);
      assert UniqueWithin(entries, assets + [asset], s) == UniqueWithin(entries, assets, s);
    }
  }

  lemma WithinStep(entries: seq<Entry>, assets: seq<string>, asset: string, key: string)
    requires asset !in assets
    ensures |Keyed(Within(Triples(entries), assets + [asset]), key)|
         == |Keyed(Within(Triples(entries), assets), key)| + |Keyed(Within(Triples(entries), [asset]), key)|
  {
    var all := Triples(entries);
    assert Within(all, assets + [asset]) == Within(all, assets) + Within(all, [asset]);
    KeyedUnion(Within(all, assets), Within(all, [asset]), key);
  }

  lemma AggregateStep(entries: seq<Entry>, assets: seq<string>, asset: string, sources: seq<string>)
    requires asset !in assets && Distinct(sources) && forall s :: s in sources <==> Entry(asset, s) in entries
    ensures forall s :: |UniqueWithin(entries, assets + [asset], s)|
                     == |UniqueWithin(entries, assets, s)| + if |sources| == 1 && sources[0] == s then 1 else 0
    ensures forall key :: |Keyed(Within(Triples(entries), assets + [asset]), key)|
                       == |Keyed(Within(Triples(entries), assets), key)| + |Keyed(Within(Triples(entries), [asset]), key)|
    ensures OfAsset(Within(Triples(entries), [asset]), asset, sources)
  {
    forall s ensures |UniqueWithin(entries, assets + [asset], s)|
                  == |UniqueWithin(entries, assets, s)| + if |sources| == 1 && sources[0] == s then 1 else 0
    {
      UniqueWithinStep(entries, assets, asset, sources, s);
    }
    forall key ensures |Keyed(Within(Triples(entries), assets + [asset]), key)|
                    == |Keyed(Within(Triples(entries), assets), key)| + |Keyed(Within(Triples(entries), [asset]), key)|
    {
      WithinStep(entries, assets, asset, key);
    }
  }

  /** Both records are exact for the assets processed so far. */
  ghost predicate Tallied(entries: seq<Entry>, assets: seq<string>, overlap: map<string, nat>, unique: map<string, nat>) {
    && (forall s :: Lookup(unique, s) == |UniqueWithin(entries, assets, s)|)
    && (forall key :: Lookup(overlap, key) == |Keyed(Within(Triples(entries), assets), key)|)
  }

  lemma TalliedStep(entries: seq<Entry>, assets: seq<string>, asset: string, sources: seq<string>,
                    overlap: map<string, nat>, unique: map<string, nat>, overlap': map<string, nat>)
    requires Tallied(entries, assets, overlap, unique)
    requires asset !in assets && Distinct(sources) && forall s :: s in sources <==> Entry(asset, s) in entries
    requires forall key :: Lookup(overlap', key) == Lookup(overlap, key) + |Keyed(Within(Triples(entries), [asset]), key)|
    ensures Tallied(entries, assets + [asset], overlap', if |sources| == 1 then Bumped(unique, sources[0]) else unique)
  {
    AggregateStep(entries, assets, asset, sources);
  }

  lemma TalliedAll(entries: seq<Entry>, order: seq<string>, overlap: map<string, nat>, unique: map<string, nat>)
    requires Tallied(entries, order, overlap, unique) && forall a, t :: Entry(a, t) in entries ==> a in order
    ensures forall s :: Lookup(unique, s) == |UniqueTo(entries, s)|
    ensures forall key :: Lookup(overlap, key) == |Keyed(Triples(entries), key)|
  {
    forall s ensures UniqueWithin(entries, order, s) == UniqueTo(entries, s) {
      UniqueIsWithin(entries, order, s);
    }
    assert Within(Triples(entries), order) == Triples(entries);
  }

  lemma TalliedNone(entries: seq<Entry>)
    ensures Tallied(entries, [], map[], map[])
  {
    assert forall key :: Keyed(Within(Triples(entries), []), key) == {};
    assert forall s :: UniqueWithin(entries, [], s) == {};
  }

  /** The aggregation of `snapshot`. */
  method Aggregate(entries: seq<Entry>) returns (sourceOverlap: map<string, nat>, uniqueYield: map<string, nat>)
    ensures forall s :: Lookup(uniqueYield, s) == |UniqueTo(entries, s)|
    ensures forall key :: Lookup(sourceOverlap, key) == |Keyed(Triples(entries), key)|
  {
    var order, groups := GroupByAsset(entries);
    sourceOverlap, uniqueYield := map[], map[];
    TalliedNone(entries);
    for i := 0 to |order|
      invariant Tallied(entries, order[..i], sourceOverlap, uniqueYield)
    {
      var asset := order[i];
      var sources := DistinctSorted(groups[asset]);
      assert order[..i + 1] == order[..i] + [asset] && asset !in order[..i];
      AggregateStep(entries, order[..i], asset, sources);
      var counted := CountPairs(asset, sources, sourceOverlap, Within(Triples(entries), [asset]));
      TalliedStep(entries, order[..i], asset, sources, sourceOverlap, uniqueYield, counted);
      sourceOverlap := counted;
      if |sources| == 1 {
        uniqueYield := Bumped(uniqueYield, sources[0]);
      }
    }
    assert order[..|order|] == order;
    TalliedAll(entries, order, sourceOverlap, uniqueYield);
  }

  lemma UniqueIsWithin(entries: seq<Entry>, order: seq<string>, s: string)
    requires forall a, t :: Entry(a, t) in entries ==> a in order
    ensures UniqueWithin(entries, order, s) == UniqueTo(entries, s)
  {
    forall a | SourcesOf(entries, a) == {s} ensures a in order {
      assert s in SourcesOf(entries, a);
    }
  }

  // --- keys read as pairs -----------------------------------------------------------------------

  ghost function TriplesOf(entries: seq<Entry>, a: string, b: string): set<Triple> {
    set t | t in Triples(entries) && t.1 == a && t.2 == b
  }

  lemma TriplesOfPair(entries: seq<Entry>, a: string, b: string)
    requires Less(a, b)
    ensures |TriplesOf(entries, a, b)| == |Shared(entries, a, b)|
  {
    var shared := Shared(entries, a, b);
    var image := set x | x in shared :: (x, a, b);
    assert TriplesOf(entries, a, b) == image by {
      forall t | t in TriplesOf(entries, a, b) ensures t in image {
        assert t == (t.0, a, b) && t.0 in shared;
      }
    }
    TagKeepsSize(shared, a, b);
  }

  lemma {:induction false} TagKeepsSize(assets: set<string>, a: string, b: string)
    ensures |set x | x in assets :: (x, a, b)| == |assets|
    decreases assets
  {
    var image := set x | x in assets :: (x, a, b);
    if x :| x in assets {
      var rest := set y | y in assets - {x} :: (y, a, b);
      TagKeepsSize(assets - {x}, a, b);
      assert image == rest + {(x, a, b)} && (x, a, b) !in rest;
    } else {
      assert image == {};
    }
  }

  /** Another pair of sources that share an asset is written under the same key. */
  ghost predicate Collides(entries: seq<Entry>, a: string, b: string) {
    exists t :: t in Triples(entries) && Key(t.1, t.2) == Key(a, b) && (t.1, t.2) != (a, b)
  }

  /** The record agrees with the set definition exactly when no other overlapping pair shares the key. */
  lemma OverlapAgreesIff(entries: seq<Entry>, a: string, b: string)
    requires Less(a, b)
    ensures |Keyed(Triples(entries), Key(a, b))| == |Shared(entries, a, b)| <==> !Collides(entries, a, b)
    ensures |Keyed(Triples(entries), Key(a, b))| >= |Shared(entries, a, b)|
  {
    TriplesOfPair(entries, a, b);
    var keyed, own := Keyed(Triples(entries), Key(a, b)), TriplesOf(entries, a, b);
    CollidesIff(entries, a, b);
    PartSize(keyed, own);
  }

  lemma PartSize(all: set<Triple>, part: set<Triple>)
    requires part <= all
    ensures |all| >= |part| && (|all| == |part| <==> all == part)
  {
    assert all == part + (all - part);
    assert |all| == |part| + |all - part|;
  }

  lemma CollidesIff(entries: seq<Entry>, a: string, b: string)
    ensures TriplesOf(entries, a, b) <= Keyed(Triples(entries), Key(a, b))
    ensures Collides(entries, a, b) <==> Keyed(Triples(entries), Key(a, b)) != TriplesOf(entries, a, b)
  {
    var all := Triples(entries);
    assert forall t :: t in TriplesOf(entries, a, b) <==> t in all && t.1 == a && t.2 == b;
    assert forall t :: t in Keyed(all, Key(a, b)) <==> t in all && Key(t.1, t.2) == Key(a, b);
  }

  predicate Plain(s: string) { '|' !in s }

  lemma PlainKeysSplit(a: string, b: string, c: string, d: string)
    requires Plain(a) && Plain(c) && Key(a, b) == Key(c, d)
    ensures a == c && b == d
  {
    assert Key(a, b) == a + (['|'] + b) && Key(c, d) == c + (['|'] + d);
    UpTo(a, c, '|', b, d);
  }

  /** Source ids without the separator never collide. */
  lemma PlainSourcesNeverCollide(entries: seq<Entry>, a: string, b: string)
    requires Plain(a) && forall e :: e in entries ==> Plain(e.source)
    ensures !Collides(entries, a, b)
  {
    forall t | t in Triples(entries) && Key(t.1, t.2) == Key(a, b) ensures (t.1, t.2) == (a, b) {
      PlainKeysSplit(a, b, t.1, t.2);
    }
  }

  const CLASH: seq<Entry> := [Entry("x", "a"), Entry("x", "b|c"), Entry("y", "a|b"), Entry("y", "c")]

  /** With the separator in ids, two pairs can fall on one key and their counts are added up. */
  lemma SeparatorCollision()
    ensures |Keyed(Triples(CLASH), Key("a", "b|c"))| > |Shared(CLASH, "a", "b|c")|
  {
    SampleOrder();
    SampleKeys();
    assert CLASH[2] in CLASH && CLASH[3] in CLASH;
    PairCollides(CLASH, "y", "a|b", "c", "a", "b|c");
    OverlapAgreesIff(CLASH, "a", "b|c");
  }

  lemma PairCollides(entries: seq<Entry>, asset: string, c: string, d: string, a: string, b: string)
    requires Entry(asset, c) in entries && Entry(asset, d) in entries && Less(c, d) && Key(c, d) == Key(a, b) && |c| != |a|
    ensures Collides(entries, a, b)
  {
    assert IsTriple(entries, (asset, c, d));
    assert (asset, c, d) in Triples(entries);
  }

  lemma SampleOrder()
    ensures Less("a", "b|c") && Less("a|b", "c")
  {
  }

  lemma SampleKeys()
    ensures Key("a|b", "c") == Key("a", "b|c")
  {
    assert Key("a|b", "c") == "a|b|c" == Key("a", "b|c");
  }
}

/** The set-based metrics. */
module CoverageMetrics {
  import opened Lists
  import opened TextOrder
  import opened UniverseSets
  import UniverseRegistry

  method SourceSets(entries: seq<Entry>) returns (order: seq<string>, groups: map<string, set<string>>)
    ensures Distinct(order)
    ensures forall a :: a in order <==> a in groups
    ensures forall a, s :: (a in groups && s in groups[a]) <==> Entry(a, s) in entries
  {
    order, groups := [], map[];
    for i := 0 to |entries|
      invariant Distinct(order)
      invariant forall a :: a in order <==> a in groups
      invariant forall a, s :: (a in groups && s in groups[a]) <==> Entry(a, s) in entries[..i]
    {
      var entry := entries[i];
      assert entries[..i + 1] == entries[..i] + [entry];
      var sources := if entry.asset in groups then groups[entry.asset] else {};
      if entry.asset !in groups {
        order := order + [entry.asset];
      }
      groups := groups[entry.asset := sources + {entry.source}];
    }
    assert entries[..|entries|] == entries;
  }

  /** `calculateUniqueDiscoveryYield`. */
  method UniqueDiscoveryYield(entries: seq<Entry>, source: string) returns (count: nat)
    ensures count == |UniqueTo(entries, source)|
  {
    var order, groups := SourceSets(entries);
    count := 0;
    assert UniverseRegistry.UniqueWithin(entries, order[..0], source) == {};
    for i := 0 to |order|
      invariant count == |UniverseRegistry.UniqueWithin(entries, order[..i], source)|
    {
      assert order[..i + 1] == order[..i] + [order[i]] && order[i] !in order[..i];
      assert groups[order[i]] == SourcesOf(entries, order[i]);
      SetStep(entries, order[..i], order[i], source);
      if |groups[order[i]]| == 1 && source in groups[order[i]] {
        count := count + 1;
      }
    }
    assert order[..|order|] == order;
    UniverseRegistry.UniqueIsWithin(entries, order, source);
  }

  lemma SetStep(entries: seq<Entry>, assets: seq<string>, asset: string, source: string)
    requires asset !in assets
    ensures |UniverseRegistry.UniqueWithin(entries, assets + [asset], source)|
         == |UniverseRegistry.UniqueWithin(entries, assets, source)|
            + if |SourcesOf(entries, asset)| == 1 && source in SourcesOf(entries, asset) then 1 else 0
  {
    var sources := SourcesOf(entries, asset);
    var before, after := UniverseRegistry.UniqueWithin(entries, assets, source), UniverseRegistry.UniqueWithin(entries, assets + [asset], source);
    if |sources| == 1 && source in sources {
      SingletonIs(sources, source);
      assert after == before + {asset};
    } else {
      assert sources != {source};
      assert after == before;
    }
  }

  lemma SingletonIs(s: set<string>, x: string)
    requires |s| == 1 && x in s
    ensures s == {x}
  {
    assert s == {x} + (s - {x});
  }

  /** `new Set(values)` of the assets one source saw. */
  method Assets(entries: seq<Entry>, source: string) returns (assets: set<string>)
    ensures assets == AssetsOf(entries, source)
  {
    assets := {};
    for i := 0 to |entries|
      invariant forall a :: a in assets <==> Entry(a, source) in entries[..i]
    {
      assert entries[..i + 1] == entries[..i] + [entries[i]];
      if entries[i].source == source {
        assets := assets + {entries[i].asset};
      }
    }
    assert entries[..|entries|] == entries;
  }

  /** `calculatePairwiseOverlap`: one count per other source, also when it is zero. */
  method PairwiseOverlap(entries: seq<Entry>, source: string) returns (result: map<string, nat>)
    ensures forall other :: other in result <==> other != source && exists a :: Entry(a, other) in entries
    ensures forall other :: other in result ==> result[other] == |Shared(entries, source, other)|
  {
    result := map[];
    var own := Assets(entries, source);
    for i := 0 to |entries|
      invariant forall other :: other in result <==> other != source && exists a :: Entry(a, other) in entries[..i]
      invariant forall other :: other in result ==> result[other] == |Shared(entries, source, other)|
    {
      var other := entries[i].source;
      assert entries[..i + 1] == entries[..i] + [entries[i]];
      assert Entry(entries[i].asset, other) in entries[..i + 1];
      if other != source && other !in result {
        var otherAssets := Assets(entries, other);
        var shared := set a | a in own && a in otherAssets;
        assert shared == Shared(entries, source, other);
        result := result[other := |shared|];
      }
    }
    assert entries[..|entries|] == entries;
  }

  /** Overlap is symmetric. */
  lemma OverlapIsSymmetric(entries: seq<Entry>, a: string, b: string)
    ensures |Shared(entries, a, b)| == |Shared(entries, b, a)|
  {
    assert Shared(entries, a, b) == Shared(entries, b, a);
  }

  /** The grouped record and the two set metrics, side by side, for every pair of sources. */
  method CompareAll(entries: seq<Entry>, a: string, b: string) returns (grouped: nat, metric: map<string, nat>, mirror: map<string, nat>)
    requires Less(a, b) && (exists x :: Entry(x, a) in entries) && (exists x :: Entry(x, b) in entries)
    ensures b in metric && a in mirror && metric[b] == mirror[a]
    ensures grouped >= metric[b]
    ensures grouped == metric[b] <==> !UniverseRegistry.Collides(entries, a, b)
  {
    LessTrichotomy(a, b);
    var sourceOverlap, _ := UniverseRegistry.Aggregate(entries);
    grouped := Lookup(sourceOverlap, UniverseRegistry.Key(a, b));
    metric := PairwiseOverlap(entries, a);
    mirror := PairwiseOverlap(entries, b);
    OverlapIsSymmetric(entries, a, b);
    UniverseRegistry.OverlapAgreesIff(entries, a, b);
  }
}
