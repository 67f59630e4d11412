/** Shared rendering resources of the layers: eviction of cached fonts and images that a
    layer does not use, and background highlight paths grouped by colour. */
module TileResources {
  import opened EditorTypes
  import opened TileOffsets

  /** The fonts of a layer's text nodes (nodes without a font are skipped). */
  function UsedFonts(children: seq<Node>): set<Font> {
    set n | n in children && n.TextNode? && n.font.Some? :: n.font.value
  }

  /** The images of a layer's image nodes (nodes without an image are skipped). */
  function UsedImages(children: seq<Node>): set<Image> {
    set n | n in children && n.ImageNode? && n.image.Some? :: n.image.value
  }

  /** One cache after Layer.evictUnusedObjects: the cached values the layer does not use
      are collected, and every entry holding one of them is removed. */
  function Evict<K(!new), V>(cache: map<K, V>, used: set<V>): (r: map<K, V>)
    // an entry stays exactly when the layer uses its value
    ensures forall k :: k in r <==> k in cache && cache[k] in used
    // and it stays unchanged
    ensures forall k :: k in r ==> r[k] == cache[k]
  {
    var unused := cache.Values - used;
    map k | k in cache && cache[k] !in unused :: cache[k]
  }

  /** Evicting for each layer in turn, as ParagraphTile.evictUnusedObjects does. */
  function SweepAll<K(!new), V>(cache: map<K, V>, uses: seq<set<V>>): map<K, V> {
    if uses == [] then cache else SweepAll(Evict(cache, uses[0]), uses[1..])
  }

  /** Sweeping one more layer is one more eviction on the result so far. */
  lemma {:induction false} SweepAllSnoc<K(!new), V>(cache: map<K, V>, uses: seq<set<V>>, u: set<V>)
    ensures SweepAll(cache, uses + [u]) == Evict(SweepAll(cache, uses), u)
    decreases |uses|
  {
    if uses == [] {
      assert uses + [u] == [u] && [u][1..] == [];
    } else {
      assert (uses + [u])[1..] == uses[1..] + [u];
      SweepAllSnoc(Evict(cache, uses[0]), uses[1..], u);
    }
  }

  /** The sweep over the first i + 1 layers is the sweep over the first i, then layer i. */
  lemma SweepPrefixStep<K(!new), V>(cache: map<K, V>, uses: seq<set<V>>, i: nat)
    requires i < |uses|
    ensures SweepAll(cache, uses[..i + 1]) == Evict(SweepAll(cache, uses[..i]), uses[i])
  {
    assert uses[..i + 1] == uses[..i] + [uses[i]];
    SweepAllSnoc(cache, uses[..i], uses[i]);
  }

  predicate UsedByAll<V>(v: V, uses: seq<set<V>>) {
    forall i :: 0 <= i < |uses| ==> v in uses[i]
  }

  /** A sweep keeps exactly the entries whose value every swept layer uses, unchanged. */
  lemma {:induction false} SweepKeepsValuesUsedByEveryLayer<K(!new), V>(cache: map<K, V>, uses: seq<set<V>>)
    ensures forall k :: k in SweepAll(cache, uses) <==> k in cache && UsedByAll(cache[k], uses)
    ensures forall k :: k in SweepAll(cache, uses) ==> SweepAll(cache, uses)[k] == cache[k]
    decreases |uses|
  {
    if uses != [] {
      var c1 := Evict(cache, uses[0]);
      SweepKeepsValuesUsedByEveryLayer(c1, uses[1..]);
      forall k | k in cache
        ensures UsedByAll(cache[k], uses) <==> cache[k] in uses[0] && UsedByAll(cache[k], uses[1..])
      {
        if cache[k] in uses[0] && UsedByAll(cache[k], uses[1..]) {
          forall i | 0 <= i < |uses| ensures cache[k] in uses[i] {
            if i > 0 { assert uses[i] == uses[1..][i - 1]; }
          }
        }
      }
    }
  }

  /** So a value used by one layer but not by a later one is evicted by the sweep. */
  lemma SweepEvictsValueMissingFromOneLayer<K(!new), V>(cache: map<K, V>, uses: seq<set<V>>, k: K, j: int)
    requires k in cache && 0 <= j < |uses| && cache[k] !in uses[j]
    ensures k !in SweepAll(cache, uses)
  {
    SweepKeepsValuesUsedByEveryLayer(cache, uses);
  }

  /** A background path: its fill and the layer-relative offsets it covers. */
  datatype BackgroundPath = BackgroundPath(fill: Paint, region: set<int>)

  /** The fill-to-path map of addBackgroundPathsToLayers: the range shapes of one colour
      merged (Shape.union) into one region. */
  function GroupByColor(ranges: seq<IndexRangeColor>): (m: map<Paint, set<int>>)
    ensures m.Keys == set r | r in ranges :: r.color
  {
    if ranges == [] then map[]
    else
      var m := GroupByColor(ranges[..|ranges| - 1]);
      var r := ranges[|ranges| - 1];
      var shape := RangeShape(r.start, r.end);
      assert ranges == ranges[..|ranges| - 1] + [r];
      if r.color in m then m[r.color := m[r.color] + shape] else m[r.color := shape]
  }

  predicate CoveredBy(ranges: seq<IndexRangeColor>, c: Paint, i: int) {
    exists j :: 0 <= j < |ranges| && ranges[j].color == c && ranges[j].start <= i < ranges[j].end
  }

  lemma CoveredBySplit(ranges: seq<IndexRangeColor>, c: Paint, i: int)
    requires ranges != []
    ensures var last := ranges[|ranges| - 1];
      CoveredBy(ranges, c, i) <==>
      CoveredBy(ranges[..|ranges| - 1], c, i) || (last.color == c && last.start <= i < last.end)
  {
    var init := ranges[..|ranges| - 1];
    if CoveredBy(init, c, i) {
      var j :| 0 <= j < |init| && init[j].color == c && init[j].start <= i < init[j].end;
      assert ranges[j] == init[j];
    }
    if CoveredBy(ranges, c, i) {
      var j :| 0 <= j < |ranges| && ranges[j].color == c && ranges[j].start <= i < ranges[j].end;
      if j < |init| {
        assert init[j] == ranges[j];
      }
    }
  }

  /** The region of a colour is exactly the union of the ranges with that colour. */
  lemma {:induction false} GroupedRegionIsUnion(ranges: seq<IndexRangeColor>, c: Paint, i: int)
    requires c in GroupByColor(ranges)
    ensures i in GroupByColor(ranges)[c] <==> CoveredBy(ranges, c, i)
    decreases |ranges|
  {
    var init := ranges[..|ranges| - 1];
    var r := ranges[|ranges| - 1];
    var m := GroupByColor(init);
    var shape := RangeShape(r.start, r.end);
    assert GroupByColor(ranges) == if r.color in m then m[r.color := m[r.color] + shape] else m[r.color := shape];
    CoveredBySplit(ranges, c, i);
    if c in m {
      GroupedRegionIsUnion(init, c, i);
    }
  }

  /** The paths of the layer after addBackgroundPathsToLayers: one per colour. */
  function BackgroundPaths(ranges: seq<IndexRangeColor>): (paths: set<BackgroundPath>)
    ensures forall p :: p in paths <==> p.fill in GroupByColor(ranges) && p.region == GroupByColor(ranges)[p.fill]
    ensures forall p, q :: p in paths && q in paths && p.fill == q.fill ==> p == q
  {
    var m := GroupByColor(ranges);
    set c | c in m :: BackgroundPath(c, m[c])
  }

  /** Two ranges of the same colour give a single path covering both of them. */
  lemma SameColourRangesMerge(a: IndexRangeColor, b: IndexRangeColor)
    requires a.color == b.color
    ensures BackgroundPaths([a, b]) == {BackgroundPath(a.color, RangeShape(a.start, a.end) + RangeShape(b.start, b.end))}
  {
    assert [a, b][..1] == [a];
    assert [a][..0] == [];
    var m := GroupByColor([a, b]);
    assert GroupByColor([a]) == map[a.color := RangeShape(a.start, a.end)];
    assert m == map[a.color := RangeShape(a.start, a.end) + RangeShape(b.start, b.end)];
  }
}
