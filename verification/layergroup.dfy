/** The layer-group update done when a download task finishes: which of the
    requested layers are new to the group, and where each new layer is
    inserted so that points stay above lines and lines above polygons.
    Every child of the group is taken to be a layer. */
module LayerGroup {
  import opened Options
  import opened Strings
  import opened Paths

  /** QGIS `geometryType()` codes; the ordering works on any integer code. */
  const Point: int := 0
  const Line: int := 1
  const Polygon: int := 2

  /** A layer child of the group: the layer's source, its provider's data
      source URI, and its geometry type code. */
  datatype Entry = Entry(source: string, uri: string, geom: int)

  /** A layer that opened as valid: its provider URI and geometry type. */
  datatype OpenedLayer = OpenedLayer(uri: string, geom: int)

  /** The answer to "add the downloaded layers to the map?". */
  datatype Reply = Yes | No

  /** Points before lines before polygons: codes never decrease down the group. */
  predicate GeomSorted(layers: seq<Entry>) {
    forall i, j :: 0 <= i < j < |layers| ==> layers[i].geom <= layers[j].geom
  }

  /** The scan over the existing layers: `found` is one past the last index
      seen so far whose code is below `g`. */
  function ScanInsertIndex(layers: seq<Entry>, g: int, idx: nat, found: nat): (k: nat)
    requires idx <= |layers| && found <= idx
    requires found > 0 ==> layers[found - 1].geom < g
    requires forall j :: found <= j < idx ==> layers[j].geom >= g
    ensures found <= k <= |layers|
    ensures k > 0 ==> layers[k - 1].geom < g
    ensures forall j :: k <= j < |layers| ==> layers[j].geom >= g
    decreases |layers| - idx
  {
    if idx == |layers| then found
    else ScanInsertIndex(layers, g, idx + 1, if g > layers[idx].geom then idx + 1 else found)
  }

  /** Where a layer with code `g` goes: just after the last layer whose code
      is smaller, or at the top when there is none. */
  function InsertIndex(layers: seq<Entry>, g: int): (k: nat)
    ensures k <= |layers|
    ensures k > 0 ==> layers[k - 1].geom < g
    ensures forall j :: k <= j < |layers| ==> layers[j].geom >= g
  {
    ScanInsertIndex(layers, g, 0, 0)
  }

  /** The two properties of InsertIndex single out one position. */
  lemma InsertIndexUnique(layers: seq<Entry>, g: int, m: nat)
    requires m <= |layers|
    requires m > 0 ==> layers[m - 1].geom < g
    requires forall j :: m <= j < |layers| ==> layers[j].geom >= g
    ensures m == InsertIndex(layers, g)
  {
  }

  /** One `insertChildNode` into the group, mirrored in the working list. */
  function InsertLayer(layers: seq<Entry>, e: Entry): (r: seq<Entry>)
    ensures |r| == |layers| + 1
    ensures var k := InsertIndex(layers, e.geom);
      && r[k] == e
      && (forall j :: 0 <= j < k ==> r[j] == layers[j])
      && (forall j :: k < j < |r| ==> r[j] == layers[j - 1])
      && (k > 0 ==> r[k - 1].geom < e.geom)
      && (forall j :: k < j < |r| ==> r[j].geom >= e.geom)
    ensures multiset(r) == multiset(layers) + multiset{e}
  {
    var k := InsertIndex(layers, e.geom);
    var r := layers[..k] + [e] + layers[k..];
    assert forall j :: k < j < |r| ==> r[j] == layers[j - 1];
    assert layers == layers[..k] + layers[k..];
    r
  }

  /** On a sorted group the layers above the new one are exactly those of a
      smaller code: the new layer goes above every layer of its own class. */
  lemma InsertSortedPartition(layers: seq<Entry>, g: int)
    requires GeomSorted(layers)
    ensures var k := InsertIndex(layers, g);
      forall j :: 0 <= j < |layers| ==> (j < k <==> layers[j].geom < g)
  {
    var k := InsertIndex(layers, g);
    forall j | 0 <= j < k
      ensures layers[j].geom < g
    {
      assert layers[j].geom <= layers[k - 1].geom;
    }
  }

  /** Inserting into a point/line/polygon-ordered group keeps it ordered. */
  lemma InsertKeepsSorted(layers: seq<Entry>, e: Entry)
    requires GeomSorted(layers)
    ensures GeomSorted(InsertLayer(layers, e))
  {
    InsertSortedPartition(layers, e.geom);
  }

  /** The textbook insertion into a sorted list, before the first element
      that is not smaller. */
  function InsertBeforeClass(layers: seq<Entry>, e: Entry): seq<Entry> {
    if |layers| == 0 || e.geom <= layers[0].geom then [e] + layers
    else [layers[0]] + InsertBeforeClass(layers[1..], e)
  }

  /** A layer whose code exceeds the top layer's goes somewhere below it. */
  lemma InsertBelowHead(layers: seq<Entry>, e: Entry)
    requires |layers| > 0 && layers[0].geom < e.geom
    ensures InsertLayer(layers, e) == [layers[0]] + InsertLayer(layers[1..], e)
  {
    var g := e.geom;
    var tail := layers[1..];
    var k := InsertIndex(layers, g);
    var k' := InsertIndex(tail, g);
    assert k' + 1 == k by {
      assert layers[k'].geom < g by {
        if k' > 0 { assert layers[k'] == tail[k' - 1]; }
      }
      assert forall j :: k' + 1 <= j < |layers| ==> layers[j] == tail[j - 1];
      InsertIndexUnique(layers, g, k' + 1);
    }
    var r := InsertLayer(layers, e);
    var expected := [layers[0]] + InsertLayer(tail, e);
    forall j | 0 <= j < |r|
      ensures r[j] == expected[j]
    {
      if 0 < j < k {
        assert r[j] == layers[j] == tail[j - 1];
      } else if j > k {
        assert r[j] == layers[j - 1] == tail[j - 2];
      }
    }
  }

  /** On a sorted group the scan agrees with the textbook insertion. */
  lemma {:induction false} InsertMatchesTextbook(layers: seq<Entry>, e: Entry)
    requires GeomSorted(layers)
    ensures InsertLayer(layers, e) == InsertBeforeClass(layers, e)
    decreases |layers|
  {
    if |layers| == 0 {
    } else if e.geom <= layers[0].geom {
      InsertSortedPartition(layers, e.geom);
      var r := InsertLayer(layers, e);
      assert InsertIndex(layers, e.geom) == 0;
      assert r == [e] + layers;
    } else {
      assert GeomSorted(layers[1..]);
      InsertMatchesTextbook(layers[1..], e);
      InsertBelowHead(layers, e);
    }
  }

  /** The insertion loop of lines 827-837: each new layer in turn. */
  function InsertAll(layers: seq<Entry>, news: seq<Entry>): (r: seq<Entry>)
    ensures |r| == |layers| + |news|
    ensures multiset(r) == multiset(layers) + multiset(news)
    ensures forall e :: e in r ==> e in layers || e in news
    ensures GeomSorted(layers) ==> GeomSorted(r)
    decreases |news|
  {
    if |news| == 0 then layers
    else
      var next := InsertLayer(layers, news[0]);
      assert GeomSorted(layers) ==> GeomSorted(next) by {
        if GeomSorted(layers) { InsertKeepsSorted(layers, news[0]); }
      }
      assert news == [news[0]] + news[1..];
      var r := InsertAll(next, news[1..]);
      InMultisetSum(r, layers, news);
      r
  }

  /** An element of a sequence whose multiset is the sum of two others'
      comes from one of them. */
  lemma InMultisetSum(r: seq<Entry>, a: seq<Entry>, b: seq<Entry>)
    requires multiset(r) == multiset(a) + multiset(b)
    ensures forall e :: e in r ==> e in a || e in b
  {
    forall e | e in r
      ensures e in a || e in b
    {
      assert e in multiset(r);
    }
  }

  /** Two new layers of one class end up in reverse request order: the second
      is inserted above the first. */
  lemma SameClassBatchReversed(layers: seq<Entry>, x: Entry, y: Entry)
    requires x.geom == y.geom
    ensures var k := InsertIndex(layers, x.geom);
      InsertAll(layers, [x, y]) == layers[..k] + [y, x] + layers[k..]
  {
    var k := InsertIndex(layers, x.geom);
    var pre, post := layers[..k], layers[k..];
    var once := InsertLayer(layers, x);
    InsertAtIndex(layers, x, k);
    SameClassSamePlace(layers, x);
    InsertAtIndex(once, y, k);
    SplitAround(pre, x, post, y);
    InsertAllPair(layers, x, y);
  }

  /** Inserting `y` at the position of `x` in `pre + [x] + post` puts it
      just above `x`. */
  lemma SplitAround(pre: seq<Entry>, x: Entry, post: seq<Entry>, y: Entry)
    ensures var once := pre + [x] + post;
      once[..|pre|] + [y] + once[|pre|..] == pre + [y, x] + post
  {
    var once := pre + [x] + post;
    assert once[..|pre|] == pre;
    assert once[|pre|..] == [x] + post;
  }

  /** A layer of the class just inserted goes to the same place. */
  lemma SameClassSamePlace(layers: seq<Entry>, x: Entry)
    ensures InsertIndex(InsertLayer(layers, x), x.geom) == InsertIndex(layers, x.geom)
  {
    var k := InsertIndex(layers, x.geom);
    var once := InsertLayer(layers, x);
    assert k > 0 ==> once[k - 1] == layers[k - 1];
    InsertIndexUnique(once, x.geom, k);
  }

  lemma InsertAllPair(layers: seq<Entry>, x: Entry, y: Entry)
    ensures InsertAll(layers, [x, y]) == InsertLayer(InsertLayer(layers, x), y)
  {
    var once := InsertLayer(layers, x);
    var twice := InsertLayer(once, y);
    assert [x, y][1..] == [y];
    assert InsertAll(layers, [x, y]) == InsertAll(once, [y]);
    assert InsertAll(once, [y]) == InsertAll(twice, []);
  }

  /** Example: existing [pointA, polygonB] and new [lineC, pointD]
      give pointD, pointA, lineC, polygonB. */
  lemma MixedBatchExample(a: Entry, b: Entry, c: Entry, d: Entry)
    requires a.geom == Point && b.geom == Polygon && c.geom == Line && d.geom == Point
    ensures var r := InsertAll([a, b], [c, d]);
      |r| == 4 && r[0] == d && r[1] == a && r[2] == c && r[3] == b
  {
    InsertAllPair([a, b], c, d);
    MixedBatchSteps(a, b, c, d);
  }

  lemma MixedBatchSteps(a: Entry, b: Entry, c: Entry, d: Entry)
    requires a.geom == Point && b.geom == Polygon && c.geom == Line && d.geom == Point
    ensures InsertLayer(InsertLayer([a, b], c), d) == [d] + [a, c, b]
  {
    var acb := [a, c, b];
    forall j | 0 <= j < |acb|
      ensures d.geom <= acb[j].geom
    {
      assert acb[j] == a || acb[j] == c || acb[j] == b;
    }
    InsertPointOnTop(acb, d);
    InsertLineBetween(a, b, c);
  }

  lemma InsertLineBetween(a: Entry, b: Entry, c: Entry)
    requires a.geom < c.geom <= b.geom
    ensures InsertLayer([a, b], c) == [a, c, b]
  {
    InsertIndexUnique([a, b], c.geom, 1);
    InsertAtIndex([a, b], c, 1);
    assert [a, b][..1] + [c] + [a, b][1..] == [a, c, b];
  }

  lemma InsertPointOnTop(layers: seq<Entry>, d: Entry)
    requires forall j :: 0 <= j < |layers| ==> d.geom <= layers[j].geom
    ensures InsertLayer(layers, d) == [d] + layers
  {
    InsertIndexUnique(layers, d.geom, 0);
    InsertAtIndex(layers, d, 0);
    assert layers[..0] + [d] + layers[0..] == [d] + layers;
  }

  /** InsertLayer at a known index, as a concrete sequence. */
  lemma InsertAtIndex(layers: seq<Entry>, e: Entry, k: nat)
    requires k == InsertIndex(layers, e.geom)
    ensures InsertLayer(layers, e) == layers[..k] + [e] + layers[k..]
  {
  }

  /** Whether a child of the group already holds `source`, as its layer
      source or as its provider's data source URI. */
  predicate InGroup(children: seq<Entry>, source: string) {
    exists e :: e in children && (e.source == source || e.uri == source)
  }

  /** The new layers of one batch, from names already stripped and non-blank:
      a name is kept when its layer opens and its source is not yet a child.
      The check looks at the children as they were before the batch. */
  function NewLayers(names: seq<string>, output: string, children: seq<Entry>,
                     open: string -> Option<OpenedLayer>): (news: seq<Entry>)
    ensures |news| <= |names|
    ensures forall e :: e in news ==> !InGroup(children, e.source)
    ensures forall e :: e in news ==>
      && open(e.source) == Some(OpenedLayer(e.uri, e.geom))
      && exists n :: n in names && e.source == LayerSource(output, n)
  {
    if |names| == 0 then []
    else
      var rest := NewLayers(names[..|names| - 1], output, children, open);
      var n := names[|names| - 1];
      var source := LayerSource(output, n);
      assert forall m :: m in names[..|names| - 1] ==> m in names;
      match open(source)
      case None => rest
      case Some(layer) =>
        if InGroup(children, source) then rest
        else rest + [Entry(source, layer.uri, layer.geom)]
  }

  /** Every requested name whose layer opens and is not yet in the group
      becomes a new layer. */
  lemma {:induction false} NewLayersComplete(names: seq<string>, output: string, children: seq<Entry>,
                                             open: string -> Option<OpenedLayer>, n: string)
    requires n in names
    requires open(LayerSource(output, n)).Some?
    requires !InGroup(children, LayerSource(output, n))
    ensures Entry(LayerSource(output, n), open(LayerSource(output, n)).value.uri,
                  open(LayerSource(output, n)).value.geom)
            in NewLayers(names, output, children, open)
  {
    var last := names[|names| - 1];
    if n != last {
      assert n in names[..|names| - 1] by {
        var i :| 0 <= i < |names| && names[i] == n;
        assert i < |names| - 1;
        assert names[..|names| - 1][i] == n;
      }
      NewLayersComplete(names[..|names| - 1], output, children, open, n);
    }
  }

  /** New layers are not checked against each other: when every name opens
      and none is in the group, every name yields a layer, repeats included. */
  lemma {:induction false} NewLayersKeepsRepeats(names: seq<string>, output: string, children: seq<Entry>,
                                                 open: string -> Option<OpenedLayer>)
    requires forall n :: n in names ==> open(LayerSource(output, n)).Some? && !InGroup(children, LayerSource(output, n))
    ensures |NewLayers(names, output, children, open)| == |names|
  {
    if |names| > 0 {
      assert forall m :: m in names[..|names| - 1] ==> m in names;
      NewLayersKeepsRepeats(names[..|names| - 1], output, children, open);
      assert names[|names| - 1] in names;
    }
  }

  /** Names whose layers are all in the group already add nothing. */
  lemma {:induction false} NewLayersNoneWhenPresent(names: seq<string>, output: string, children: seq<Entry>,
                                                    open: string -> Option<OpenedLayer>)
    requires forall n :: n in names ==> InGroup(children, LayerSource(output, n))
    ensures NewLayers(names, output, children, open) == []
  {
    if |names| > 0 {
      assert forall m :: m in names[..|names| - 1] ==> m in names;
      NewLayersNoneWhenPresent(names[..|names| - 1], output, children, open);
      assert names[|names| - 1] in names;
    }
  }

  /** `finished` on the layer tree, which maps group names to their layer
      children: after a successful run that the user agrees to load, the
      group named after the output file (created empty when missing) gets
      the new layers inserted in geometry order; otherwise nothing changes. */
  function Finished(result: bool, reply: Reply, features: seq<string>, output: string,
                    root: map<string, seq<Entry>>, open: string -> Option<OpenedLayer>)
    : (r: map<string, seq<Entry>>)
    ensures !result || reply == No ==> r == root
    ensures result && reply == Yes ==>
      var name := GroupName(output);
      var before := if name in root then root[name] else [];
      var news := NewLayers(NonBlankNames(features), output, before, open);
      && r.Keys == root.Keys + {name}
      && (forall other :: other in root && other != name ==> r[other] == root[other])
      && |r[name]| == |before| + |news|
      && multiset(r[name]) == multiset(before) + multiset(news)
      && (GeomSorted(before) ==> GeomSorted(r[name]))
      && (forall e :: e in r[name] && e !in before ==> !InGroup(before, e.source))
  {
    if result && reply == Yes then
      var name := GroupName(output);
      var before := if name in root then root[name] else [];
      var news := NewLayers(NonBlankNames(features), output, before, open);
      root[name := InsertAll(before, news)]
    else
      root
  }

  /** A feature requested twice in one batch is added twice: the duplicate
      check only looks at the layers the group had before the batch. */
  lemma RepeatedFeatureAddedTwice(f: string, output: string, root: map<string, seq<Entry>>,
                                  open: string -> Option<OpenedLayer>)
    requires Strip(f) != []
    requires open(LayerSource(output, Strip(f))).Some?
    requires GroupName(output) !in root
    ensures |Finished(true, Yes, [f, f], output, root, open)[GroupName(output)]| == 2
  {
    var names := NonBlankNames([f, f]);
    assert [f, f][..1] == [f];
    assert NonBlankNames([f]) == [Strip(f)] by {
      assert [f][..0] == [];
    }
    assert names == [Strip(f), Strip(f)];
    NewLayersKeepsRepeats(names, output, [], open);
  }

  /** Loading the same features again into a group that already holds them
      leaves the group as it was. */
  lemma ReattachLeavesGroupUnchanged(features: seq<string>, output: string,
                                     root: map<string, seq<Entry>>, open: string -> Option<OpenedLayer>)
    requires GroupName(output) in root
    requires forall n :: n in NonBlankNames(features) ==> InGroup(root[GroupName(output)], LayerSource(output, n))
    ensures Finished(true, Yes, features, output, root, open) == root
  {
    var name := GroupName(output);
    NewLayersNoneWhenPresent(NonBlankNames(features), output, root[name], open);
    assert root[name := root[name]] == root;
  }
}
