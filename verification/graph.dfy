/**
 * The pattern graph's data: the patterns of the data feed, the nodes and
 * edges built from them, and the builder itself (`buildGraph`).
 *
 * Pattern numbers are keys of a JavaScript object (`byNumber`), so they are
 * compared as their text; they are modelled as strings throughout.
 */
module Graph {

  datatype Vec = Vec(x: real, y: real)

  /** One entry of the feed's `patterns` list, as far as the graph reads it.
      A pattern without a `contains` list has the empty one. */
  datatype Pattern = Pattern(number: string, name: string, scale: string, contains: seq<string>)

  /** A node of the graph: the pattern's identity, its scale band and its
      position and velocity on the canvas. */
  datatype Node = Node(
    number: string, name: string, scale: string, scaleIdx: nat,
    x: real, y: real, vx: real, vy: real,
    contains: seq<string>)

  /** A directed "contains" edge, as indices into the node list. */
  datatype Edge = Edge(source: nat, target: nat)

  /** `Array.prototype.indexOf`: the first position of `v` in `s`, or -1. */
  function IndexOf<T(==)>(s: seq<T>, v: T): (r: int)
    ensures -1 <= r < |s|
    ensures r == -1 <==> v !in s
    ensures r >= 0 ==> s[r] == v && v !in s[..r]
  {
    if |s| == 0 then -1
    else if s[0] == v then 0
    else
      var k := IndexOf(s[1..], v);
      if k < 0 then -1
      else
        assert s[..k + 1] == [s[0]] + s[1..][..k];
        k + 1
  }

  /** The band a pattern's scale selects: its position in `scaleIds`, and
      band 0 for a scale that is not listed. */
  function ScaleIndex(scaleIds: seq<string>, scale: string): (r: nat)
    ensures |scaleIds| > 0 ==> r < |scaleIds|
    ensures scale in scaleIds ==> scaleIds[r] == scale && scale !in scaleIds[..r]
    ensures scale !in scaleIds ==> r == 0
  {
    var k := IndexOf(scaleIds, scale);
    if k < 0 then 0 else k
  }

  /** The number of bands the canvas height is divided into (at least one). */
  function BandCount(scaleIds: seq<string>): (r: nat)
    ensures |scaleIds| > 0 ==> r == |scaleIds|
    ensures |scaleIds| == 0 ==> r == 1
  {
    if |scaleIds| == 0 then 1 else |scaleIds|
  }

  /**
   * The node built for pattern `p` on a `width` x `height` canvas. `draw`
   * holds the two values `Math.random()` returned for it (x first): the node
   * starts in the middle 60% of the width and of its scale's band.
   */
  function InitialNode(scaleIds: seq<string>, p: Pattern, draw: Vec, width: real, height: real): (n: Node)
    ensures n.number == p.number && n.name == p.name && n.scale == p.scale && n.contains == p.contains
    ensures n.scaleIdx == ScaleIndex(scaleIds, p.scale)
    ensures n.vx == 0.0 && n.vy == 0.0
  {
    var idx := ScaleIndex(scaleIds, p.scale);
    var bandH := height / BandCount(scaleIds) as real;
    Node(p.number, p.name, p.scale, idx,
         Jitter(width, draw.x),
         bandH * idx as real + Jitter(bandH, draw.y),
         0.0, 0.0, p.contains)
  }

  /** `span * 0.2 + d * span * 0.6`: for a draw `d` in [0, 1), a point in the
      middle 60% of a span. */
  function Jitter(span: real, d: real): (r: real)
    ensures span >= 0.0 && 0.0 <= d < 1.0 ==> 0.2 * span <= r <= 0.8 * span
  {
    MulMonotone(0.0, d, span);
    MulMonotone(d, 1.0, span);
    span * 0.2 + d * span * 0.6
  }

  /** Multiplying by a non-negative factor keeps an order. */
  lemma MulMonotone(a: real, b: real, c: real)
    ensures a <= b && c >= 0.0 ==> a * c <= b * c && c * a <= c * b
  {
    assert b * c - a * c == (b - a) * c;
  }

  /** `c` bands of height `height / c` fill the canvas height exactly. */
  lemma BandHeightSplits(height: real, c: nat)
    requires c >= 1 && height >= 0.0
    ensures var bandH := height / c as real;
            bandH >= 0.0 && bandH * (c as real) == height
  {
  }

  /** A point inside band `idx` of `c` equal bands lies inside the canvas. */
  lemma BandInsideCanvas(height: real, c: nat, idx: nat, offset: real)
    requires c >= 1 && height >= 0.0 && idx < c
    requires 0.0 <= offset <= height / c as real
    ensures 0.0 <= (height / c as real) * idx as real + offset <= height
  {
    var bandH := height / c as real;
    var i := idx as real;
    BandHeightSplits(height, c);
    MulMonotone(0.0, i, bandH);
    calc {
      bandH * i + offset;
    <= bandH * i + bandH;
    == bandH * (i + 1.0);
    <= { MulMonotone(i + 1.0, c as real, bandH); }
      bandH * (c as real);
    == height;
    }
  }

  /** A new node lies inside the canvas and inside its scale's band. */
  lemma {:induction false} InitialNodeInBand(scaleIds: seq<string>, p: Pattern, draw: Vec, width: real, height: real)
    requires 0.0 <= draw.x < 1.0 && 0.0 <= draw.y < 1.0
    requires width >= 0.0 && height >= 0.0
    ensures var n := InitialNode(scaleIds, p, draw, width, height);
            var bandH := height / BandCount(scaleIds) as real;
            && 0.2 * width <= n.x <= 0.8 * width
            && bandH * n.scaleIdx as real + 0.2 * bandH <= n.y <= bandH * n.scaleIdx as real + 0.8 * bandH
            && 0.0 <= n.y <= height
  {
    var c := BandCount(scaleIds);
    BandHeightSplits(height, c);
    BandInsideCanvas(height, c, ScaleIndex(scaleIds, p.scale), Jitter(height / c as real, draw.y));
  }

  /**
   * The `byNumber` map after the first `|ps|` patterns: each number maps to
   * the index of the LAST pattern carrying it (a later pattern overwrites).
   */
  function NumberIndex(ps: seq<Pattern>): (m: map<string, nat>)
    ensures forall k | k in m :: m[k] < |ps| && ps[m[k]].number == k
  {
    if |ps| == 0 then map[]
    else NumberIndex(ps[..|ps| - 1])[ps[|ps| - 1].number := |ps| - 1]
  }

  /** The index knows exactly the numbers that occur, and maps each to the
      last pattern carrying it. */
  ghost predicate IndexesLast(ps: seq<Pattern>, m: map<string, nat>) {
    && (forall k :: k in m <==> exists i :: 0 <= i < |ps| && ps[i].number == k)
    && (forall k | k in m :: m[k] < |ps| && ps[m[k]].number == k)
    && (forall k, j | k in m && m[k] < j < |ps| :: ps[j].number != k)
  }

  lemma {:induction false} NumberIndexSpec(ps: seq<Pattern>)
    ensures IndexesLast(ps, NumberIndex(ps))
  {
    NumberIndexKeys(ps);
    NumberIndexPoints(ps);
  }

  /** The index knows exactly the numbers that occur. */
  lemma {:induction false} NumberIndexKeys(ps: seq<Pattern>)
    ensures forall k :: k in NumberIndex(ps) <==> exists i :: 0 <= i < |ps| && ps[i].number == k
  {
    if |ps| > 0 {
      var n := |ps| - 1;
      var init := ps[..n];
      NumberIndexKeys(init);
      forall k ensures k in NumberIndex(ps) <==> exists i :: 0 <= i < |ps| && ps[i].number == k {
        if k in NumberIndex(init) {
          var i :| 0 <= i < |init| && init[i].number == k;
          assert ps[i].number == k;
        }
        if exists i :: 0 <= i < |ps| && ps[i].number == k {
          var i :| 0 <= i < |ps| && ps[i].number == k;
          if i < n {
            assert init[i].number == k;
          }
        }
      }
    }
  }

  /** Each known number points at the last pattern that carries it. */
  lemma {:induction false} NumberIndexPoints(ps: seq<Pattern>)
    ensures forall k | k in NumberIndex(ps) ::
              && NumberIndex(ps)[k] < |ps| && ps[NumberIndex(ps)[k]].number == k
              && forall j | NumberIndex(ps)[k] < j < |ps| :: ps[j].number != k
  {
    if |ps| > 0 {
      var n := |ps| - 1;
      var init := ps[..n];
      var m0 := NumberIndex(init);
      NumberIndexPoints(init);
      forall k | k in NumberIndex(ps) && k != ps[n].number
        ensures && NumberIndex(ps)[k] < |ps| && ps[NumberIndex(ps)[k]].number == k
                && forall j | NumberIndex(ps)[k] < j < |ps| :: ps[j].number != k
      {
        assert NumberIndex(ps)[k] == m0[k];
        assert ps[m0[k]] == init[m0[k]];
        forall j | m0[k] < j < n ensures ps[j].number != k {
          assert ps[j] == init[j];
        }
      }
    }
  }

  /** The edges from node `src` for the child numbers `cs`, in list order;
      numbers that `byNumber` does not know give no edge. */
  function EdgesFrom(src: nat, cs: seq<string>, byNumber: map<string, nat>): (r: seq<Edge>)
    ensures |r| <= |cs|
    ensures forall e | e in r :: e.source == src
    ensures forall e | e in r :: exists c | c in cs :: c in byNumber && e.target == byNumber[c]
    ensures forall c | c in cs && c in byNumber :: Edge(src, byNumber[c]) in r
  {
    if |cs| == 0 then []
    else
      var init := cs[..|cs| - 1];
      var c := cs[|cs| - 1];
      assert cs == init + [c];
      EdgesFrom(src, init, byNumber) + if c in byNumber then [Edge(src, byNumber[c])] else []
  }

  /** The edges of a child list are the edges of its parts in turn, so the
      edges follow `contains` order. */
  lemma {:induction false} EdgesFromAppend(src: nat, a: seq<string>, b: seq<string>, byNumber: map<string, nat>)
    ensures EdgesFrom(src, a + b, byNumber) == EdgesFrom(src, a, byNumber) + EdgesFrom(src, b, byNumber)
    decreases |b|
  {
    if |b| == 0 {
      assert a + b == a;
    } else {
      var ab := a + b;
      var b0 := b[..|b| - 1];
      assert ab[..|ab| - 1] == a + b0;
      assert ab[|ab| - 1] == b[|b| - 1];
      EdgesFromAppend(src, a, b0, byNumber);
    }
  }

  /** One child gives one edge exactly when it resolves, so a child listed
      twice gives two edges. */
  lemma EdgesFromOne(src: nat, c: string, byNumber: map<string, nat>)
    ensures EdgesFrom(src, [c], byNumber) == if c in byNumber then [Edge(src, byNumber[c])] else []
  {
    assert [c][..0] == [];
  }

  /** All edges of the node list: node order first, then `contains` order. */
  function AllEdges(ns: seq<Node>, byNumber: map<string, nat>): (r: seq<Edge>)
    ensures forall e | e in r :: e.source < |ns|
  {
    if |ns| == 0 then []
    else AllEdges(ns[..|ns| - 1], byNumber) + EdgesFrom(|ns| - 1, ns[|ns| - 1].contains, byNumber)
  }

  /** Every edge starts at a node and ends at a node its source lists as a child. */
  lemma {:induction false} EdgesSound(ns: seq<Node>, byNumber: map<string, nat>)
    ensures forall e | e in AllEdges(ns, byNumber) ::
              e.source < |ns| && exists c | c in ns[e.source].contains :: c in byNumber && e.target == byNumber[c]
  {
    if |ns| > 0 {
      var init := ns[..|ns| - 1];
      EdgesSound(init, byNumber);
      assert forall i | 0 <= i < |init| :: init[i] == ns[i];
    }
  }

  /** Every child number that resolves gives an edge. */
  lemma {:induction false} EdgesComplete(ns: seq<Node>, byNumber: map<string, nat>)
    ensures forall i, c | 0 <= i < |ns| && c in ns[i].contains && c in byNumber ::
              Edge(i, byNumber[c]) in AllEdges(ns, byNumber)
  {
    if |ns| > 0 {
      var init := ns[..|ns| - 1];
      EdgesComplete(init, byNumber);
      assert forall i | 0 <= i < |init| :: init[i] == ns[i];
    }
  }

  /** An edge list whose source indices never decrease. */
  ghost predicate SourcesOrdered(r: seq<Edge>) {
    forall a, b | 0 <= a <= b < |r| :: r[a].source <= r[b].source
  }

  /** Edges come out grouped by source node, in node order. */
  lemma {:induction false} EdgesInNodeOrder(ns: seq<Node>, byNumber: map<string, nat>)
    ensures SourcesOrdered(AllEdges(ns, byNumber))
  {
    if |ns| > 0 {
      var init := ns[..|ns| - 1];
      var r0 := AllEdges(init, byNumber);
      var last := EdgesFrom(|ns| - 1, ns[|ns| - 1].contains, byNumber);
      var r := r0 + last;
      EdgesInNodeOrder(init, byNumber);
      EdgesSound(init, byNumber);
      forall a, b | 0 <= a <= b < |r| ensures r[a].source <= r[b].source {
        if b < |r0| {
          assert r[a] == r0[a] && r[b] == r0[b];
          assert r0[a].source <= r0[b].source;
        } else if a < |r0| {
          assert r[a] == r0[a] && r0[a] in r0;
          assert r0[a].source < |init|;
          assert r[b] == last[b - |r0|] && last[b - |r0|] in last;
          assert last[b - |r0|].source == |ns| - 1;
        } else {
          assert r[a] == last[a - |r0|] && last[a - |r0|] in last;
          assert r[b] == last[b - |r0|] && last[b - |r0|] in last;
          assert last[a - |r0|].source == |ns| - 1;
        }
      }
    }
  }

  /** The total length of the nodes' `contains` lists. */
  function ContainsTotal(ns: seq<Node>): nat {
    if |ns| == 0 then 0 else ContainsTotal(ns[..|ns| - 1]) + |ns[|ns| - 1].contains|
  }

  /** There are never more edges than child entries. */
  lemma {:induction false} EdgeCountBound(ns: seq<Node>, byNumber: map<string, nat>)
    ensures |AllEdges(ns, byNumber)| <= ContainsTotal(ns)
  {
    if |ns| > 0 {
      EdgeCountBound(ns[..|ns| - 1], byNumber);
    }
  }

  /**
   * `buildGraph`: one node per pattern, in input order, then one edge per
   * child number that names a pattern, pointing at the last pattern with
   * that number.
   */
  method BuildGraph(scaleIds: seq<string>, patterns: seq<Pattern>, draws: seq<Vec>, width: real, height: real)
    returns (nodes: seq<Node>, edges: seq<Edge>)
    requires |draws| == |patterns|
    ensures |nodes| == |patterns|
    ensures forall i | 0 <= i < |patterns| :: nodes[i] == InitialNode(scaleIds, patterns[i], draws[i], width, height)
    ensures edges == AllEdges(nodes, NumberIndex(patterns))
  {
    var byNumber;
    nodes, byNumber := CreateNodes(scaleIds, patterns, draws, width, height);
    edges := CollectEdges(nodes, byNumber);
  }

  /** The first pass of `buildGraph`: the nodes, and the number index. */
  method CreateNodes(scaleIds: seq<string>, patterns: seq<Pattern>, draws: seq<Vec>, width: real, height: real)
    returns (nodes: seq<Node>, byNumber: map<string, nat>)
    requires |draws| == |patterns|
    ensures |nodes| == |patterns|
    ensures forall i | 0 <= i < |patterns| :: nodes[i] == InitialNode(scaleIds, patterns[i], draws[i], width, height)
    ensures byNumber == NumberIndex(patterns)
  {
    byNumber := map[];
    nodes := [];
    var i := 0;
    while i < |patterns|
      invariant 0 <= i <= |patterns|
      invariant |nodes| == i
      invariant forall k | 0 <= k < i :: nodes[k] == InitialNode(scaleIds, patterns[k], draws[k], width, height)
      invariant byNumber == NumberIndex(patterns[..i])
    {
      assert patterns[..i + 1][..i] == patterns[..i];
      nodes := nodes + [InitialNode(scaleIds, patterns[i], draws[i], width, height)];
      byNumber := byNumber[patterns[i].number := i];
      i := i + 1;
    }
    assert patterns[..i] == patterns;
  }

  /** The second pass of `buildGraph`: the edges, node by node and child by child. */
  method CollectEdges(nodes: seq<Node>, byNumber: map<string, nat>) returns (edges: seq<Edge>)
    ensures edges == AllEdges(nodes, byNumber)
  {
    edges := [];
    var i := 0;
    while i < |nodes|
      invariant 0 <= i <= |nodes|
      invariant edges == AllEdges(nodes[..i], byNumber)
    {
      var es := EdgesOfNode(i, nodes[i].contains, byNumber);
      assert nodes[..i + 1][..i] == nodes[..i];
      edges := edges + es;
      i := i + 1;
    }
    assert nodes[..i] == nodes;
  }

  /** The inner loop of the edge pass: one node's children in list order. */
  method EdgesOfNode(src: nat, cs: seq<string>, byNumber: map<string, nat>) returns (es: seq<Edge>)
    ensures es == EdgesFrom(src, cs, byNumber)
  {
    es := [];
    var j := 0;
    while j < |cs|
      invariant 0 <= j <= |cs|
      invariant es == EdgesFrom(src, cs[..j], byNumber)
    {
      assert cs[..j + 1][..j] == cs[..j];
      if cs[j] in byNumber {
        es := es + [Edge(src, byNumber[cs[j]])];
      }
      j := j + 1;
    }
    assert cs[..j] == cs;
  }

  /**
   * Each built edge runs from a node to a node whose number is one of the
   * source's children, and to the last node carrying that number.
   */
  lemma {:induction false} EdgesTargetChildren(patterns: seq<Pattern>, nodes: seq<Node>)
    requires |nodes| == |patterns|
    requires forall i | 0 <= i < |patterns| :: nodes[i].number == patterns[i].number
    ensures forall e | e in AllEdges(nodes, NumberIndex(patterns)) ::
              && e.source < |nodes| && e.target < |nodes|
              && nodes[e.target].number in nodes[e.source].contains
              && forall j | e.target < j < |nodes| :: nodes[j].number != nodes[e.target].number
  {
    NumberIndexSpec(patterns);
    EdgesSound(nodes, NumberIndex(patterns));
  }

  /**
   * A child number that some pattern carries always gives an edge, to the
   * last node carrying it.
   */
  lemma {:induction false} KnownChildKept(patterns: seq<Pattern>, nodes: seq<Node>, i: nat, c: string, k: nat)
    requires |nodes| == |patterns|
    requires forall j | 0 <= j < |patterns| :: nodes[j].number == patterns[j].number
    requires i < |nodes| && c in nodes[i].contains
    requires k < |nodes| && nodes[k].number == c
    ensures c in NumberIndex(patterns)
    ensures Edge(i, NumberIndex(patterns)[c]) in AllEdges(nodes, NumberIndex(patterns))
    ensures k <= NumberIndex(patterns)[c] < |nodes| && nodes[NumberIndex(patterns)[c]].number == c
  {
    assert patterns[k].number == c;
    NumberIndexSpec(patterns);
    EdgesComplete(nodes, NumberIndex(patterns));
  }
}
