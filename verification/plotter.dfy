/** The computations behind `Plotter#plot_flows`: the flow range is cut into
    `n` half-open bands, each band gets the lines whose flow falls in it and a
    colour picked by integer arithmetic, and the lines that carry no flow at
    all are listed as untread. Drawing is not modelled; flows are reals. */
module Plotter {
  import opened RubyArray
  import opened Grid
  import opened Overall

  /** One entry of the electrical model's `flows` hash, in insertion order. */
  datatype FlowEntry = FlowEntry(edge: Edge, flow: real)

  /** A band as `plot_flows` hands it to `plot_edges`: its lines, the index
      of its colour in the colour table, and its stroke width. */
  datatype Band = Band(edges: seq<Edge>, color: int, width: real)

  /** What `plot_flows` draws: the flow bands from low to high, and the
      untread lines. */
  datatype FlowPlot = FlowPlot(bands: seq<Band>, untread: seq<Edge>)

  /** A hash never holds the same key twice. */
  predicate IsHash(flows: seq<FlowEntry>) {
    forall i, j :: 0 <= i < j < |flows| ==> flows[i].edge != flows[j].edge
  }

  /** `flows.keys`. */
  function Keys(flows: seq<FlowEntry>): (r: seq<Edge>)
    ensures forall e :: e in r <==> exists k :: 0 <= k < |flows| && flows[k].edge == e
  {
    Map((f: FlowEntry) => f.edge, flows)
  }

  /** `flows.values.max` of a non-empty hash. */
  function MaxFlow(flows: seq<FlowEntry>): (r: real)
    requires |flows| > 0
    ensures forall k :: 0 <= k < |flows| ==> flows[k].flow <= r
    ensures exists k :: 0 <= k < |flows| && flows[k].flow == r
  {
    if |flows| == 1 then flows[0].flow
    else
      var rest := MaxFlow(flows[1..]);
      assert forall k :: 1 <= k < |flows| ==> flows[k] == flows[1..][k - 1];
      if flows[0].flow >= rest then flows[0].flow else rest
  }

  /** `flows.values.min` of a non-empty hash. */
  function MinFlow(flows: seq<FlowEntry>): (r: real)
    requires |flows| > 0
    ensures forall k :: 0 <= k < |flows| ==> r <= flows[k].flow
    ensures exists k :: 0 <= k < |flows| && flows[k].flow == r
  {
    if |flows| == 1 then flows[0].flow
    else
      var rest := MinFlow(flows[1..]);
      assert forall k :: 1 <= k < |flows| ==> flows[k] == flows[1..][k - 1];
      if flows[0].flow <= rest then flows[0].flow else rest
  }

  /** How many times `n.times` runs. */
  function Times(n: int): nat {
    if n < 0 then 0 else n
  }

  /** `(max - min) * i / n.to_f + min`: cut point i of m. */
  function Cut(lo: real, hi: real, m: real, i: real): real
    requires m > 0.0
  {
    (hi - lo) * i / m + lo
  }

  /** Cut points grow with their index, from `lo` at 0 to `hi` at m. */
  lemma CutMonotone(lo: real, hi: real, m: real, a: real, b: real)
    requires lo <= hi && m > 0.0
    requires 0.0 <= a <= b <= m
    ensures lo <= Cut(lo, hi, m, a) <= Cut(lo, hi, m, b) <= hi
  {
    var d := hi - lo;
    var p, q := d * a / m, d * b / m;
    assert p * m == d * a && q * m == d * b;
    NonnegFactor(p, m, d, a);
    NonnegFactor(q - p, m, d, b - a);
    NonnegFactor(d - q, m, d, m - b);
    assert Cut(lo, hi, m, a) == p + lo && Cut(lo, hi, m, b) == q + lo;
  }

  /** If u * m == x * y with m positive and x, y not negative, u is not
      negative. */
  lemma NonnegFactor(u: real, m: real, x: real, y: real)
    requires m > 0.0 && x >= 0.0 && y >= 0.0
    requires u * m == x * y
    ensures u >= 0.0
  {
    assert x * y >= 0.0;
  }

  /** Neighbouring cut points are `(hi - lo) / m` apart. */
  lemma CutStep(lo: real, hi: real, m: real, a: real)
    requires m > 0.0
    ensures Cut(lo, hi, m, a + 1.0) - Cut(lo, hi, m, a) == (hi - lo) / m
  {
    var d := hi - lo;
    var p, q, s := d * a / m, d * (a + 1.0) / m, d / m;
    assert p * m == d * a && q * m == d * (a + 1.0) && s * m == d;
    assert (q - p - s) * m == 0.0;
  }

  /** `n.times.map { |i| ... }` followed by `max + 1`: `n` cut points from
      `lo` and a top strictly above `hi`. */
  function Splits(lo: real, hi: real, n: int): (r: seq<real>)
    ensures |r| == Times(n) + 1
    ensures n > 0 ==> r[0] == lo
    ensures r[Times(n)] == hi + 1.0
  {
    var m := Times(n);
    seq(m, i requires 0 <= i < m => Cut(lo, hi, m as real, i as real)) + [hi + 1.0]
  }

  /** Consecutive cut points below the top are `(max - min) / n` apart. */
  lemma SplitsEvenlySpaced(lo: real, hi: real, n: int, i: nat)
    requires i + 1 < Times(n)
    ensures Splits(lo, hi, n)[i + 1] - Splits(lo, hi, n)[i] == (hi - lo) / (n as real)
  {
    CutStep(lo, hi, n as real, i as real);
  }

  /** A list of reals that never decreases. */
  predicate Nondecreasing(sp: seq<real>) {
    forall i, j :: 0 <= i <= j < |sp| ==> sp[i] <= sp[j]
  }

  /** Every cut point lies in [lo, hi + 1] and the cut points never decrease. */
  lemma SplitsAscending(lo: real, hi: real, n: int)
    requires lo <= hi
    ensures var sp := Splits(lo, hi, n);
      && Nondecreasing(sp)
      && (forall i :: 0 <= i < |sp| ==> lo <= sp[i] <= hi + 1.0)
  {
    var sp := Splits(lo, hi, n);
    var m := Times(n);
    forall i, j | 0 <= i <= j < m ensures lo <= sp[i] <= sp[j] <= hi {
      CutMonotone(lo, hi, m as real, i as real, j as real);
    }
  }

  /** `flows.filter { |e, f| f >= bottom && f < top }.map { |e, f| e }`: the
      lines whose flow lies in [bottom, top), in hash order. */
  function InRange(flows: seq<FlowEntry>, bottom: real, top: real): (r: seq<Edge>)
    ensures |r| <= |flows|
    ensures forall e :: e in r <==>
      exists k :: 0 <= k < |flows| && flows[k].edge == e && bottom <= flows[k].flow < top
  {
    if |flows| == 0 then []
    else
      var rest := InRange(flows[1..], bottom, top);
      assert forall k :: 1 <= k < |flows| ==> flows[k] == flows[1..][k - 1];
      if bottom <= flows[0].flow < top then [flows[0].edge] + rest else rest
  }

  /** In a hash, a key is in a band exactly when its own flow is in range. */
  lemma EntryInRange(flows: seq<FlowEntry>, bottom: real, top: real, k: nat)
    requires IsHash(flows)
    requires k < |flows|
    ensures flows[k].edge in InRange(flows, bottom, top) <==> bottom <= flows[k].flow < top
  {
    if flows[k].edge in InRange(flows, bottom, top) {
      var l :| 0 <= l < |flows| && flows[l].edge == flows[k].edge && bottom <= flows[l].flow < top;
      assert l == k;
    }
  }

  /** `splits.each_cons(2).map { ... }`: band i holds the flows in
      [sp[i], sp[i+1]). */
  function Percentiles(flows: seq<FlowEntry>, sp: seq<real>): (r: seq<seq<Edge>>)
    requires |sp| > 0
    ensures |r| == |sp| - 1
    ensures forall i, e :: 0 <= i < |r| ==>
      (e in r[i] <==> exists k :: 0 <= k < |flows| && flows[k].edge == e && sp[i] <= flows[k].flow < sp[i + 1])
  {
    seq(|sp| - 1, i requires 0 <= i < |sp| - 1 => InRange(flows, sp[i], sp[i + 1]))
  }

  /** `((i + 1) * colors.size) / (n + 1)`: with a non-empty colour table the
      index of band i of n is always inside the table. */
  function ColorIndex(i: int, n: int, colors: nat): (r: int)
    requires 0 <= i < n
    ensures 0 <= r
    ensures colors > 0 ==> r < colors
  {
    ColorIndexBound(i, n, colors);
    ((i + 1) * colors) / (n + 1)
  }

  /** The colour formula's bounds for band i of n. */
  lemma ColorIndexBound(i: int, n: int, colors: nat)
    requires 0 <= i < n
    ensures 0 <= ((i + 1) * colors) / (n + 1)
    ensures colors > 0 ==> ((i + 1) * colors) / (n + 1) < colors
  {
    var x := (i + 1) * colors;
    MulLess(i + 1, n + 1, colors);
    if colors > 0 {
      assert (n + 1) * colors == colors * (n + 1);
      DivBelow(x, n + 1, colors);
    }
  }

  /** `a * c <= b * c` for 0 <= a <= b and c >= 0, strictly when c > 0 and a < b. */
  lemma {:induction false} MulLess(a: nat, b: nat, c: nat)
    requires a <= b
    ensures 0 <= a * c <= b * c
    ensures a < b && c > 0 ==> a * c < b * c
  {
    if c > 0 {
      MulLess(a, b, c - 1);
      assert a * c == a * (c - 1) + a;
      assert b * c == b * (c - 1) + b;
    }
  }

  /** Higher bands never get an earlier colour. */
  lemma ColorsAscending(i: int, j: int, n: int, colors: nat)
    requires 0 <= i <= j < n
    ensures ColorIndex(i, n, colors) <= ColorIndex(j, n, colors)
  {
    MulLess(i + 1, j + 1, colors);
    DivMonotone((i + 1) * colors, (j + 1) * colors, n + 1);
  }

  /** A quotient stays below c when the dividend stays below c * d. */
  lemma DivBelow(x: int, d: int, c: int)
    requires 0 <= x < c * d && d > 0
    ensures x / d < c
  {
    var q := x / d;
    assert d * q <= x by {
      assert x == d * q + x % d;
    }
    assert d * (c - q) > 0 by {
      assert d * (c - q) == c * d - d * q;
    }
  }

  /** Integer division by a positive number keeps order. */
  lemma DivMonotone(a: int, b: int, d: int)
    requires 0 <= a <= b && d > 0
    ensures a / d <= b / d
  {
    var q := b / d;
    assert a < (q + 1) * d by {
      assert b == d * q + b % d;
      assert (q + 1) * d == d * q + d;
    }
    DivBelow(a, d, q + 1);
  }

  /** `i + 1 * 8.0 / n` as the source writes the stroke width of band i:
      multiplication binds tighter, so this is i + 8/n. */
  function BandWidthAsWritten(i: int, n: int): (r: real)
    requires n > 0
    ensures i as real < r <= i as real + 8.0
  {
    i as real + 1.0 * 8.0 / n as real
  }

  /** With nine or more bands the top band is drawn wider than 8; with the
      default of ten bands it is 9.8 wide. */
  lemma BandWidthAsWrittenOvershoots(n: int)
    requires n >= 9
    ensures BandWidthAsWritten(n - 1, n) > 8.0
    ensures BandWidthAsWritten(9, 10) == 9.8
  {
    assert (n as real) - 9.0 >= 0.0;
  }

  /** `(i + 1) * 8.0 / n`: widths that grow with the band and top out at 8. */
  function BandWidth(i: int, n: int): (r: real)
    requires 0 <= i < n
    ensures 0.0 < r <= 8.0
    ensures i == n - 1 ==> r == 8.0
  {
    var w, m := ((i + 1) as real) * 8.0, n as real;
    var r := w / m;
    assert 0.0 < r <= 8.0 && (i == n - 1 ==> r == 8.0) by {
      assert r * m == w;
      assert (8.0 - r) * m == 1.0 * (8.0 * m - w);
      NonnegFactor(r, m, 1.0, w);
      NonnegFactor(8.0 - r, m, 1.0, 8.0 * m - w);
    }
    r
  }

  /** Thicker strokes for higher bands. */
  lemma BandWidthAscending(i: int, j: int, n: int)
    requires 0 <= i < j < n
    ensures BandWidth(i, n) < BandWidth(j, n)
  {
    var a, b := ((i + 1) as real) * 8.0, ((j + 1) as real) * 8.0;
    assert b / (n as real) - a / (n as real) == (b - a) / (n as real);
  }

  /** Lines 74 to 100 of `plot_flows` without the drawing. `n` is the band
      count, `colors` the size of the colour table, `adjacency` each site's
      list of lines. */
  function PlotFlows(flows: seq<FlowEntry>, n: int, colors: nat, adjacency: seq<seq<Edge>>): (r: FlowPlot)
    ensures |flows| == 0 ==> r.bands == []
    ensures |flows| > 0 ==> |r.bands| == Times(n)
    ensures forall i :: 0 <= i < |r.bands| ==>
      0 <= r.bands[i].color && (colors > 0 ==> r.bands[i].color < colors)
  {
    var bands :=
      if |flows| == 0 then []
      else
        var pcs := Percentiles(flows, SplitsOf(flows, n));
        seq(|pcs|, i requires 0 <= i < |pcs| =>
          Band(pcs[i], ColorIndex(i, n, colors), BandWidthAsWritten(i, n)));
    FlowPlot(bands, Difference(GridEdges(adjacency), Keys(flows)))
  }

  /** As drawn, band i is wider than i, and with nine or more bands the top
      band is wider than the 8 the other widths stay under. */
  lemma PlotFlowsTopBandTooWide(flows: seq<FlowEntry>, n: int, colors: nat, adjacency: seq<seq<Edge>>)
    requires |flows| > 0 && n >= 9
    ensures var b := PlotFlows(flows, n, colors, adjacency).bands;
      |b| == n && (forall i :: 0 <= i < n ==> b[i].width > i as real) && b[n - 1].width > 8.0
  {
    BandWidthAsWrittenOvershoots(n);
  }

  /** The cut points used for a non-empty hash: from the smallest flow up
      to one above the largest, never decreasing. */
  function SplitsOf(flows: seq<FlowEntry>, n: int): (sp: seq<real>)
    requires |flows| > 0
    ensures |sp| == Times(n) + 1
    ensures Nondecreasing(sp)
    ensures n > 0 ==> sp[0] == MinFlow(flows)
    ensures sp[Times(n)] == MaxFlow(flows) + 1.0
  {
    SplitsAscending(MinFlow(flows), MaxFlow(flows), n);
    Splits(MinFlow(flows), MaxFlow(flows), n)
  }

  /** Band i of the plot holds the lines whose flow is in [sp[i], sp[i+1]). */
  lemma BandIsRange(flows: seq<FlowEntry>, n: int, colors: nat, adjacency: seq<seq<Edge>>, i: nat)
    requires |flows| > 0
    requires i < Times(n)
    ensures var sp := SplitsOf(flows, n);
      PlotFlows(flows, n, colors, adjacency).bands[i].edges == InRange(flows, sp[i], sp[i + 1])
  {
  }

  /** `f` lies in [sp[i], sp[i+1]). */
  predicate InBand(sp: seq<real>, i: int, f: real) {
    0 <= i < |sp| - 1 && sp[i] <= f < sp[i + 1]
  }

  /** Cut points that never decrease leave no value in two bands. */
  lemma BandsDisjoint(sp: seq<real>, f: real, i: int, j: int)
    requires Nondecreasing(sp)
    requires InBand(sp, i, f) && InBand(sp, j, f)
    ensures i == j
  {
  }

  /** Every flow lies in exactly one band. */
  lemma FlowHasOneBand(flows: seq<FlowEntry>, n: int, k: nat)
    requires n > 0
    requires k < |flows|
    ensures var sp := SplitsOf(flows, n);
      && (exists i :: InBand(sp, i, flows[k].flow))
      && (forall i, j :: InBand(sp, i, flows[k].flow) && InBand(sp, j, flows[k].flow) ==> i == j)
  {
    var sp := SplitsOf(flows, n);
    var f := flows[k].flow;
    var band := BandOf(sp, f, 0);
    assert InBand(sp, band, f);
    forall i, j | InBand(sp, i, f) && InBand(sp, j, f) ensures i == j {
      BandsDisjoint(sp, f, i, j);
    }
  }

  /** The band of `f` found by scanning the cut points upwards from `from`. */
  function BandOf(sp: seq<real>, f: real, from: nat): (i: nat)
    requires Nondecreasing(sp)
    requires from < |sp| - 1
    requires sp[from] <= f < sp[|sp| - 1]
    ensures from <= i < |sp| - 1
    ensures sp[i] <= f < sp[i + 1]
    decreases |sp| - from
  {
    if f < sp[from + 1] then from else BandOf(sp, f, from + 1)
  }

  /** With a non-empty hash and n >= 1 bands, the bands partition the keys:
      every key is in exactly one band and the bands hold nothing else. This
      holds also when all flows are equal, where every band but the top one
      is empty. */
  lemma BandsPartitionKeys(flows: seq<FlowEntry>, n: int, colors: nat, adjacency: seq<seq<Edge>>)
    requires IsHash(flows)
    requires |flows| > 0 && n > 0
    ensures var b := PlotFlows(flows, n, colors, adjacency).bands;
      && |b| == n
      && (forall k :: 0 <= k < |flows| ==> exists i :: 0 <= i < n && flows[k].edge in b[i].edges)
      && (forall k, i, j :: 0 <= k < |flows| && 0 <= i < n && 0 <= j < n
            && flows[k].edge in b[i].edges && flows[k].edge in b[j].edges
            ==> i == j)
      && (forall i, e :: 0 <= i < n && e in b[i].edges ==> e in Keys(flows))
  {
    BandsCoverKeys(flows, n, colors, adjacency);
    BandsHoldKeyOnce(flows, n, colors, adjacency);
    forall i, e | 0 <= i < n && e in PlotFlows(flows, n, colors, adjacency).bands[i].edges
      ensures e in Keys(flows)
    {
      BandIsRange(flows, n, colors, adjacency, i);
    }
  }

  /** Every key of the flow hash lands in some band. */
  lemma BandsCoverKeys(flows: seq<FlowEntry>, n: int, colors: nat, adjacency: seq<seq<Edge>>)
    requires IsHash(flows)
    requires |flows| > 0 && n > 0
    ensures var b := PlotFlows(flows, n, colors, adjacency).bands;
      |b| == n && forall k :: 0 <= k < |flows| ==> exists i :: 0 <= i < n && flows[k].edge in b[i].edges
  {
    var b := PlotFlows(flows, n, colors, adjacency).bands;
    var sp := SplitsOf(flows, n);
    forall k | 0 <= k < |flows| ensures exists i :: 0 <= i < n && flows[k].edge in b[i].edges {
      FlowHasOneBand(flows, n, k);
      var i :| InBand(sp, i, flows[k].flow);
      EntryInBand(flows, n, colors, adjacency, k, i);
    }
  }

  /** No key of the flow hash lands in two bands. */
  lemma BandsHoldKeyOnce(flows: seq<FlowEntry>, n: int, colors: nat, adjacency: seq<seq<Edge>>)
    requires IsHash(flows)
    requires |flows| > 0 && n > 0
    ensures var b := PlotFlows(flows, n, colors, adjacency).bands;
      && |b| == n
      && forall k, i, j :: 0 <= k < |flows| && 0 <= i < n && 0 <= j < n
            && flows[k].edge in b[i].edges && flows[k].edge in b[j].edges
            ==> i == j
  {
    var b := PlotFlows(flows, n, colors, adjacency).bands;
    var sp := SplitsOf(flows, n);
    forall k, i, j | 0 <= k < |flows| && 0 <= i < n && 0 <= j < n
        && flows[k].edge in b[i].edges && flows[k].edge in b[j].edges
      ensures i == j
    {
      EntryInBand(flows, n, colors, adjacency, k, i);
      EntryInBand(flows, n, colors, adjacency, k, j);
      BandsDisjoint(sp, flows[k].flow, i, j);
    }
  }

  /** In a hash, a key is in band i exactly when its flow is in band i's range. */
  lemma EntryInBand(flows: seq<FlowEntry>, n: int, colors: nat, adjacency: seq<seq<Edge>>, k: nat, i: nat)
    requires IsHash(flows)
    requires |flows| > 0
    requires k < |flows| && i < Times(n)
    ensures flows[k].edge in PlotFlows(flows, n, colors, adjacency).bands[i].edges
        <==> InBand(SplitsOf(flows, n), i, flows[k].flow)
  {
    var sp := SplitsOf(flows, n);
    BandIsRange(flows, n, colors, adjacency, i);
    EntryInRange(flows, sp[i], sp[i + 1], k);
  }

  /** Bands run from low to high flow: every line of a lower band carries
      strictly less flow than every line of a higher band. */
  lemma BandsAscending(flows: seq<FlowEntry>, n: int, colors: nat, adjacency: seq<seq<Edge>>,
                       i: nat, j: nat, k: nat, l: nat)
    requires IsHash(flows)
    requires |flows| > 0
    requires i < j < Times(n)
    requires k < |flows| && l < |flows|
    requires var b := PlotFlows(flows, n, colors, adjacency).bands;
      flows[k].edge in b[i].edges && flows[l].edge in b[j].edges
    ensures flows[k].flow < flows[l].flow
  {
    var sp := SplitsOf(flows, n);
    EntryInBand(flows, n, colors, adjacency, k, i);
    EntryInBand(flows, n, colors, adjacency, l, j);
    assert sp[i + 1] <= sp[j];
  }

  /** A line is untread exactly when it is on some site's list and has no
      flow entry; each untread line is listed once, in grid order. */
  lemma UntreadIsDifference(flows: seq<FlowEntry>, n: int, colors: nat, adjacency: seq<seq<Edge>>)
    ensures var u := PlotFlows(flows, n, colors, adjacency).untread;
      && Distinct(u)
      && IsSubseq(u, GridEdges(adjacency))
      && (forall e :: e in u <==> OnSomeList(adjacency, e) && e !in Keys(flows))
  {
    var g := GridEdges(adjacency);
    UntreadOfGrid(g, Keys(flows));
  }

  /** Taking lines away from a list without repeats leaves a list without
      repeats that keeps the order. */
  lemma UntreadOfGrid(g: seq<Edge>, keys: seq<Edge>)
    requires Distinct(g)
    ensures var u := Difference(g, keys);
      Distinct(u) && IsSubseq(u, g) && forall e :: e in u <==> e in g && e !in keys
  {
    SubseqDistinct(Difference(g, keys), g);
  }
}
