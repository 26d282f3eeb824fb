/** Cutting an NDRange into consecutive pieces of whole work-groups (LibKernelExpr/src/NDRange.cpp, splitDim)
    from the shares the scheduler asks for (libsplit/src/Scheduler/Scheduler.cpp, adaptGranudscr). */
module Tilings {
  import opened Arithmetic
  import opened Bounds
  import opened NDRanges
  import opened WorkItems

  function Sum(c: seq<int>): int {
    if c == [] then 0 else Sum(c[..|c| - 1]) + c[|c| - 1]
  }

  // ---- Tiles ----

  // count work-groups of dimension d, after the first `start` ones.
  function Tile(r: NDRange, d: nat, start: nat, count: nat): NDRange
    requires Valid(r) && d < r.workDim
  {
    r.(global := r.global[d := count * r.local[d]], offset := r.offset[d := start * r.local[d] + r.offset[d]])
  }

  ghost predicate NonNegative(c: seq<int>) {
    forall i :: 0 <= i < |c| ==> c[i] >= 0
  }

  lemma {:induction false} SumMonotone(c: seq<int>, i: nat, j: nat)
    requires NonNegative(c) && i <= j <= |c|
    ensures 0 <= Sum(c[..i]) <= Sum(c[..j])
    decreases j
  {
    if i < j {
      SumMonotone(c, i, j - 1);
      SumStep(c, j - 1);
    } else if j > 0 {
      SumMonotone(c, j - 1, j - 1);
      SumStep(c, j - 1);
    }
  }

  lemma SumStep(c: seq<int>, i: nat)
    requires i < |c|
    ensures Sum(c[..i + 1]) == Sum(c[..i]) + c[i]
  {
    assert c[..i + 1][..i] == c[..i];
  }

  // The pieces are consecutive tiles with these work-group counts.
  ghost predicate Tiling(r: NDRange, d: nat, counts: seq<int>, subs: seq<NDRange>)
    requires Valid(r) && d < r.workDim
  {
    && |subs| == |counts| && NonNegative(counts)
    && forall i :: 0 <= i < |subs| ==> Sum(counts[..i]) >= 0 && subs[i] == Tile(r, d, Sum(counts[..i]), counts[i])
  }

  // Global id x of dimension d belongs to the piece.
  predicate InTile(s: NDRange, d: nat, x: int)
    requires d < |s.offset| && d < |s.global|
  {
    s.offset[d] <= x < s.offset[d] + s.global[d]
  }

  /** Pieces whose counts add up to the range's work-groups cover every global id exactly once. */
  lemma TilingCovers(r: NDRange, d: nat, counts: seq<int>, subs: seq<NDRange>, x: int)
    requires WholeGroups(r) && d < r.workDim && Tiling(r, d, counts, subs)
    requires Sum(counts) * r.local[d] == r.global[d]
    ensures InTile(r, d, x) <==> exists i :: 0 <= i < |subs| && InTile(subs[i], d, x)
    ensures forall i, j :: 0 <= i < |subs| && 0 <= j < |subs| && InTile(subs[i], d, x) && InTile(subs[j], d, x) ==> i == j
  {
    var l, o := r.local[d], r.offset[d];
    assert counts[..|counts|] == counts;
    if InTile(r, d, x) {
      var i := FindTile(counts, |counts|, l, x - o);
      TileEnds(r, d, counts, subs, i);
      assert InTile(subs[i], d, x);
    }
    forall i | 0 <= i < |subs| && InTile(subs[i], d, x) ensures InTile(r, d, x) {
      TileEnds(r, d, counts, subs, i);
      SumMonotone(counts, i + 1, |counts|);
      SumMonotone(counts, 0, i);
      MulMonotone(Sum(counts[..i + 1]), Sum(counts), l);
      MulMonotone(0, Sum(counts[..i]), l);
    }
    forall i, j | 0 <= i < j < |subs| && InTile(subs[i], d, x) ensures !InTile(subs[j], d, x) {
      TileEnds(r, d, counts, subs, i);
      TileEnds(r, d, counts, subs, j);
      SumMonotone(counts, i + 1, j);
      MulMonotone(Sum(counts[..i + 1]), Sum(counts[..j]), l);
    }
  }

  lemma TileEnds(r: NDRange, d: nat, counts: seq<int>, subs: seq<NDRange>, i: nat)
    requires WholeGroups(r) && d < r.workDim && Tiling(r, d, counts, subs) && i < |subs|
    ensures subs[i].offset[d] == r.offset[d] + Sum(counts[..i]) * r.local[d]
    ensures subs[i].offset[d] + subs[i].global[d] == r.offset[d] + Sum(counts[..i + 1]) * r.local[d]
  {
    SumStep(counts, i);
    TilePlace(r, d, Sum(counts[..i]), counts[i]);
  }

  lemma TilePlace(r: NDRange, d: nat, start: nat, count: nat)
    requires Valid(r) && d < r.workDim
    ensures var s := Tile(r, d, start, count);
      && s.offset[d] == r.offset[d] + start * r.local[d]
      && s.offset[d] + s.global[d] == r.offset[d] + (start + count) * r.local[d]
      && forall e :: 0 <= e < r.workDim && e != d ==> s.offset[e] == r.offset[e] && s.global[e] == r.global[e]
  {
    Times(start, count, r.local[d]);
  }

  lemma Times(x: nat, y: nat, l: nat)
    ensures (x + y) * l == x * l + y * l
  {
  }

  lemma {:induction false} FindTile(counts: seq<int>, n: nat, l: nat, y: int) returns (i: nat)
    requires NonNegative(counts) && n <= |counts| && 0 <= y < Sum(counts[..n]) * l
    ensures i < n && Sum(counts[..i]) * l <= y < Sum(counts[..i + 1]) * l
    decreases n
  {
    if n == 0 {
      assert false;
    } else if y >= Sum(counts[..n - 1]) * l {
      i := n - 1;
    } else {
      i := FindTile(counts, n - 1, l, y);
    }
  }

  /** Each piece with at least one work-group is a part of the range in the sense of the region analysis. */
  lemma TileIsPart(r: NDRange, d: nat, counts: seq<int>, subs: seq<NDRange>, i: nat)
    requires WholeGroups(r) && r.origGlobal == r.global && d < r.workDim && Tiling(r, d, counts, subs)
    requires i < |subs| && counts[i] > 0
    ensures PartOf(subs[i], r) && WholeGroups(subs[i]) && subs[i].origGlobal == r.origGlobal
  {
    var l, a, c := r.local[d], Sum(counts[..i]), counts[i];
    MulMonotone(1, c, l);
    ModIs(c * l, l, c, 0);
    Division(r.offset[d], l);
    assert a * l + r.offset[d] == l * (a + r.offset[d] / l) by {
      assert l * (a + r.offset[d] / l) == l * a + l * (r.offset[d] / l);
    }
    ModIs(a * l + r.offset[d], l, a + r.offset[d] / l, 0);
  }

  ghost predicate Runs(r: NDRange, s: NDRange, w: Item) {
    PartOf(s, r) && ItemOf(r, w) && InPart(r, s, w)
  }

  /** Every work-item of the kernel runs in exactly one piece. */
  lemma ItemInOnePiece(r: NDRange, d: nat, counts: seq<int>, subs: seq<NDRange>, w: Item)
    requires WholeGroups(r) && r.origGlobal == r.global && d < r.workDim && Tiling(r, d, counts, subs)
    requires Sum(counts) * r.local[d] == r.global[d] && forall i :: 0 <= i < |counts| ==> counts[i] > 0
    requires ItemOf(r, w)
    ensures exists i :: 0 <= i < |subs| && Runs(r, subs[i], w)
    ensures forall i, j :: 0 <= i < |subs| && 0 <= j < |subs| && Runs(r, subs[i], w) && Runs(r, subs[j], w) ==> i == j
  {
    var i := PieceOf(r, d, counts, subs, w);
    assert Runs(r, subs[i], w);
    forall i, j | 0 <= i < |subs| && 0 <= j < |subs| && Runs(r, subs[i], w) && Runs(r, subs[j], w) ensures i == j {
      RunsByTile(r, d, counts, subs, i, w);
      RunsByTile(r, d, counts, subs, j, w);
      SamePiece(r, d, counts, subs, GlobalIdOf(r, w, d), i, j);
    }
  }

  lemma SamePiece(r: NDRange, d: nat, counts: seq<int>, subs: seq<NDRange>, x: int, i: nat, j: nat)
    requires WholeGroups(r) && d < r.workDim && Tiling(r, d, counts, subs) && Sum(counts) * r.local[d] == r.global[d]
    requires i < |subs| && j < |subs| && InTile(subs[i], d, x) && InTile(subs[j], d, x)
    ensures i == j
  {
    TilingCovers(r, d, counts, subs, x);
  }

  lemma PieceOf(r: NDRange, d: nat, counts: seq<int>, subs: seq<NDRange>, w: Item) returns (i: nat)
    requires WholeGroups(r) && r.origGlobal == r.global && d < r.workDim && Tiling(r, d, counts, subs)
    requires Sum(counts) * r.local[d] == r.global[d] && forall i :: 0 <= i < |counts| ==> counts[i] > 0
    requires ItemOf(r, w)
    ensures i < |subs| && Runs(r, subs[i], w)
  {
    var g := GlobalIdOf(r, w, d);
    assert InTile(r, d, g);
    TilingCovers(r, d, counts, subs, g);
    i :| 0 <= i < |subs| && InTile(subs[i], d, g);
    TileIsPart(r, d, counts, subs, i);
    RunsByTile(r, d, counts, subs, i, w);
  }

  // The pieces only differ in dimension d.
  lemma RunsByTile(r: NDRange, d: nat, counts: seq<int>, subs: seq<NDRange>, i: nat, w: Item)
    requires WholeGroups(r) && d < r.workDim && Tiling(r, d, counts, subs) && i < |subs|
    requires PartOf(subs[i], r) && ItemOf(r, w)
    ensures Runs(r, subs[i], w) <==> InTile(subs[i], d, GlobalIdOf(r, w, d))
  {
    var s := subs[i];
    TilePlace(r, d, Sum(counts[..i]), counts[i]);
    assert forall e :: 0 <= e < r.workDim && e != d ==> s.offset[e] <= GlobalIdOf(r, w, e) < s.offset[e] + s.global[e];
  }

  // ---- Rounding shares to work-groups ----

  // round(): to the nearest integer, halves away from zero.
  function Round(x: real): int {
    if x >= 0.0 then (x + 0.5).Floor else -((0.5 - x).Floor)
  }

  // k is the integer nearest to x, the one further from zero of two.
  predicate Nearest(x: real, k: int) {
    if x >= 0.0 then k as real - 0.5 <= x < k as real + 0.5 else k as real - 0.5 < x <= k as real + 0.5
  }

  lemma RoundIsNearest(x: real)
    ensures Nearest(x, Round(x))
  {
  }

  // The positions the compaction keeps among the first i: positive counts, up to where they reach n work-groups.
  ghost function Kept(c: seq<int>, n: nat, i: nat): (k: seq<nat>)
    requires i <= |c|
    ensures |k| <= i && forall p :: 0 <= p < |k| ==> k[p] < i && c[k[p]] > 0
  {
    if i == 0 then []
    else
      var k := Kept(c, n, i - 1);
      if Sum(c[..i - 1]) < n && c[i - 1] > 0 then k + [i - 1] else k
  }

  // The counts at the first m of these positions.
  ghost function CountsAt(c: seq<int>, k: seq<nat>, m: nat): (r: seq<int>)
    requires m <= |k| && forall p :: 0 <= p < |k| ==> k[p] < |c|
    ensures |r| == m
  {
    seq(m, p requires 0 <= p < m => c[k[p]])
  }

  // The counts of the pieces: the rounded ones, and for the last piece what is left.
  ghost function PieceCounts(c: seq<int>, n: nat): (r: seq<int>)
    requires Kept(c, n, |c|) != []
    ensures |r| == |Kept(c, n, |c|)|
  {
    var k := Kept(c, n, |c|);
    var first := CountsAt(c, k, |k| - 1);
    first + [n - Sum(first)]
  }

  // While n work-groups are not reached, the kept positions count everything.
  lemma {:induction false} KeptSum(c: seq<int>, n: nat, i: nat)
    requires NonNegative(c) && i <= |c| && Sum(c[..i]) < n
    ensures Sum(CountsAt(c, Kept(c, n, i), |Kept(c, n, i)|)) == Sum(c[..i])
    decreases i
  {
    if i == 0 {
    } else {
      SumStep(c, i - 1);
      KeptSum(c, n, i - 1);
      if c[i - 1] > 0 {
        CountsAtSnoc(c, Kept(c, n, i - 1), i - 1);
      }
    }
  }

  // The kept positions before the last one count fewer than n.
  lemma {:induction false} KeptInitSum(c: seq<int>, n: nat, i: nat)
    requires NonNegative(c) && i <= |c| && Kept(c, n, i) != []
    ensures var k := Kept(c, n, i); Sum(CountsAt(c, k, |k| - 1)) < n
    decreases i
  {
    if Kept(c, n, i) == Kept(c, n, i - 1) {
      KeptInitSum(c, n, i - 1);
    } else {
      var k := Kept(c, n, i - 1);
      KeptSum(c, n, i - 1);
      CountsAtSnoc(c, k, i - 1);
      assert Kept(c, n, i) == k + [i - 1];
    }
  }

  lemma CountsAtSnoc(c: seq<int>, k: seq<nat>, i: nat)
    requires i < |c| && forall p :: 0 <= p < |k| ==> k[p] < |c|
    ensures CountsAt(c, k + [i], |k|) == CountsAt(c, k, |k|)
    ensures Sum(CountsAt(c, k + [i], |k| + 1)) == Sum(CountsAt(c, k, |k|)) + c[i]
  {
    assert CountsAt(c, k + [i], |k| + 1)[..|k|] == CountsAt(c, k, |k|);
  }

  /** The pieces are non-empty and add up to all work-groups. */
  lemma PiecesAddUp(c: seq<int>, n: nat)
    requires NonNegative(c) && Kept(c, n, |c|) != []
    ensures Sum(PieceCounts(c, n)) == n
    ensures forall i :: 0 <= i < |PieceCounts(c, n)| ==> PieceCounts(c, n)[i] > 0
  {
    var k := Kept(c, n, |c|);
    KeptInitSum(c, n, |c|);
    var first := CountsAt(c, k, |k| - 1);
    assert PieceCounts(c, n)[..|first|] == first;
  }

  // ---- The granularity descriptor ----

  // One requested piece: a device, a number of kernels, and the share of each of them.
  datatype Granu = Granu(device: nat, kernels: real, share: real)

  function Share(g: seq<Granu>, i: nat): real
    requires i < |g|
  {
    g[i].kernels * g[i].share
  }

  // The number of work-groups a request is rounded to.
  function CountOf(g: seq<Granu>, i: nat, n: nat): int
    requires i < |g|
  {
    Round(Share(g, i) * n as real)
  }

  // The rounded work-group counts of the first m requests.
  function Counts(g: seq<Granu>, m: nat, n: nat): (c: seq<int>)
    requires m <= |g|
    ensures |c| == m && forall i :: 0 <= i < m ==> c[i] == CountOf(g, i, n)
  {
    seq(m, i requires 0 <= i < m => CountOf(g, i, n))
  }

  ghost predicate NonNegativeShares(g: seq<Granu>, m: nat) {
    m <= |g| && forall i :: 0 <= i < m ==> Share(g, i) >= 0.0
  }

  function TotalShare(g: seq<Granu>, m: nat): real
    requires m <= |g|
  {
    if m == 0 then 0.0 else TotalShare(g, m - 1) + Share(g, m - 1)
  }

  lemma RoundNonNegative(x: real, n: real)
    requires x >= 0.0 && n >= 0.0
    ensures Round(x * n) >= 0
  {
    assert x * n >= 0.0;
  }

  lemma CountsNonNegative(g: seq<Granu>, m: nat, n: nat)
    requires NonNegativeShares(g, m)
    ensures NonNegative(Counts(g, m, n))
  {
    forall i | 0 <= i < m ensures Counts(g, m, n)[i] >= 0 {
      RoundNonNegative(Share(g, i), n as real);
    }
  }

  lemma {:induction false} KeptNothing(c: seq<int>, n: nat, i: nat)
    requires NonNegative(c) && i <= |c| && n > 0 && Kept(c, n, i) == []
    ensures forall j :: 0 <= j < i ==> c[j] == 0
    ensures Sum(c[..i]) == 0
    decreases i
  {
    if i == 0 {
    } else {
      KeptNothing(c, n, i - 1);
      SumStep(c, i - 1);
    }
  }

  /** With at least one work-group for each requested piece, the compaction keeps a piece. */
  lemma SomethingKept(g: seq<Granu>, m: nat, n: nat)
    requires m > 0 && n >= m && NonNegativeShares(g, m) && TotalShare(g, m) == 1.0
    ensures Kept(Counts(g, m, n), n, m) != []
  {
    CountsNonNegative(g, m, n);
    if Kept(Counts(g, m, n), n, m) == [] {
      KeptNothing(Counts(g, m, n), n, m);
      SmallShares(g, m, m, n);
      assert false;
    }
  }

  lemma {:induction false} SmallShares(g: seq<Granu>, m: nat, k: nat, n: nat)
    requires k <= m && NonNegativeShares(g, m)
    requires forall j :: 0 <= j < m ==> Counts(g, m, n)[j] == 0
    ensures TotalShare(g, k) * n as real <= k as real / 2.0
    decreases k
  {
    if k == 0 {
    } else {
      SmallShares(g, m, k - 1, n);
      RoundIsNearest(Share(g, k - 1) * n as real);
      assert Counts(g, m, n)[k - 1] == 0;
      AddTimes(TotalShare(g, k - 1), Share(g, k - 1), n as real);
      assert (k - 1) as real / 2.0 == k as real / 2.0 - 0.5;
    }
  }

  lemma AddTimes(a: real, b: real, n: real)
    ensures (a + b) * n == a * n + b * n
  {
  }

  lemma {:induction false} KeptStops(c: seq<int>, n: nat, i: nat, j: nat)
    requires NonNegative(c) && i <= j <= |c| && Sum(c[..i]) >= n
    ensures Kept(c, n, j) == Kept(c, n, i)
    decreases j
  {
    if i == j {
    } else {
      KeptStops(c, n, i, j - 1);
      SumMonotone(c, i, j - 1);
    }
  }

  lemma FractionAdds(a: int, b: int, n: int)
    requires n > 0
    ensures a as real / n as real + b as real / n as real == (a + b) as real / n as real
    ensures b as real / n as real > 0.0 <==> b > 0
    ensures a as real / n as real >= 1.0 <==> a >= n
  {
  }

  // Slot p of the descriptor holds the device and the count of position q.
  ghost predicate Slot(now: seq<Granu>, g: seq<Granu>, c: seq<int>, n: nat, p: nat, q: nat)
    requires n > 0 && p < |now| && q < |g| && q < |c|
  {
    now[p].device == g[q].device && now[p].share == c[q] as real / n as real
  }

  // One kernel for each of the first m slots.
  predicate OneKernelEach(now: seq<Granu>, m: nat)
    requires m <= |now|
  {
    forall q :: 0 <= q < m ==> now[q].kernels == 1.0
  }

  // Only one kernel for each device.
  method MergeKernels(granu: array<Granu>, m: nat)
    requires m <= granu.Length
    modifies granu
    ensures forall q :: 0 <= q < m ==> granu[q] == Granu(old(granu[q]).device, 1.0, Share(old(granu[..]), q))
  {
    for i := 0 to m
      invariant forall q :: i <= q < granu.Length ==> granu[q] == old(granu[q])
      invariant forall q :: 0 <= q < i ==> granu[q] == Granu(old(granu[q]).device, 1.0, Share(old(granu[..]), q))
    {
      granu[i] := granu[i].(share := granu[i].kernels * granu[i].share);
      granu[i] := granu[i].(kernels := 1.0);
    }
  }

  // Shares become whole numbers of work-groups over n, in place.
  method RoundShares(granu: array<Granu>, m: nat, n: nat, ghost g: seq<Granu>)
    requires m <= granu.Length && m <= |g| && n > 0
    requires forall q :: 0 <= q < m ==> granu[q] == Granu(g[q].device, 1.0, Share(g, q))
    modifies granu
    ensures forall q :: 0 <= q < m ==> Slot(granu[..], g, Counts(g, m, n), n, q, q)
    ensures OneKernelEach(granu[..], m)
  {
    for i := 0 to m
      invariant OneKernelEach(granu[..], m)
      invariant forall q :: i <= q < m ==> granu[q] == old(granu[q])
      invariant forall q :: 0 <= q < i ==> granu[q].device == g[q].device && granu[q].share == CountOf(g, q, n) as real / n as real
    {
      assert granu[i].share == Share(g, i);
      ghost var x := Share(g, i);
      assert CountOf(g, i, n) == Round(x * n as real);
      var share := granu[i].share * n as real;
      assert share == x * n as real;
      share := Round(share) as real;
      assert share == CountOf(g, i, n) as real;
      share := share / n as real;
      granu[i] := granu[i].(share := share);
    }
  }

  // ---- The shares after the compaction ----

  // What the slot of the last kept position holds: what was missing is added to it, or, once n work-groups are
  // reached, it is cut to the rest; the cut misses it when a position before it was dropped.
  ghost function LastShare(c: seq<int>, n: nat, i: nat): real
    requires i <= |c| && n > 0 && Kept(c, n, i) != []
  {
    var k := Kept(c, n, i);
    var last := k[|k| - 1];
    if Sum(c[..i]) < n then c[last] as real / n as real + (1.0 - Sum(c[..i]) as real / n as real)
    else if |k| == last + 1 then 1.0 - Sum(c[..last]) as real / n as real
    else c[last] as real / n as real
  }

  // Position i is the one at which the counts reach n.
  ghost predicate Reaches(c: seq<int>, n: nat, i: nat) {
    i < |c| && Sum(c[..i]) < n <= Sum(c[..i + 1])
  }

  // If n is reached, then exactly, or without an empty position on the way.
  ghost predicate CapHits(c: seq<int>, n: nat) {
    forall i: nat :: Reaches(c, n, i) ==> Sum(c[..i + 1]) == n || forall q :: 0 <= q < i ==> c[q] > 0
  }

  function ShareSum(g: seq<Granu>, m: nat): real
    requires m <= |g|
  {
    if m == 0 then 0.0 else ShareSum(g, m - 1) + g[m - 1].share
  }

  // The last kept position is the one that reaches n, and all positions before it that count were kept.
  lemma {:induction false} LastReaches(c: seq<int>, n: nat, i: nat)
    requires NonNegative(c) && 0 < n && i <= |c| && Sum(c[..i]) >= n
    ensures var k := Kept(c, n, i);
      k != [] && Reaches(c, n, k[|k| - 1]) && k == Kept(c, n, k[|k| - 1]) + [k[|k| - 1]]
    decreases i
  {
    if i == 0 {
      assert false;
    } else {
      SumStep(c, i - 1);
      if Sum(c[..i - 1]) >= n {
        LastReaches(c, n, i - 1);
      }
    }
  }

  lemma {:induction false} KeptDense(c: seq<int>, n: nat, i: nat)
    requires NonNegative(c) && i <= |c| && Sum(c[..i]) < n
    ensures |Kept(c, n, i)| == i <==> forall q :: 0 <= q < i ==> c[q] > 0
    decreases i
  {
    if i == 0 {
    } else {
      SumStep(c, i - 1);
      KeptDense(c, n, i - 1);
      assert |Kept(c, n, i)| == i ==> c[i - 1] > 0;
    }
  }

  lemma ReachesOnce(c: seq<int>, n: nat, i: nat, j: nat)
    requires NonNegative(c) && Reaches(c, n, i) && Reaches(c, n, j)
    ensures i == j
  {
    if i < j {
      SumMonotone(c, i + 1, j);
    } else if j < i {
      SumMonotone(c, j + 1, i);
    }
  }

  // The slots before the last one hold the counts of their positions.
  lemma {:induction false} FrontSum(now: seq<Granu>, c: seq<int>, k: seq<nat>, n: nat, m: nat)
    requires n > 0 && m <= |k| <= |now| && forall p :: 0 <= p < |k| ==> k[p] < |c|
    requires forall p :: 0 <= p < m ==> now[p].share == c[k[p]] as real / n as real
    ensures ShareSum(now, m) == Sum(CountsAt(c, k, m)) as real / n as real
    decreases m
  {
    if m == 0 {
      assert CountsAt(c, k, 0) == [];
    } else {
      FrontSum(now, c, k, n, m - 1);
      assert CountsAt(c, k, m)[..m - 1] == CountsAt(c, k, m - 1);
      FractionAdds(Sum(CountsAt(c, k, m - 1)), c[k[m - 1]], n);
    }
  }

  /** The shares adaptGranudscr leaves add up to one exactly when CapHits says so. */
  lemma SharesAddUp(now: seq<Granu>, g: seq<Granu>, c: seq<int>, n: nat, idx: nat)
    requires NonNegative(c) && n > 0 && |c| <= |now| && |c| <= |g| && Kept(c, n, |c|) != []
    requires InFront(now, g, c, n, idx) && now[idx - 1].share == LastShare(c, n, |c|)
    ensures ShareSum(now, idx) == 1.0 <==> CapHits(c, n)
  {
    assert c[..|c|] == c;
    var k := Kept(c, n, |c|);
    var last := k[idx - 1];
    FrontSum(now, c, k, n, idx - 1);
    if Sum(c) < n {
      MissingAdded(c, n);
      forall i: nat | Reaches(c, n, i) ensures false {
        SumMonotone(c, i + 1, |c|);
      }
    } else {
      WholeReached(c, n);
    }
  }

  lemma WholeReached(c: seq<int>, n: nat)
    requires NonNegative(c) && n > 0 && Sum(c) >= n && Kept(c, n, |c|) != []
    ensures var k := Kept(c, n, |c|);
      Sum(CountsAt(c, k, |k| - 1)) as real / n as real + LastShare(c, n, |c|) == 1.0 <==> CapHits(c, n)
  {
    assert c[..|c|] == c;
    LastReaches(c, n, |c|);
    var k := Kept(c, n, |c|);
    var last := k[|k| - 1];
    var init := Kept(c, n, last);
    KeptSum(c, n, last);
    assert CountsAt(c, k, |k| - 1) == CountsAt(c, init, |init|);
    SumStep(c, last);
    CapHitsAt(c, n, last);
    LastFraction(Sum(c[..last]), c[last], n, |init| == last);
  }

  // The last share and what is before it: cut to the rest, or whole.
  lemma LastFraction(before: int, count: int, n: nat, cut: bool)
    requires n > 0
    ensures before as real / n as real + (if cut then 1.0 - before as real / n as real else count as real / n as real) == 1.0
      <==> before + count == n || cut
  {
    FractionAdds(before, count, n);
    WholeShare(before + count, n);
  }

  lemma CapHitsAt(c: seq<int>, n: nat, last: nat)
    requires NonNegative(c) && Reaches(c, n, last)
    ensures CapHits(c, n) <==> Sum(c[..last + 1]) == n || |Kept(c, n, last)| == last
  {
    KeptDense(c, n, last);
    forall i: nat | Reaches(c, n, i) ensures i == last {
      ReachesOnce(c, n, i, last);
    }
  }

  lemma WholeShare(a: int, n: nat)
    requires n > 0
    ensures a as real / n as real == 1.0 <==> a == n
  {
    assert (a as real / n as real) * n as real == a as real;
  }

  // What is missing to the whole completes the last share.
  lemma MissingAdded(c: seq<int>, n: nat)
    requires NonNegative(c) && n > 0 && Sum(c) < n && Kept(c, n, |c|) != []
    ensures var k := Kept(c, n, |c|);
      Sum(CountsAt(c, k, |k| - 1)) as real / n as real + LastShare(c, n, |c|) == 1.0
  {
    assert c[..|c|] == c;
    var k := Kept(c, n, |c|);
    var last := k[|k| - 1];
    KeptSum(c, n, |c|);
    assert CountsAt(c, k, |k|)[..|k| - 1] == CountsAt(c, k, |k| - 1);
    FractionAdds(Sum(CountsAt(c, k, |k| - 1)), c[last], n);
  }

  // Four requests that add up to the whole.
  const REQUEST: seq<Granu> :=
    [Granu(0, 1.0, 0.04), Granu(1, 1.0, 0.25), Granu(2, 1.0, 0.25), Granu(3, 1.0, 0.46)]

  lemma RequestCounts()
    ensures TotalShare(REQUEST, 4) == 1.0 && Counts(REQUEST, 4, 10) == [0, 3, 3, 5]
  {
    assert TotalShare(REQUEST, 1) == 0.04 && TotalShare(REQUEST, 2) == 0.29 && TotalShare(REQUEST, 3) == 0.54;
  }

  lemma KeptOfCounts(c: seq<int>)
    requires c == [0, 3, 3, 5]
    ensures Kept(c, 10, 4) == [1, 2, 3] && Sum(c[..3]) == 6 && Sum(c[..4]) == 11
  {
    assert c[..0] == [];
    SumStep(c, 0);
    SumStep(c, 1);
    SumStep(c, 2);
    SumStep(c, 3);
    assert Kept(c, 10, 1) == [] && Kept(c, 10, 2) == [1] && Kept(c, 10, 3) == [1, 2];
  }

  /** On ten work-groups these are rounded to 0, 3, 3 and 5 groups; the shares left, 0.3, 0.3 and 0.5, exceed one. */
  lemma SharesExceedOne(now: seq<Granu>, idx: nat)
    requires var c := Counts(REQUEST, 4, 10);
      && |now| == 4 && InFront(now, REQUEST, c, 10, idx) && Kept(c, 10, 4) != []
      && now[idx - 1].share == LastShare(c, 10, 4)
    ensures TotalShare(REQUEST, 4) == 1.0 && idx == 3
    ensures now[0].share == 0.3 && now[1].share == 0.3 && now[2].share == 0.5 && ShareSum(now, 3) == 1.1
  {
    RequestCounts();
    var c := Counts(REQUEST, 4, 10);
    KeptOfCounts(c);
    SharesLeft(now, c);
  }

  lemma SharesLeft(now: seq<Granu>, c: seq<int>)
    requires c == [0, 3, 3, 5] && Kept(c, 10, 4) == [1, 2, 3] && Sum(c[..4]) == 11 && |now| == 4
    requires now[0].share == c[1] as real / 10.0 && now[1].share == c[2] as real / 10.0
    requires now[2].share == LastShare(c, 10, 4)
    ensures now[0].share == 0.3 && now[1].share == 0.3 && now[2].share == 0.5 && ShareSum(now, 3) == 1.1
  {
    assert LastShare(c, 10, 4) == 5.0 / 10.0;
    assert ShareSum(now, 0) == 0.0;
    assert ShareSum(now, 1) == 0.3;
    assert ShareSum(now, 2) == 0.6;
  }

  // The compaction has reached position i.
  ghost predicate Compacted(now: seq<Granu>, g: seq<Granu>, c: seq<int>, n: nat, m: nat, i: nat, idx: nat, total: real)
    requires m <= |now| && m <= |g| && |c| == m && n > 0
  {
    && i <= m && idx == |Kept(c, n, i)| <= i
    && (if Sum(c[..i]) < n then total == Sum(c[..i]) as real / n as real && total < 1.0 else total == 1.0)
    && (forall p :: 0 <= p < idx ==> now[p].device == g[Kept(c, n, i)[p]].device)
    && (forall p :: 0 <= p < idx && (total < 1.0 || p < idx - 1) ==> Slot(now, g, c, n, p, Kept(c, n, i)[p]))
    && (forall q :: i <= q < m ==> Slot(now, g, c, n, q, q))
    && (total == 1.0 ==> idx > 0 && now[idx - 1].share == LastShare(c, n, i))
  }

  // Slot i has moved to slot idx, and is cut at slot i when the whole is reached.
  ghost predicate Moved(before: seq<Granu>, after: seq<Granu>, g: seq<Granu>, c: seq<int>, n: nat, i: nat, idx: nat,
                        total: real, idx': nat, total': real)
    requires |after| == |before| && idx <= i < |before| && i < |g| && i < |c| && n > 0
  {
    && idx' == (if c[i] > 0 then idx + 1 else idx)
    && total' == (var t := total + c[i] as real / n as real; if t >= 1.0 then 1.0 else t)
    && after[idx].device == g[i].device && (total' < 1.0 ==> Slot(after, g, c, n, idx, i))
    && (total' == 1.0 ==> after[idx].share == if idx == i then 1.0 - total else c[i] as real / n as real)
    && forall p :: 0 <= p < |before| && p != idx && p != i ==> after[p] == before[p]
  }

  // The running total, which is cut at the whole.
  lemma TotalMoves(c: seq<int>, n: nat, i: nat, total: real, total': real)
    requires n > 0 && i < |c| && c[i] >= 0 && Sum(c[..i]) < n && total == Sum(c[..i]) as real / n as real
    requires total' == var t := total + c[i] as real / n as real; if t >= 1.0 then 1.0 else t
    ensures if Sum(c[..i + 1]) < n then total' == Sum(c[..i + 1]) as real / n as real && total' < 1.0 else total' == 1.0
  {
    SumStep(c, i);
    FractionAdds(Sum(c[..i]), c[i], n);
    FractionAdds(Sum(c[..i + 1]), 0, n);
  }

  lemma CompactStep(before: seq<Granu>, after: seq<Granu>, g: seq<Granu>, c: seq<int>, n: nat, m: nat, i: nat,
                    idx: nat, total: real, idx': nat, total': real)
    requires |after| == |before| >= m && m <= |g| && |c| == m && n > 0 && NonNegative(c)
    requires Compacted(before, g, c, n, m, i, idx, total) && i < m && total < 1.0
    requires idx <= i && Moved(before, after, g, c, n, i, idx, total, idx', total')
    ensures Compacted(after, g, c, n, m, i + 1, idx', total')
  {
    SumStep(c, i);
    TotalMoves(c, n, i, total, total');
    var k, k' := Kept(c, n, i), Kept(c, n, i + 1);
    assert k' == if c[i] > 0 then k + [i] else k;
    forall p | 0 <= p < idx ensures after[p] == before[p] && k'[p] == k[p] {
    }
    forall p | 0 <= p < idx' && (total' < 1.0 || p < idx' - 1) ensures Slot(after, g, c, n, p, k'[p]) {
      if p < idx {
        assert Slot(before, g, c, n, p, k[p]);
      }
    }
    forall q | i + 1 <= q < m ensures Slot(after, g, c, n, q, q) {
      assert Slot(before, g, c, n, q, q);
    }
  }

  // The kept positions are at the front, each but the last with its count over n.
  ghost predicate InFront(now: seq<Granu>, g: seq<Granu>, c: seq<int>, n: nat, idx: nat)
    requires |c| <= |now| && |c| <= |g| && n > 0
  {
    var k := Kept(c, n, |c|);
    && idx == |k|
    && (forall p :: 0 <= p < |k| ==> now[p].device == g[k[p]].device)
    && (forall p :: 0 <= p < |k| - 1 ==> now[p].share == c[k[p]] as real / n as real)
  }

  // The slot of the last kept position, before what is missing is added to it.
  ghost predicate LastSlot(now: seq<Granu>, c: seq<int>, n: nat, idx: nat, total: real)
    requires |c| <= |now| && n > 0
  {
    var k := Kept(c, n, |c|);
    && idx == |k|
    && (total < 1.0 && idx > 0 ==>
         Sum(c) < n && total == Sum(c) as real / n as real && now[idx - 1].share == c[k[idx - 1]] as real / n as real)
    && (total >= 1.0 ==> idx > 0 && now[idx - 1].share == LastShare(c, n, |c|))
  }

  lemma CompactEnds(now: seq<Granu>, g: seq<Granu>, c: seq<int>, n: nat, m: nat, i: nat, idx: nat, total: real)
    requires m <= |now| && m <= |g| && |c| == m && n > 0 && NonNegative(c)
    requires Compacted(now, g, c, n, m, i, idx, total) && (i == m || total >= 1.0)
    ensures InFront(now, g, c, n, idx) && LastSlot(now, c, n, idx, total)
  {
    assert c[..m] == c;
    if i < m {
      KeptStops(c, n, i, m);
      SumMonotone(c, i, m);
    }
    forall p | 0 <= p < idx && (total < 1.0 || p < idx - 1)
      ensures now[p].share == c[Kept(c, n, i)[p]] as real / n as real
    {
      assert Slot(now, g, c, n, p, Kept(c, n, i)[p]);
    }
  }

  // Moves the positive shares to the front until they reach the whole, in place.
  method Compact(granu: array<Granu>, m: nat, ghost g: seq<Granu>, ghost c: seq<int>, n: nat) returns (idx: nat)
    requires m <= granu.Length && m <= |g| && |c| == m && n > 0 && NonNegative(c)
    requires forall q :: 0 <= q < m ==> Slot(granu[..], g, c, n, q, q)
    requires Kept(c, n, m) != [] && OneKernelEach(granu[..], m)
    modifies granu
    ensures InFront(granu[..], g, c, n, idx) && OneKernelEach(granu[..], m)
    ensures granu[idx - 1].share == LastShare(c, n, m)
  {
    var totalGranu;
    idx, totalGranu := MoveToFront(granu, m, g, c, n);
    assert c[..m] == c;
    if totalGranu < 1.0 {
      granu[idx - 1] := granu[idx - 1].(share := granu[idx - 1].share + (1.0 - totalGranu));
    }
  }

  method MoveToFront(granu: array<Granu>, m: nat, ghost g: seq<Granu>, ghost c: seq<int>, n: nat)
    returns (idx: nat, totalGranu: real)
    requires m <= granu.Length && m <= |g| && |c| == m && n > 0 && NonNegative(c)
    requires (forall q :: 0 <= q < m ==> Slot(granu[..], g, c, n, q, q)) && OneKernelEach(granu[..], m)
    modifies granu
    ensures InFront(granu[..], g, c, n, idx) && LastSlot(granu[..], c, n, idx, totalGranu)
    ensures OneKernelEach(granu[..], m)
  {
    idx, totalGranu := 0, 0.0;
    var i := 0;
    while i < m && totalGranu < 1.0
      invariant i <= m && Compacted(granu[..], g, c, n, m, i, idx, totalGranu) && OneKernelEach(granu[..], m)
    {
      ghost var before := granu[..];
      ghost var idx0, total0 := idx, totalGranu;
      idx, totalGranu := CompactOne(granu, m, g, c, n, i, idx, totalGranu);
      CompactStep(before, granu[..], g, c, n, m, i, idx0, total0, idx, totalGranu);
      i := i + 1;
    }
    CompactEnds(granu[..], g, c, n, m, i, idx, totalGranu);
  }

  // One turn of the compaction: slot i moves to slot idx, and is capped when the whole is reached.
  method CompactOne(granu: array<Granu>, m: nat, ghost g: seq<Granu>, ghost c: seq<int>, n: nat, i: nat, idx: nat,
                    total: real)
    returns (idx': nat, total': real)
    requires idx <= i < m <= granu.Length && m <= |g| && |c| == m && n > 0 && NonNegative(c)
    requires Slot(granu[..], g, c, n, i, i) && OneKernelEach(granu[..], m)
    modifies granu
    ensures OneKernelEach(granu[..], m)
    ensures Moved(old(granu[..]), granu[..], g, c, n, i, idx, total, idx', total')
  {
    granu[idx] := granu[idx].(device := granu[i].device);
    granu[idx] := granu[idx].(share := granu[i].share);
    total' := total + granu[i].share;
    FractionAdds(0, c[i], n);
    idx' := idx;
    if granu[i].share > 0.0 {
      idx' := idx + 1;
    }
    if total' >= 1.0 {
      granu[i] := granu[i].(share := 1.0 - (total' - granu[i].share));
      total' := 1.0;
    }
  }

  /** adaptGranudscr, on a range of n work-groups. */
  method AdaptGranudscr(granu: array<Granu>, m: nat, n: nat) returns (idx: nat)
    requires m <= granu.Length && n > 0 && NonNegativeShares(granu[..], m)
    requires Kept(Counts(granu[..], m, n), n, m) != []
    modifies granu
    ensures var g := old(granu[..]);
      var c := Counts(g, m, n);
      var k := Kept(c, n, m);
      && idx == |k| <= m
      && (forall p :: 0 <= p < |k| ==> granu[p].device == g[k[p]].device && granu[p].kernels == 1.0)
      && (forall p :: 0 <= p < |k| - 1 ==> granu[p].share == c[k[p]] as real / n as real)
      && granu[|k| - 1].share == LastShare(c, n, m)
      && (ShareSum(granu[..], idx) == 1.0 <==> CapHits(c, n))
  {
    ghost var g := granu[..];
    CountsNonNegative(g, m, n);
    MergeKernels(granu, m);
    RoundShares(granu, m, n, g);
    idx := Compact(granu, m, g, Counts(g, m, n), n);
    SharesAddUp(granu[..], g, Counts(g, m, n), n, idx);
  }

  // ---- splitDim ----

  // n groups times a share, truncated to an int.
  function SharedGroups(n: nat, share: real): int {
    Trunc(n as real * share)
  }

  lemma GroupsOfCount(n: nat, c: int)
    requires n > 0
    ensures SharedGroups(n, c as real / n as real) == c
  {
    assert n as real * (c as real / n as real) == c as real;
  }

  // The work-group counts splitDim gives the pieces, the last one taking what is left.
  ghost function SplitCounts(g: seq<Granu>, m: nat, n: nat): (c: seq<int>)
    requires 0 < m <= |g|
    ensures |c| == m
  {
    var first := FirstCounts(g, m - 1, n);
    first + [n - Sum(first)]
  }

  ghost function FirstCounts(g: seq<Granu>, m: nat, n: nat): (c: seq<int>)
    requires m <= |g|
    ensures |c| == m
  {
    seq(m, i requires 0 <= i < m => SharedGroups(n, g[i].share))
  }

  lemma TilingSnoc(r: NDRange, d: nat, counts: seq<int>, subs: seq<NDRange>, x: int)
    requires Valid(r) && d < r.workDim && Tiling(r, d, counts, subs) && x >= 0
    ensures Sum(counts) >= 0 && Sum(counts + [x]) == Sum(counts) + x
    ensures Tiling(r, d, counts + [x], subs + [Tile(r, d, Sum(counts), x)])
  {
    SumMonotone(counts, |counts|, |counts|);
    assert counts[..|counts|] == counts;
    var c := counts + [x];
    assert c[..|counts|] == counts;
    forall i | 0 <= i < |counts| ensures c[..i] == counts[..i] {
    }
  }

  lemma FirstCountsNext(g: seq<Granu>, i: nat, n: nat)
    requires i < |g|
    ensures FirstCounts(g, i + 1, n) == FirstCounts(g, i, n) + [SharedGroups(n, g[i].share)]
  {
  }

  method AppendPiece(r: NDRange, d: nat, subs: seq<NDRange>, start: nat, count: nat, ghost counts: seq<int>)
    returns (all: seq<NDRange>)
    requires Valid(r) && d < r.workDim && Tiling(r, d, counts, subs) && start == Sum(counts)
    ensures Tiling(r, d, counts + [count], all) && Sum(counts + [count]) == start + count
  {
    TilingSnoc(r, d, counts, subs, count);
    all := subs + [r.(global := r.global[d := count * r.local[d]],
                      offset := r.offset[d := start * r.local[d] + r.offset[d]])];
  }

  /** splitDim with granularities; it gives up when the shares leave a negative number of work-groups. */
  method SplitDim(r: NDRange, d: nat, granu: array<Granu>, m: nat) returns (ok: bool, subs: seq<NDRange>)
    requires WholeGroups(r) && d < r.workDim && 0 < m <= granu.Length
    requires forall i :: 0 <= i < m - 1 ==> granu[i].share >= 0.0
    ensures var c := SplitCounts(granu[..], m, r.global[d] / r.local[d]);
      && (ok <==> c[m - 1] >= 0)
      && (ok ==> Tiling(r, d, c, subs))
  {
    var nbWorkgroups := r.global[d] / r.local[d];
    var totalWg := 0;
    subs := [];
    for i := 0 to m - 1
      invariant totalWg >= 0 && totalWg == Sum(FirstCounts(granu[..], i, nbWorkgroups))
      invariant Tiling(r, d, FirstCounts(granu[..], i, nbWorkgroups), subs)
    {
      ShareNonNegative(nbWorkgroups, granu[i].share);
      FirstCountsNext(granu[..], i, nbWorkgroups);
      var nbWg := SharedGroups(nbWorkgroups, granu[i].share);
      subs := AppendPiece(r, d, subs, totalWg, nbWg, FirstCounts(granu[..], i, nbWorkgroups));
      totalWg := totalWg + nbWg;
    }
    assert SplitCounts(granu[..], m, nbWorkgroups) == FirstCounts(granu[..], m - 1, nbWorkgroups) + [nbWorkgroups - totalWg];
    var remainingWgs := nbWorkgroups - totalWg;
    if remainingWgs < 0 {
      return false, [];
    }
    ok := true;
    subs := AppendPiece(r, d, subs, totalWg, remainingWgs, FirstCounts(granu[..], m - 1, nbWorkgroups));
  }

  lemma ShareNonNegative(n: nat, share: real)
    requires share >= 0.0
    ensures SharedGroups(n, share) >= 0
  {
    assert n as real * share >= 0.0;
  }

  // The outcome of a partition of n work-groups from requested counts c.
  ghost predicate Partitioned(r: NDRange, d: nat, c: seq<int>, n: nat, subs: seq<NDRange>)
    requires Valid(r) && d < r.workDim
  {
    && Kept(c, n, |c|) != [] && Tiling(r, d, PieceCounts(c, n), subs)
    && Sum(PieceCounts(c, n)) == n
    && forall p :: 0 <= p < |subs| ==> PieceCounts(c, n)[p] > 0
  }

  // With fewer work-groups than requested pieces, only the first n pieces remain, each with one n-th as its share.
  function Limited(g: seq<Granu>, m: nat, n: nat): (r: seq<Granu>)
    requires n > 0
    ensures |r| == |g|
  {
    seq(|g|, i requires 0 <= i < |g| => if n < m && i < n then g[i].(share := 1.0 / n as real) else g[i])
  }

  function LimitedSize(m: nat, n: nat): nat {
    if n < m then n else m
  }

  method LimitRequest(granu: array<Granu>, m: nat, n: nat) returns (size: nat)
    requires m <= granu.Length && n > 0
    modifies granu
    ensures size == LimitedSize(m, n) && granu[..] == Limited(old(granu[..]), m, n)
  {
    size := m;
    if n < m {
      size := n;
      for w := 0 to n
        invariant forall q :: 0 <= q < granu.Length ==>
          granu[q] == if q < w then old(granu[..])[q].(share := 1.0 / n as real) else old(granu[..])[q]
      {
        granu[w] := granu[w].(share := 1.0 / n as real);
      }
    }
  }

  // What a request has to be: shares that add up to one, of at least one kernel each.
  ghost predicate RequestOk(g: seq<Granu>, m: nat) {
    0 < m <= |g| && NonNegativeShares(g, m) && TotalShare(g, m) == 1.0 && forall i :: 0 <= i < m ==> g[i].kernels >= 1.0
  }

  lemma OneShare(kernels: real, n: nat)
    requires n > 0
    ensures kernels * (1.0 / n as real) * n as real == kernels
  {
    assert (1.0 / n as real) * n as real == 1.0;
    Regroup(kernels, 1.0 / n as real, n as real);
  }

  lemma Regroup(a: real, b: real, c: real)
    ensures a * b * c == a * (b * c)
  {
  }

  lemma ShareOfOne(kernels: real, n: nat)
    requires n > 0 && kernels >= 1.0
    ensures kernels * (1.0 / n as real) >= 0.0
  {
    assert 1.0 / n as real > 0.0;
  }

  // With too few work-groups every remaining piece is rounded to at least one, to exactly one for one kernel.
  lemma LimitedCounts(g: seq<Granu>, m: nat, n: nat, i: nat)
    requires 0 < n < m <= |g| && i < n && g[i].kernels >= 1.0
    ensures Share(Limited(g, m, n), i) >= 0.0
    ensures CountOf(Limited(g, m, n), i, n) >= 1
    ensures g[i].kernels == 1.0 ==> CountOf(Limited(g, m, n), i, n) == 1
  {
    OneShare(g[i].kernels, n);
    ShareOfOne(g[i].kernels, n);
    assert Share(Limited(g, m, n), i) == g[i].kernels * (1.0 / n as real);
  }

  /** Whatever the request, its limited form has non-negative shares, of which the compaction keeps one. */
  lemma LimitedKept(g: seq<Granu>, m: nat, n: nat)
    requires n > 0 && RequestOk(g, m)
    ensures var l, k := Limited(g, m, n), LimitedSize(m, n);
      NonNegativeShares(l, k) && Kept(Counts(l, k, n), n, k) != []
  {
    var l := Limited(g, m, n);
    if n < m {
      forall i | 0 <= i < n ensures Share(l, i) >= 0.0 && Counts(l, n, n)[i] >= 1 {
        LimitedCounts(g, m, n, i);
      }
      var c := Counts(l, n, n);
      assert c[0] >= 1;
      if Kept(c, n, n) == [] {
        KeptNothing(c, n, n);
        assert false;
      }
    } else {
      assert l == g;
      SomethingKept(g, m, n);
    }
  }

  /** Limiting, rounding, compacting and splitting tile the range: non-empty consecutive pieces that add up to all its
      work-groups, each kept piece but the last with the count its request was rounded to; splitDim never gives up. */
  method Partition(r: NDRange, d: nat, granu: array<Granu>, m: nat, n: nat) returns (pieces: nat, subs: seq<NDRange>)
    requires WholeGroups(r) && d < r.workDim && n == r.global[d] / r.local[d] && n > 0
    requires m <= granu.Length && RequestOk(granu[..], m)
    modifies granu
    ensures var g, size := Limited(old(granu[..]), m, n), LimitedSize(m, n);
      var k := Kept(Counts(g, size, n), n, size);
      && Partitioned(r, d, Counts(g, size, n), n, subs) && pieces == |subs| == |k| <= granu.Length
      && forall p :: 0 <= p < pieces ==> granu[p].device == g[k[p]].device
  {
    LimitedKept(granu[..], m, n);
    var size := LimitRequest(granu, m, n);
    CountsNonNegative(granu[..], size, n);
    ghost var c := Counts(granu[..], size, n);
    pieces := AdaptGranudscr(granu, size, n);
    subs := SplitKept(r, d, granu, pieces, c, n);
  }

  method SplitKept(r: NDRange, d: nat, granu: array<Granu>, m: nat, ghost c: seq<int>, n: nat) returns (subs: seq<NDRange>)
    requires WholeGroups(r) && d < r.workDim && n == r.global[d] / r.local[d] && n > 0
    requires NonNegative(c) && Kept(c, n, |c|) != [] && m == |Kept(c, n, |c|)| <= granu.Length
    requires forall p :: 0 <= p < m - 1 ==> granu[p].share == c[Kept(c, n, |c|)[p]] as real / n as real
    ensures Partitioned(r, d, c, n, subs)
  {
    SplitAsKept(granu[..], m, c, n);
    var ok;
    ok, subs := SplitDim(r, d, granu, m);
  }

  // After the compaction, splitDim gives the pieces their counts, and the last one is not empty.
  lemma SplitAsKept(now: seq<Granu>, m: nat, c: seq<int>, n: nat)
    requires n > 0 && NonNegative(c) && Kept(c, n, |c|) != [] && m == |Kept(c, n, |c|)| <= |now|
    requires forall p :: 0 <= p < m - 1 ==> now[p].share == c[Kept(c, n, |c|)[p]] as real / n as real
    ensures forall p :: 0 <= p < m - 1 ==> now[p].share >= 0.0
    ensures SplitCounts(now, m, n) == PieceCounts(c, n) && Sum(PieceCounts(c, n)) == n
    ensures forall i :: 0 <= i < m ==> PieceCounts(c, n)[i] > 0
  {
    SameCounts(now, m, c, n);
    SharesOfCounts(now, m, c, n);
    PiecesAddUp(c, n);
  }

  lemma SharesOfCounts(now: seq<Granu>, m: nat, c: seq<int>, n: nat)
    requires n > 0 && NonNegative(c) && Kept(c, n, |c|) != [] && m == |Kept(c, n, |c|)| <= |now|
    requires forall p :: 0 <= p < m - 1 ==> now[p].share == c[Kept(c, n, |c|)[p]] as real / n as real
    ensures forall p :: 0 <= p < m - 1 ==> now[p].share >= 0.0
  {
    forall p | 0 <= p < m - 1 ensures now[p].share >= 0.0 {
      FractionAdds(0, c[Kept(c, n, |c|)[p]], n);
    }
  }

  lemma SameCounts(now: seq<Granu>, m: nat, c: seq<int>, n: nat)
    requires n > 0 && Kept(c, n, |c|) != [] && m == |Kept(c, n, |c|)| <= |now|
    requires forall p :: 0 <= p < m - 1 ==> now[p].share == c[Kept(c, n, |c|)[p]] as real / n as real
    ensures SplitCounts(now, m, n) == PieceCounts(c, n)
  {
    var k := Kept(c, n, |c|);
    forall p | 0 <= p < m - 1 ensures SharedGroups(n, now[p].share) == c[k[p]] {
      GroupsOfCount(n, c[k[p]]);
    }
    assert FirstCounts(now, m - 1, n)
        == CountsAt(c, k, |k| - 1);
  }

  // A request is rounded to the nearest number of work-groups, half a work-group upwards.
  lemma CountIsNear(g: seq<Granu>, i: nat, n: nat)
    requires i < |g|
    ensures Nearest(g[i].kernels * g[i].share * n as real, CountOf(g, i, n))
  {
    RoundIsNearest(Share(g, i) * n as real);
  }

  // A share is cut to the work-groups that fit into it.
  lemma SharedGroupsFit(n: nat, share: real)
    requires share >= 0.0
    ensures SharedGroups(n, share) >= 0 && SharedGroups(n, share) as real <= n as real * share < SharedGroups(n, share) as real + 1.0
  {
    assert n as real * share >= 0.0;
  }

  // ---- splitDim with fractions ----

  // n groups times nominator over denominator, truncated.
  function FractionGroups(n: nat, nominator: nat, denominator: nat): nat
    requires denominator > 0
  {
    QuotientSign(n * nominator, denominator);
    n * nominator / denominator
  }

  // A fraction is cut to the work-groups that fit into it.
  lemma FractionGroupsFit(n: nat, nominator: nat, denominator: nat)
    requires denominator > 0
    ensures var q := FractionGroups(n, nominator, denominator);
      q * denominator <= n * nominator < q * denominator + denominator
  {
    Division(n * nominator, denominator);
  }

  ghost function FractionCounts(nominators: seq<nat>, m: nat, denominator: nat, n: nat): (c: seq<int>)
    requires m <= |nominators| && denominator > 0
    ensures |c| == m
  {
    seq(m, i requires 0 <= i < m => FractionGroups(n, nominators[i], denominator))
  }

  lemma FractionCountsNext(nominators: seq<nat>, i: nat, denominator: nat, n: nat)
    requires i < |nominators| && denominator > 0
    ensures FractionCounts(nominators, i + 1, denominator, n)
         == FractionCounts(nominators, i, denominator, n) + [FractionGroups(n, nominators[i], denominator)]
  {
  }

  /** Fractions that do not exceed the whole leave a non-negative rest. */
  lemma {:induction false} FractionsFit(nominators: seq<nat>, m: nat, denominator: nat, n: nat)
    requires m <= |nominators| && denominator > 0
    ensures Sum(FractionCounts(nominators, m, denominator, n)) * denominator <= n * Sum(nominators[..m])
    decreases m
  {
    if m == 0 {
    } else {
      FractionsFit(nominators, m - 1, denominator, n);
      FractionCountsNext(nominators, m - 1, denominator, n);
      var c, q := FractionCounts(nominators, m - 1, denominator, n), FractionGroups(n, nominators[m - 1], denominator);
      assert (c + [q])[..m - 1] == c;
      assert nominators[..m][..m - 1] == nominators[..m - 1];
      Division(n * nominators[m - 1], denominator);
      Distribute(Sum(c), q, denominator);
      Distribute(Sum(nominators[..m - 1]), nominators[m - 1], n);
    }
  }

  lemma Distribute(a: int, b: int, k: int)
    ensures (a + b) * k == a * k + b * k && k * (a + b) == k * a + k * b
  {
  }

  // The pieces have these work-groups, and the last one the rest of n.
  ghost predicate TiledWithRest(r: NDRange, d: nat, first: seq<int>, rest: nat, n: nat, subs: seq<NDRange>)
    requires Valid(r) && d < r.workDim
  {
    Tiling(r, d, first + [rest], subs) && Sum(first + [rest]) == n
  }

  // The last piece takes what is left.
  /** splitDim with fractions: consecutive pieces that add up to all work-groups, if the first fractions do not
      exceed the whole. */
  method SplitDimFractions(r: NDRange, d: nat, nominators: seq<nat>, denominator: nat)
    returns (subs: seq<NDRange>, ghost rest: nat)
    requires WholeGroups(r) && d < r.workDim && |nominators| > 0 && denominator > 0
    requires Sum(nominators[..|nominators| - 1]) <= denominator
    ensures var n, m := r.global[d] / r.local[d], |nominators|;
      && TiledWithRest(r, d, FractionCounts(nominators, m - 1, denominator, n), rest, n, subs)
  {
    var nbWorkgroups := r.global[d] / r.local[d];
    subs, rest := SplitFractions(r, d, nominators, |nominators| - 1, denominator, nbWorkgroups);
  }

  // The first m fractions of n work-groups, and the rest.
  method SplitFractions(r: NDRange, d: nat, nominators: seq<nat>, m: nat, denominator: nat, n: nat)
    returns (subs: seq<NDRange>, ghost rest: nat)
    requires Valid(r) && d < r.workDim && m <= |nominators| && denominator > 0
    requires Sum(nominators[..m]) <= denominator
    ensures TiledWithRest(r, d, FractionCounts(nominators, m, denominator, n), rest, n, subs)
  {
    RestNonNegative(nominators, m, denominator, n);
    ghost var first := FractionCounts(nominators, m, denominator, n);
    rest := n - Sum(first);
    subs := SplitFitting(r, d, nominators, m, denominator, n, first, rest);
  }

  method SplitFitting(r: NDRange, d: nat, nominators: seq<nat>, m: nat, denominator: nat, n: nat,
                      ghost first: seq<int>, ghost rest: nat)
    returns (subs: seq<NDRange>)
    requires Valid(r) && d < r.workDim && m <= |nominators| && denominator > 0
    requires first == FractionCounts(nominators, m, denominator, n) && Sum(first) + rest == n
    ensures TiledWithRest(r, d, first, rest, n, subs)
  {
    var totalWg;
    subs, totalWg := FirstPieces(r, d, nominators, m, denominator, n, first);
    subs := AppendPiece(r, d, subs, totalWg, n - totalWg, first);
  }

  // The pieces but the last one, and their work-groups.
  method FirstPieces(r: NDRange, d: nat, nominators: seq<nat>, m: nat, denominator: nat, n: nat, ghost first: seq<int>)
    returns (subs: seq<NDRange>, totalWg: nat)
    requires Valid(r) && d < r.workDim && m <= |nominators| && denominator > 0
    requires first == FractionCounts(nominators, m, denominator, n)
    ensures totalWg == Sum(first) && Tiling(r, d, first, subs)
  {
    totalWg, subs := 0, [];
    for i := 0 to m
      invariant totalWg == Sum(FractionCounts(nominators, i, denominator, n))
      invariant Tiling(r, d, FractionCounts(nominators, i, denominator, n), subs)
    {
      FractionCountsNext(nominators, i, denominator, n);
      var nbWg := FractionGroups(n, nominators[i], denominator);
      subs := AppendPiece(r, d, subs, totalWg, nbWg, FractionCounts(nominators, i, denominator, n));
      totalWg := totalWg + nbWg;
    }
  }

  lemma RestNonNegative(nominators: seq<nat>, m: nat, denominator: nat, n: nat)
    requires m <= |nominators| && denominator > 0 && Sum(nominators[..m]) <= denominator
    ensures Sum(FractionCounts(nominators, m, denominator, n)) <= n
  {
    FractionsFit(nominators, m, denominator, n);
    var t := Sum(FractionCounts(nominators, m, denominator, n));
    MulMonotone(Sum(nominators[..m]), denominator, n);
    if t > n {
      MulMonotone(n + 1, t, denominator);
      Distribute(n, 1, denominator);
    }
  }
}
