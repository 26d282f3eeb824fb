/** The communication volume of one device between two kernels, as linear constraints on the shares
    (libsplit/src/Scheduler/MultiKernelSolver.cpp, getD2HConstraint and getH2DConstraint). */
module CommConstraints {

  const EPSILON: real := 0.0000000001

  // prefix_sum: the share of the devices before device i.
  ghost function Prefix(x: seq<real>, i: nat): real
    requires i <= |x|
  {
    if i == 0 then 0.0 else Prefix(x, i - 1) + x[i - 1]
  }

  // Non-negative shares that sum to one.
  ghost predicate Shares(x: seq<real>, n: nat) {
    && |x| == n > 0 && Prefix(x, n) == 1.0
    && forall i :: 0 <= i < n ==> x[i] >= 0.0
  }

  ghost predicate IsPrefix(p: seq<real>, x: seq<real>) {
    |p| == |x| + 1 && forall i :: 0 <= i <= |x| ==> p[i] == Prefix(x, i)
  }

  // The coefficients from position `at` on against the first m shares.
  ghost function Row(k: seq<int>, at: nat, x: seq<real>, m: nat): real
    requires at + m <= |k| && m <= |x|
  {
    if m == 0 then 0.0 else Row(k, at, x, m - 1) + k[at + m - 1] as real * x[m - 1]
  }

  // The first n coefficients against the previous shares, the last n against the current ones.
  ghost function Dot(k: seq<int>, prev: seq<real>, cur: seq<real>, n: nat): real
    requires |k| == 2 * n && |prev| == n && |cur| == n
  {
    Row(k, 0, prev, n) + Row(k, n, cur, n)
  }

  // The length of [a, b) outside [c, e).
  function Outside(a: real, b: real, c: real, e: real): real {
    var lo, hi := if a > c then a else c, if b < e then b else e;
    (b - a) - (if hi > lo then hi - lo else 0.0)
  }

  // What device d had in x and does not have in y.
  ghost function Lost(x: seq<real>, y: seq<real>, d: nat): real
    requires d < |x| == |y|
  {
    Outside(Prefix(x, d), Prefix(x, d + 1), Prefix(y, d), Prefix(y, d + 1))
  }

  predicate Coefficient(k: seq<int>, at: nat, i: nat, from: nat, to: nat, a: int)
    requires at + i < |k|
  {
    k[at + i] == if from <= i < to then a else 0
  }

  // Coefficient a on the devices from `from` to `to`, and none elsewhere.
  ghost predicate Coefficients(k: seq<int>, at: nat, n: nat, from: nat, to: nat, a: int) {
    at + n <= |k| && forall i :: 0 <= i < n ==> Coefficient(k, at, i, from, to, a)
  }

  // a times the share of the devices from `from` to `to`.
  ghost function Weighted(a: int, x: seq<real>, from: nat, to: nat): real
    requires from <= |x| && to <= |x|
  {
    a as real * (Prefix(x, to) - Prefix(x, from))
  }

  lemma {:induction false} RowOf(k: seq<int>, at: nat, n: nat, x: seq<real>, from: nat, to: nat, a: int, m: nat)
    requires Coefficients(k, at, n, from, to, a) && |x| == n && from <= to <= n && m <= n
    ensures var lo, hi := if m < from then m else from, if m < to then m else to;
      Row(k, at, x, m) == Weighted(a, x, lo, hi)
    decreases m
  {
    if m == 0 {
    } else {
      RowOf(k, at, n, x, from, to, a, m - 1);
      assert Coefficient(k, at, m - 1, from, to, a);
      if from <= m - 1 < to {
        Spread(a as real, Prefix(x, m - 1) - Prefix(x, from), x[m - 1]);
      }
    }
  }

  lemma Spread(a: real, x: real, y: real)
    ensures a * (x + y) == a * x + a * y
  {
  }

  // Coefficients a and b on the same devices of both kernels.
  lemma DotOf(k: seq<int>, prev: seq<real>, cur: seq<real>, n: nat, from: nat, to: nat, a: int, b: int)
    requires |k| == 2 * n && |prev| == n && |cur| == n && from <= to <= n
    requires Coefficients(k, 0, n, from, to, a) && Coefficients(k, n, n, from, to, b)
    ensures Dot(k, prev, cur, n) == Weighted(a, prev, from, to) + Weighted(b, cur, from, to)
  {
    RowOf(k, 0, n, prev, from, to, a, n);
    RowOf(k, n, n, cur, from, to, b, n);
  }

  // ---- Writing coefficients ----

  // Adds a to the coefficients of the devices before `to` of one kernel and b to those of the other.
  method AddBefore(k: array<int>, n: nat, to: nat, a: int, b: int)
    requires k.Length == 2 * n && to <= n
    modifies k
    ensures forall i :: 0 <= i < n ==> k[i] == old(k[i]) + if i < to then a else 0
    ensures forall i :: n <= i < 2 * n ==> k[i] == old(k[i]) + if i < n + to then b else 0
  {
    for i := 0 to to
      invariant forall j :: 0 <= j < n ==> k[j] == old(k[j]) + if j < i then a else 0
      invariant forall j :: n <= j < 2 * n ==> k[j] == old(k[j]) + if j < n + i then b else 0
    {
      k[n + i] := k[n + i] + b;
      k[i] := k[i] + a;
    }
  }

  // The only coefficients: those of the devices before `to`.
  method PutBefore(k: array<int>, n: nat, to: nat, a: int, b: int)
    requires k.Length == 2 * n && to <= n && forall i :: 0 <= i < k.Length ==> k[i] == 0
    modifies k
    ensures Coefficients(k[..], 0, n, 0, to, a) && Coefficients(k[..], n, n, 0, to, b)
  {
    AddBefore(k, n, to, a, b);
  }

  // The only coefficients: those of the device itself.
  method PutOwn(k: array<int>, n: nat, dev: nat, a: int, b: int)
    requires k.Length == 2 * n && dev < n && forall i :: 0 <= i < k.Length ==> k[i] == 0
    modifies k
    ensures Coefficients(k[..], 0, n, dev, dev + 1, a) && Coefficients(k[..], n, n, dev, dev + 1, b)
  {
    AddBefore(k, n, dev, -a, -b);
    AddBefore(k, n, dev + 1, a, b);
  }

  // ---- Where the bounds lie ----

  ghost predicate Ordered(a: real, b: real, c: real, e: real) {
    0.0 <= a <= b <= 1.0 && 0.0 <= c <= e <= 1.0
  }

  ghost predicate Near(x: real, y: real) {
    y - EPSILON <= x <= y + EPSILON
  }

  // Both pieces are longer than EPSILON and not further than EPSILON apart.
  predicate Overlap(n: nat, dev: nat, a: real, b: real, c: real, e: real) {
    if b - a <= EPSILON || e - c <= EPSILON then false
    else if dev == 0 || dev == n - 1 then true
    else !(b + EPSILON < c || e + EPSILON < a)
  }

  lemma {:induction false} PrefixBounds(x: seq<real>, n: nat, i: nat, j: nat)
    requires Shares(x, n) && i <= j <= n
    ensures 0.0 <= Prefix(x, i) <= Prefix(x, j)
    decreases j
  {
    if i < j {
      PrefixBounds(x, n, i, j - 1);
    } else if j > 0 {
      PrefixBounds(x, n, j - 1, j - 1);
    }
  }

  lemma PieceBounds(x: seq<real>, y: seq<real>, n: nat, d: nat)
    requires Shares(x, n) && Shares(y, n) && d < n
    ensures Ordered(Prefix(x, d), Prefix(x, d + 1), Prefix(y, d), Prefix(y, d + 1))
    ensures d == 0 ==> Prefix(x, d) == Prefix(y, d) == 0.0
    ensures d == n - 1 ==> Prefix(x, d + 1) == Prefix(y, d + 1) == 1.0
  {
    PrefixBounds(x, n, 0, d);
    PrefixBounds(y, n, 0, d);
    PrefixBounds(x, n, d, d + 1);
    PrefixBounds(y, n, d, d + 1);
    PrefixBounds(x, n, d + 1, n);
    PrefixBounds(y, n, d + 1, n);
  }

  // What getD2HConstraint has to establish.
  ghost predicate Measures(observed: bool, k: seq<int>, prev: seq<real>, cur: seq<real>, n: nat, lost: real)
    requires |k| == 2 * n && |prev| == n && |cur| == n
  {
    if observed then Near(Dot(k, prev, cur, n), lost) else lost < 2.0 * EPSILON
  }

  /** getD2HConstraint: when communication is observed the constraint gives the share the device loses, within
      EPSILON; otherwise that share is below 2 * EPSILON. */
  method GetD2HConstraint(n: nat, dev: nat, prev: seq<real>, cur: seq<real>, prevPrefix: seq<real>, curPrefix: seq<real>)
    returns (observed: bool, k: array<int>)
    requires Shares(prev, n) && Shares(cur, n) && IsPrefix(prevPrefix, prev) && IsPrefix(curPrefix, cur) && dev < n
    ensures k.Length == 2 * n && Measures(observed, k[..], prev, cur, n, Lost(prev, cur, dev))
  {
    ghost var a, b, c, e := Prefix(prev, dev), Prefix(prev, dev + 1), Prefix(cur, dev), Prefix(cur, dev + 1);
    PieceBounds(prev, cur, n, dev);
    assert prev[dev] == b - a && cur[dev] == e - c;
    k := new int[2 * n](_ => 0);

    // No share before, nothing to lose.
    if prev[dev] <= EPSILON {
      return false, k;
    }

    // An outermost device: one end of both pieces is fixed at 0 or 1.
    if dev == 0 || dev == n - 1 {
      k[dev], k[n + dev] := 1, -1;
      DotOf(k[..], prev, cur, n, dev, dev + 1, 1, -1);
      observed := !(prev[dev] < cur[dev]);
      return;
    }

    // The old piece is included in the new one.
    if curPrefix[dev] < prevPrefix[dev] + EPSILON && prevPrefix[dev + 1] < curPrefix[dev + 1] + EPSILON {
      PutOwn(k, n, dev, 1, -1);
      return false, k;
    }

    // No overlap: everything is lost.
    if !Overlap(n, dev, prevPrefix[dev], prevPrefix[dev + 1], curPrefix[dev], curPrefix[dev + 1]) {
      k[dev] := 1;
      DotOf(k[..], prev, cur, n, dev, dev + 1, 1, 0);
      return true, k;
    }

    // The new piece is inside the old one.
    if prevPrefix[dev] < curPrefix[dev] && curPrefix[dev + 1] < prevPrefix[dev + 1] {
      PutOwn(k, n, dev, 1, -1);
      DotOf(k[..], prev, cur, n, dev, dev + 1, 1, -1);
      return true, k;
    }

    // Something is lost on the left.
    if prevPrefix[dev] < curPrefix[dev] {
      PutBefore(k, n, dev, -1, 1);
      DotOf(k[..], prev, cur, n, 0, dev, -1, 1);
      return true, k;
    }

    // Something is lost on the right.
    PutBefore(k, n, dev + 1, 1, -1);
    DotOf(k[..], prev, cur, n, 0, dev + 1, 1, -1);
    return true, k;
  }

  /** getH2DConstraint: the mirror image, for the share the device gains. */
  method GetH2DConstraint(n: nat, dev: nat, prev: seq<real>, cur: seq<real>, prevPrefix: seq<real>, curPrefix: seq<real>)
    returns (observed: bool, k: array<int>)
    requires Shares(prev, n) && Shares(cur, n) && IsPrefix(prevPrefix, prev) && IsPrefix(curPrefix, cur) && dev < n
    ensures k.Length == 2 * n && Measures(observed, k[..], prev, cur, n, Lost(cur, prev, dev))
  {
    ghost var a, b, c, e := Prefix(prev, dev), Prefix(prev, dev + 1), Prefix(cur, dev), Prefix(cur, dev + 1);
    PieceBounds(prev, cur, n, dev);
    assert prev[dev] == b - a && cur[dev] == e - c;
    k := new int[2 * n](_ => 0);

    if cur[dev] <= EPSILON {
      return false, k;
    }

    if dev == 0 || dev == n - 1 {
      k[n + dev], k[dev] := 1, -1;
      DotOf(k[..], prev, cur, n, dev, dev + 1, -1, 1);
      observed := !(cur[dev] < prev[dev]);
      return;
    }

    // The new piece is included in the old one.
    if prevPrefix[dev] < curPrefix[dev] + EPSILON && curPrefix[dev + 1] < prevPrefix[dev + 1] + EPSILON {
      PutOwn(k, n, dev, -1, 1);
      return false, k;
    }

    // No overlap: everything is new.
    if !Overlap(n, dev, prevPrefix[dev], prevPrefix[dev + 1], curPrefix[dev], curPrefix[dev + 1]) {
      k[n + dev] := 1;
      DotOf(k[..], prev, cur, n, dev, dev + 1, 0, 1);
      return true, k;
    }

    // The old piece is inside the new one.
    if prevPrefix[dev] > curPrefix[dev] && curPrefix[dev + 1] > prevPrefix[dev + 1] {
      PutOwn(k, n, dev, -1, 1);
      DotOf(k[..], prev, cur, n, dev, dev + 1, -1, 1);
      return true, k;
    }

    // Something is gained on the right.
    if prevPrefix[dev + 1] < curPrefix[dev + 1] {
      PutBefore(k, n, dev + 1, -1, 1);
      DotOf(k[..], prev, cur, n, 0, dev + 1, -1, 1);
      return true, k;
    }

    // Something is gained on the left.
    PutBefore(k, n, dev, 1, -1);
    DotOf(k[..], prev, cur, n, 0, dev, 1, -1);
    return true, k;
  }
}
