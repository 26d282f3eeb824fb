/** Byte ranges and interval lists (LibKernelExpr/src/ListInterval.cpp, Interval.cpp).
    A list of closed intervals denotes the set of bytes it covers. The library keeps every
    list in a normal form: sorted, non-empty intervals with a gap of at least one byte. */
module Intervals {

  datatype Interval = Interval(lb: nat, hb: nat)

  ghost predicate Canonical(l: seq<Interval>) {
    && (forall i :: 0 <= i < |l| ==> l[i].lb <= l[i].hb)
    && (forall i, j :: 0 <= i < j < |l| ==> l[i].hb + 1 < l[j].lb)
  }

  predicate Has(i: Interval, x: nat) {
    i.lb <= x <= i.hb
  }

  ghost function Range(i: Interval): set<nat> {
    set x: nat | x <= i.hb && Has(i, x)
  }

  // The bytes a list covers.
  ghost function Bytes(l: seq<Interval>): set<nat> {
    set i, x: nat | 0 <= i < |l| && x <= l[i].hb && Has(l[i], x) :: x
  }

  lemma BytesAt(l: seq<Interval>, i: nat, x: nat)
    requires i < |l| && Has(l[i], x)
    ensures x in Bytes(l)
  {
  }

  lemma BytesConcat(a: seq<Interval>, b: seq<Interval>)
    ensures Bytes(a + b) == Bytes(a) + Bytes(b)
  {
    forall x: nat | x in Bytes(a) + Bytes(b)
      ensures x in Bytes(a + b)
    {
      if x in Bytes(a) {
        var i :| 0 <= i < |a| && Has(a[i], x);
        BytesAt(a + b, i, x);
      } else {
        var i :| 0 <= i < |b| && Has(b[i], x);
        BytesAt(a + b, |a| + i, x);
      }
    }
    forall x: nat | x in Bytes(a + b)
      ensures x in Bytes(a) + Bytes(b)
    {
      var i :| 0 <= i < |a + b| && Has((a + b)[i], x);
      if i < |a| { BytesAt(a, i, x); } else { BytesAt(b, i - |a|, x); }
    }
  }

  lemma BytesSingle(i: Interval)
    ensures Bytes([i]) == Range(i)
  {
    forall x: nat | x in Range(i)
      ensures x in Bytes([i])
    {
      BytesAt([i], 0, x);
    }
  }

  lemma BytesSnoc(l: seq<Interval>, i: Interval)
    ensures Bytes(l + [i]) == Bytes(l) + Range(i)
  {
    BytesConcat(l, [i]);
    BytesSingle(i);
  }

  lemma BytesPrefix(l: seq<Interval>, i: nat)
    requires i < |l|
    ensures Bytes(l[..i + 1]) == Bytes(l[..i]) + Range(l[i])
  {
    assert l[..i + 1] == l[..i] + [l[i]];
    BytesSnoc(l[..i], l[i]);
  }

  lemma BytesInsert(l: seq<Interval>, k: nat, i: Interval)
    requires k <= |l|
    ensures Bytes(l[..k] + [i] + l[k..]) == Bytes(l) + Range(i)
  {
    BytesConcat(l[..k] + [i], l[k..]);
    BytesSnoc(l[..k], i);
    BytesConcat(l[..k], l[k..]);
    assert l[..k] + l[k..] == l;
  }

  lemma BytesHead(l: seq<Interval>)
    requires Canonical(l) && |l| > 0
    ensures Bytes(l) == Range(l[0]) + Bytes(l[1..])
    ensures Range(l[0]) !! Bytes(l[1..])
    ensures Canonical(l[1..])
  {
    BytesConcat([l[0]], l[1..]);
    BytesSingle(l[0]);
    assert [l[0]] + l[1..] == l;
  }

  // The smallest byte of a canonical list is the start of its first interval, and the
  // byte after that interval is missing.
  lemma FirstInterval(l: seq<Interval>)
    requires Canonical(l) && |l| > 0
    ensures l[0].lb in Bytes(l) && l[0].hb + 1 !in Bytes(l)
    ensures forall x :: x in Bytes(l) ==> l[0].lb <= x
    ensures forall x: nat :: Has(l[0], x) ==> x in Bytes(l)
  {
    BytesHead(l);
  }

  /** Interval lists are a normal form: two canonical lists are the same list exactly when
      they cover the same bytes. */
  lemma {:induction false} CanonicalUnique(a: seq<Interval>, b: seq<Interval>)
    requires Canonical(a) && Canonical(b)
    ensures a == b <==> Bytes(a) == Bytes(b)
  {
    if Bytes(a) == Bytes(b) {
      if a == [] {
        if b != [] { FirstInterval(b); assert false; }
      } else if b == [] {
        FirstInterval(a);
        assert false;
      } else {
        FirstInterval(a);
        FirstInterval(b);
        assert a[0].lb == b[0].lb;
        var p, q := Has(b[0], a[0].hb + 1), Has(a[0], b[0].hb + 1);
        assert a[0].hb == b[0].hb;
        BytesHead(a);
        BytesHead(b);
        assert Bytes(a[1..]) == Bytes(a) - Range(a[0]);
        assert Bytes(b[1..]) == Bytes(b) - Range(b[0]);
        CanonicalUnique(a[1..], b[1..]);
        assert a == [a[0]] + a[1..];
        assert b == [b[0]] + b[1..];
      }
    }
  }

  lemma {:induction false} RangeSize(i: Interval)
    requires i.lb <= i.hb
    ensures |Range(i)| == i.hb - i.lb + 1
    decreases i.hb - i.lb
  {
    if i.lb == i.hb {
      RangeOne(i.lb);
    } else {
      RangeSize(Interval(i.lb, i.hb - 1));
      RangeGrows(i);
    }
  }

  lemma RangeOne(x: nat)
    ensures Range(Interval(x, x)) == {x}
  {
  }

  lemma RangeGrows(i: Interval)
    requires i.lb < i.hb
    ensures Range(i) == Range(Interval(i.lb, i.hb - 1)) + {i.hb} && i.hb !in Range(Interval(i.lb, i.hb - 1))
  {
    var j := Interval(i.lb, i.hb - 1);
    forall x ensures x in Range(i) <==> x in Range(j) || x == i.hb {
      assert Has(i, x) <==> Has(j, x) || x == i.hb;
    }
  }

  // What sticks out of the overlapped blocks l[a..b] below and above [inter].
  ghost function LeftEnd(l: seq<Interval>, inter: Interval, a: nat, b: nat): seq<Interval>
    requires a <= b <= |l|
  {
    if a < b && l[a].lb < inter.lb then [Interval(l[a].lb, inter.lb - 1)] else []
  }

  ghost function RightEnd(l: seq<Interval>, inter: Interval, a: nat, b: nat): seq<Interval>
    requires a <= b <= |l|
  {
    if a < b && l[b - 1].hb > inter.hb then [Interval(inter.hb + 1, l[b - 1].hb)] else []
  }

  // Cutting [inter] out of a canonical list: the blocks before `a` end before it, the blocks
  // from `b` on start after it, and what sticks out of the blocks in between stays.
  ghost function Cut(l: seq<Interval>, inter: Interval, a: nat, b: nat): seq<Interval>
    requires a <= b <= |l|
  {
    l[..a] + LeftEnd(l, inter, a, b) + RightEnd(l, inter, a, b) + l[b..]
  }

  ghost predicate CutBounds(l: seq<Interval>, inter: Interval, a: nat, b: nat) {
    && a <= b <= |l|
    && (forall i :: 0 <= i < a ==> l[i].hb < inter.lb)
    && (forall i :: a <= i < b ==> l[i].hb >= inter.lb && l[i].lb <= inter.hb)
    && (forall i :: b <= i < |l| ==> l[i].lb > inter.hb)
  }

  // The bytes of a concatenation of four lists.
  lemma BytesOfFour(a: seq<Interval>, b: seq<Interval>, c: seq<Interval>, d: seq<Interval>)
    ensures Bytes(a + b + c + d) == Bytes(a) + Bytes(b) + Bytes(c) + Bytes(d)
  {
    BytesConcat(a + b + c, d);
    BytesConcat(a + b, c);
    BytesConcat(a, b);
  }

  ghost predicate Before(a: seq<Interval>, b: seq<Interval>) {
    forall i, j :: 0 <= i < |a| && 0 <= j < |b| ==> a[i].hb + 1 < b[j].lb
  }

  lemma CanonicalConcat(a: seq<Interval>, b: seq<Interval>)
    requires Canonical(a) && Canonical(b) && Before(a, b)
    ensures Canonical(a + b)
  {
  }

  lemma CanonicalJoin(p: seq<Interval>, left: seq<Interval>, right: seq<Interval>, q: seq<Interval>)
    requires Canonical(p) && Canonical(left) && Canonical(right) && Canonical(q)
    requires Before(p, left) && Before(p, right) && Before(p, q)
    requires Before(left, right) && Before(left, q) && Before(right, q)
    ensures Canonical(p + left + right + q)
  {
    CanonicalConcat(p, left);
    CanonicalConcat(p + left, right);
    CanonicalConcat(p + left + right, q);
  }

  lemma CutCanonical(l: seq<Interval>, inter: Interval, a: nat, b: nat)
    requires Canonical(l) && inter.lb <= inter.hb && CutBounds(l, inter, a, b)
    ensures Canonical(Cut(l, inter, a, b))
  {
    CanonicalJoin(l[..a], LeftEnd(l, inter, a, b), RightEnd(l, inter, a, b), l[b..]);
  }

  lemma CutIsDifference(l: seq<Interval>, inter: Interval, a: nat, b: nat)
    requires Canonical(l) && inter.lb <= inter.hb && CutBounds(l, inter, a, b)
    ensures Canonical(Cut(l, inter, a, b))
    ensures Bytes(Cut(l, inter, a, b)) == Bytes(l) - Range(inter)
  {
    CutCanonical(l, inter, a, b);
    var p, m, q := l[..a], l[a..b], l[b..];
    var left, right := LeftEnd(l, inter, a, b), RightEnd(l, inter, a, b);
    assert Bytes(l) == Bytes(p) + Bytes(m) + Bytes(q) by {
      BytesConcat(p + m, q);
      BytesConcat(p, m);
      assert p + m + q == l;
    }
    BytesOfFour(p, left, right, q);
    CutMiddle(l, inter, a, b);
    CutOutside(l, inter, a, b);
    SplitDifference(Bytes(p), Bytes(m), Bytes(q), Range(inter), Bytes(left), Bytes(right));
  }

  lemma SplitDifference(p: set<nat>, m: set<nat>, q: set<nat>, x: set<nat>, left: set<nat>, right: set<nat>)
    requires p !! x && q !! x && m - x == left + right
    ensures p + m + q - x == p + left + right + q
  {
    forall y | y in m && y !in x
      ensures y in left || y in right
    {
      assert y in m - x;
    }
    assert forall y :: y in left + right ==> y in m - x;
  }

  lemma CutOutside(l: seq<Interval>, inter: Interval, a: nat, b: nat)
    requires CutBounds(l, inter, a, b)
    ensures Bytes(l[..a]) !! Range(inter) && Bytes(l[b..]) !! Range(inter)
  {
  }

  // The overlapped blocks lose exactly [inter]: only the two outer ends survive.
  lemma CutMiddle(l: seq<Interval>, inter: Interval, a: nat, b: nat)
    requires Canonical(l) && inter.lb <= inter.hb && CutBounds(l, inter, a, b)
    ensures Bytes(l[a..b]) - Range(inter)
         == Bytes(LeftEnd(l, inter, a, b)) + Bytes(RightEnd(l, inter, a, b))
  {
    var m := l[a..b];
    if a < b {
      assert m[0] == l[a] && m[|m| - 1] == l[b - 1];
      BytesSingle(Interval(m[0].lb, if inter.lb > 0 then inter.lb - 1 else 0));
      BytesSingle(Interval(inter.hb + 1, m[|m| - 1].hb));
      forall x | x in Bytes(m) - Range(inter)
        ensures (x < inter.lb && Has(m[0], x)) || (x > inter.hb && Has(m[|m| - 1], x))
      {
        var i :| 0 <= i < |m| && Has(m[i], x);
        assert m[i] == l[a + i];
      }
      forall x: nat | (x < inter.lb && Has(m[0], x)) || (x > inter.hb && Has(m[|m| - 1], x))
        ensures x in Bytes(m)
      {
        BytesAt(m, if x < inter.lb then 0 else |m| - 1, x);
      }
    }
  }

  // Lists between two Add steps: valid intervals ordered by lower bound, possibly overlapping.
  ghost predicate SortedByLb(l: seq<Interval>) {
    && (forall i :: 0 <= i < |l| ==> l[i].lb <= l[i].hb)
    && (forall i, j :: 0 <= i < j < |l| ==> l[i].lb <= l[j].lb)
  }

  // One interval merged on top of a canonical stack.
  function MergeTop(s: seq<Interval>, x: Interval): seq<Interval>
    requires |s| > 0
  {
    var top := s[|s| - 1];
    if top.hb + 1 < x.lb then s + [x]
    else if top.hb < x.hb then s[..|s| - 1] + [top.(hb := x.hb)]
    else s
  }

  lemma MergeCanonical(s: seq<Interval>, x: Interval)
    requires |s| > 0 && Canonical(s) && x.lb <= x.hb && s[|s| - 1].lb <= x.lb
    ensures Canonical(MergeTop(s, x))
  {
  }

  lemma RangeJoin(top: Interval, x: Interval)
    requires top.lb <= x.lb <= top.hb + 1
    ensures Range(top) + Range(x) == Range(top.(hb := if top.hb < x.hb then x.hb else top.hb))
  {
  }

  lemma MergeStep(s: seq<Interval>, x: Interval)
    requires |s| > 0 && Canonical(s) && x.lb <= x.hb && s[|s| - 1].lb <= x.lb
    ensures Canonical(MergeTop(s, x)) && Bytes(MergeTop(s, x)) == Bytes(s) + Range(x)
  {
    MergeCanonical(s, x);
    var top, below := s[|s| - 1], s[..|s| - 1];
    if top.hb + 1 < x.lb {
      BytesSnoc(s, x);
    } else {
      RangeJoin(top, x);
      assert s == below + [top];
      BytesSnoc(below, top);
      BytesSnoc(below, top.(hb := x.hb));
    }
  }

  // Where the scan for the lower end of a removed interval may stand: half-block 2k is
  // before block k, 2k + 1 is inside block k.
  ghost predicate LowScan(l: seq<Interval>, lb: nat, pos: int) {
    && 0 <= pos < 2 * |l|
    && (forall i :: 0 <= i < pos / 2 ==> l[i].hb < lb)
    && (pos % 2 == 1 ==> l[pos / 2].lb <= lb)
  }

  ghost predicate HighScan(l: seq<Interval>, hb: nat, pos: int) {
    && 0 < pos <= 2 * |l|
    && (forall i :: (pos + 1) / 2 <= i < |l| ==> hb < l[i].lb)
    && (pos % 2 == 1 ==> hb <= l[pos / 2].hb)
  }

  ghost predicate IsLowIndex(l: seq<Interval>, inter: Interval, pos: int) {
    && LowScan(l, inter.lb, pos)
    && (if pos % 2 == 0 then inter.lb < l[pos / 2].lb else inter.lb <= l[pos / 2].hb)
  }

  ghost predicate IsHighIndex(l: seq<Interval>, inter: Interval, pos: int) {
    && HighScan(l, inter.hb, pos)
    && (if pos % 2 == 0 then l[pos / 2 - 1].hb < inter.hb else l[pos / 2].lb <= inter.hb)
  }

  // The two scans find exactly the blocks that [inter] overlaps, and never cross.
  lemma IndexesCut(l: seq<Interval>, inter: Interval, lIndex: int, hIndex: int)
    requires Canonical(l) && inter.lb <= inter.hb
    requires IsLowIndex(l, inter, lIndex) && IsHighIndex(l, inter, hIndex)
    ensures lIndex <= hIndex
    ensures CutBounds(l, inter, lIndex / 2, (hIndex + 1) / 2)
  {
  }

  lemma RemoveIsDifference(l: seq<Interval>, inter: Interval, lIndex: int, hIndex: int)
    requires Canonical(l) && inter.lb <= inter.hb
    requires IsLowIndex(l, inter, lIndex) && IsHighIndex(l, inter, hIndex)
    ensures lIndex <= hIndex && lIndex / 2 <= (hIndex + 1) / 2 <= |l|
    ensures Canonical(Cut(l, inter, lIndex / 2, (hIndex + 1) / 2))
    ensures Bytes(Cut(l, inter, lIndex / 2, (hIndex + 1) / 2)) == Bytes(l) - Range(inter)
  {
    IndexesCut(l, inter, lIndex, hIndex);
    CutIsDifference(l, inter, lIndex / 2, (hIndex + 1) / 2);
  }

  // What is left after trimming the two outer blocks (l to m, then m to r) and erasing between.
  // The list after its first touched block `a` has been cut; erasing starts at `lo`.
  ghost predicate LowerTrimmed(l: seq<Interval>, m: seq<Interval>, inter: Interval, a: nat, lo: nat) {
    && a < |l| == |m| && a <= lo <= a + 1
    && (forall i :: a < i < |m| ==> m[i] == l[i])
    && m[..lo] == l[..a] + LeftEnd(l, inter, a, a + 1)
    && (if lo == a then m == l else m[a].hb == inter.lb - 1)
  }

  // The list after its last touched block b - 1 has been cut, too; erasing ends before `hi`.
  ghost predicate HigherTrimmed(m: seq<Interval>, r: seq<Interval>, inter: Interval, b: nat, hi: nat) {
    && 0 < b <= |m| == |r| && b - 1 <= hi <= b
    && r[..hi] == m[..hi]
    && r[hi..] == RightEnd(m, inter, b - 1, b) + m[b..]
  }

  lemma TrimmedCut(l: seq<Interval>, m: seq<Interval>, r: seq<Interval>, inter: Interval,
                   a: nat, b: nat, lo: nat, hi: nat)
    requires a < b && inter.lb <= inter.hb && lo <= hi
    requires LowerTrimmed(l, m, inter, a, lo) && HigherTrimmed(m, r, inter, b, hi)
    requires b == a + 1 && lo == b ==> l[a].hb <= inter.hb
    ensures r[..lo] + r[hi..] == Cut(l, inter, a, b)
  {
    assert m[b..] == l[b..];
    assert r[..lo] == r[..hi][..lo] == m[..hi][..lo] == m[..lo];
    assert LeftEnd(l, inter, a, b) == LeftEnd(l, inter, a, a + 1);
    assert RightEnd(l, inter, a, b) == RightEnd(m, inter, b - 1, b);
  }

  lemma InsertSorted(l: seq<Interval>, i: nat, inter: Interval)
    requires Canonical(l) && inter.lb <= inter.hb && i <= |l|
    requires (forall j :: 0 <= j < i ==> l[j].lb < inter.lb) && (i < |l| ==> inter.lb <= l[i].lb)
    ensures SortedByLb(l[..i] + [inter] + l[i..])
  {
  }

  // The first cut leaves the last touched block as the second one needs it, and before it what is erased.
  lemma StillTouched(l: seq<Interval>, m: seq<Interval>, inter: Interval, lIndex: nat, hIndex: nat, lo: nat)
    requires lIndex < hIndex <= 2 * |l| && inter.lb <= inter.hb && LowerTrimmed(l, m, inter, lIndex / 2, lo)
    requires lo <= lIndex / 2 + lIndex % 2
    requires hIndex % 2 == 0 ==> l[hIndex / 2 - 1].hb < inter.hb
    requires hIndex % 2 == 1 ==> inter.hb <= l[hIndex / 2].hb
    ensures lIndex / 2 < (hIndex + 1) / 2 <= |m| && lo <= hIndex / 2
    ensures hIndex % 2 == 0 ==> m[hIndex / 2 - 1].hb < inter.hb
    ensures hIndex % 2 == 1 ==> inter.hb <= m[hIndex / 2].hb
    ensures (hIndex + 1) / 2 == lIndex / 2 + 1 && lo == (hIndex + 1) / 2 ==> l[lIndex / 2].hb <= inter.hb
  {
  }

  // The early exit: the list lies entirely outside the removed interval.
  lemma NothingToRemove(l: seq<Interval>, inter: Interval)
    requires Canonical(l) && (l == [] || l[0].lb > inter.hb || l[|l| - 1].hb < inter.lb)
    ensures Bytes(l) - Range(inter) == Bytes(l)
  {
  }

  lemma TotalStep(l: seq<Interval>, i: nat)
    requires Canonical(l) && i < |l|
    ensures |Bytes(l[..i + 1])| == |Bytes(l[..i])| + (l[i].hb - l[i].lb + 1)
  {
    BytesPrefix(l, i);
    RangeSize(l[i]);
    assert Bytes(l[..i]) !! Range(l[i]);
  }

  // Interval::intersection
  method IntersectIntervals(i1: Interval, i2: Interval) returns (overlap: bool, res: Interval)
    ensures overlap <==> Range(i1) * Range(i2) != {}
    ensures overlap ==> res.lb <= res.hb && Range(res) == Range(i1) * Range(i2)
  {
    var lb := if i1.lb > i2.lb then i1.lb else i2.lb;
    var hb := if i1.hb < i2.hb then i1.hb else i2.hb;
    res := Interval(lb, hb);
    overlap := !(lb > hb);
    assert overlap ==> lb in Range(i1) * Range(i2);
  }

  class ListInterval {
    var mList: seq<Interval>
    var undefined: bool

    ghost predicate Valid()
      reads this
    {
      Canonical(mList)
    }

    ghost function Contents(): set<nat>
      reads this
    {
      Bytes(mList)
    }

    constructor ()
      ensures Valid() && mList == [] && Contents() == {} && !undefined
    {
      mList := [];
      undefined := false;
    }

    method Add(inter: Interval)
      requires Valid() && inter.lb <= inter.hb
      modifies this`mList
      ensures Valid()
      ensures Contents() == old(Contents()) + Range(inter)
    {
      if mList == [] {
        assert Contents() == {};
        BytesSingle(inter);
        mList := [inter];
        return;
      }

      var index := 0;
      while index < |mList| && mList[index].lb < inter.lb
        invariant 0 <= index <= |mList|
        invariant forall i :: 0 <= i < index ==> mList[i].lb < inter.lb
      {
        index := index + 1;
      }
      BytesInsert(mList, index, inter);
      InsertSorted(mList, index, inter);
      mList := mList[..index] + [inter] + mList[index..];
      MergeSorted();
    }

    // Merge the neighbours of a list sorted by lower bound.
    method MergeSorted()
      requires mList != [] && SortedByLb(mList)
      modifies this`mList
      ensures Valid() && Contents() == old(Contents())
    {
      var s := [mList[0]];
      assert mList[..1] == s;
      var i := 1;
      while i < |mList|
        invariant 1 <= i <= |mList| && mList == old(mList)
        invariant |s| > 0 && Canonical(s) && s[|s| - 1].lb <= mList[i - 1].lb
        invariant Bytes(s) == Bytes(mList[..i])
      {
        BytesPrefix(mList, i);
        MergeStep(s, mList[i]);
        var top := s[|s| - 1];
        if top.hb + 1 < mList[i].lb {
          s := s + [mList[i]];
        } else if top.hb < mList[i].hb {
          s := s[..|s| - 1] + [top.(hb := mList[i].hb)];
        }
        i := i + 1;
      }
      assert mList[..i] == mList;
      mList := s;
    }

    method Remove(inter: Interval)
      requires Valid() && inter.lb <= inter.hb
      modifies this`mList
      ensures Valid()
      ensures Contents() == old(Contents()) - Range(inter)
    {
      if mList == [] || mList[0].lb > inter.hb || mList[|mList| - 1].hb < inter.lb {
        NothingToRemove(mList, inter);
        return;
      }

      var lIndex := LowIndex(inter);
      var hIndex := HighIndex(inter);
      RemoveIsDifference(mList, inter, lIndex, hIndex);
      RemoveFound(inter, lIndex, hIndex);
    }

    // The two cases, once the bounds have been found.
    method RemoveFound(inter: Interval, lIndex: int, hIndex: int)
      requires Valid() && inter.lb <= inter.hb && lIndex <= hIndex
      requires IsLowIndex(mList, inter, lIndex) && IsHighIndex(mList, inter, hIndex)
      modifies this`mList
      ensures mList == Cut(old(mList), inter, lIndex / 2, (hIndex + 1) / 2)
    {
      if lIndex == hIndex {
        RemoveSameIndex(inter, lIndex);
      } else {
        RemoveBetween(inter, lIndex, hIndex);
      }
    }

    // The half-block index of the lower end of [inter].
    method LowIndex(inter: Interval) returns (lIndex: int)
      requires Valid() && mList != [] && mList[|mList| - 1].hb >= inter.lb
      ensures IsLowIndex(mList, inter, lIndex)
    {
      var n := |mList| * 2;
      lIndex := 0;
      var i := 0;
      while i <= n
        invariant 0 <= i <= n
        invariant lIndex == i && LowScan(mList, inter.lb, lIndex)
      {
        if lIndex % 2 == 0 {
          if inter.lb >= mList[lIndex / 2].lb { lIndex := lIndex + 1; } else { break; }
        } else {
          if inter.lb > mList[lIndex / 2].hb { lIndex := lIndex + 1; } else { break; }
        }
        i := i + 1;
      }
    }

    // The half-block index of the upper end of [inter].
    method HighIndex(inter: Interval) returns (hIndex: int)
      requires Valid() && mList != [] && mList[0].lb <= inter.hb
      ensures IsHighIndex(mList, inter, hIndex)
    {
      var n := |mList| * 2;
      hIndex := n;
      var i := 0;
      while i <= n
        invariant 0 <= i <= n
        invariant hIndex == n - i && HighScan(mList, inter.hb, hIndex)
      {
        if hIndex % 2 == 0 {
          if inter.hb <= mList[hIndex / 2 - 1].hb { hIndex := hIndex - 1; } else { break; }
        } else {
          if inter.hb < mList[hIndex / 2].lb { hIndex := hIndex - 1; } else { break; }
        }
        i := i + 1;
      }
    }

    // Equal half-block indices: the cut is inside one gap or one block.
    method RemoveSameIndex(inter: Interval, index: int)
      requires Valid() && inter.lb <= inter.hb
      requires IsLowIndex(mList, inter, index) && IsHighIndex(mList, inter, index)
      modifies this`mList
      ensures mList == Cut(old(mList), inter, index / 2, (index + 1) / 2)
    {
      if index % 2 == 0 {
        return;
      }
      var idx := index / 2;
      if mList[idx].lb == inter.lb && mList[idx].hb == inter.hb {
        mList := mList[..idx] + mList[idx + 1..];
      } else if mList[idx].lb < inter.lb && mList[idx].hb > inter.hb {
        mList := mList[..idx + 1] + [Interval(inter.hb + 1, mList[idx].hb)] + mList[idx + 1..];
        mList := mList[idx := mList[idx].(hb := inter.lb - 1)];
      } else if mList[idx].lb == inter.lb {
        mList := mList[idx := mList[idx].(lb := inter.hb + 1)];
      } else {
        mList := mList[idx := mList[idx].(hb := inter.lb - 1)];
      }
    }

    // The first cut block keeps LeftEnd, which may be empty.
    method TrimLower(inter: Interval, lIndex: nat) returns (lowerDelIdx: nat)
      requires lIndex / 2 < |mList|
      requires lIndex % 2 == 0 ==> inter.lb < mList[lIndex / 2].lb
      requires lIndex % 2 == 1 ==> mList[lIndex / 2].lb <= inter.lb
      modifies this`mList
      ensures lIndex / 2 <= lowerDelIdx <= lIndex / 2 + lIndex % 2
      ensures LowerTrimmed(old(mList), mList, inter, lIndex / 2, lowerDelIdx)
    {
      var block := lIndex / 2;
      if lIndex % 2 == 1 {
        if mList[block].lb == inter.lb {
          lowerDelIdx := block;
        } else {
          mList := mList[block := mList[block].(hb := inter.lb - 1)];
          lowerDelIdx := block + 1;
        }
      } else {
        lowerDelIdx := block;
      }
    }

    // The last cut block keeps RightEnd, which may be empty.
    method TrimHigher(inter: Interval, hIndex: nat) returns (higherDelIdx: int)
      requires 0 < (hIndex + 1) / 2 <= |mList|
      requires hIndex % 2 == 0 ==> mList[hIndex / 2 - 1].hb < inter.hb
      requires hIndex % 2 == 1 ==> inter.hb <= mList[hIndex / 2].hb
      modifies this`mList
      ensures hIndex / 2 - 1 <= higherDelIdx
      ensures HigherTrimmed(old(mList), mList, inter, (hIndex + 1) / 2, higherDelIdx + 1)
    {
      if hIndex % 2 == 1 {
        var block := hIndex / 2;
        if mList[block].hb == inter.hb {
          higherDelIdx := block;
        } else {
          mList := mList[block := mList[block].(lb := inter.hb + 1)];
          higherDelIdx := block - 1;
        }
      } else {
        higherDelIdx := hIndex / 2 - 1;
      }
    }

    // Different half-block indices: both ends are cut; what lies between them is still to be erased.
    method TrimBoth(inter: Interval, lIndex: nat, hIndex: nat) returns (lowerDelIdx: nat, higherDelIdx: int)
      requires lIndex < hIndex <= 2 * |mList| && inter.lb <= inter.hb
      requires lIndex % 2 == 0 ==> inter.lb < mList[lIndex / 2].lb
      requires lIndex % 2 == 1 ==> mList[lIndex / 2].lb <= inter.lb
      requires hIndex % 2 == 0 ==> mList[hIndex / 2 - 1].hb < inter.hb
      requires hIndex % 2 == 1 ==> inter.hb <= mList[hIndex / 2].hb
      modifies this`mList
      ensures lowerDelIdx <= higherDelIdx + 1 <= |mList|
      ensures mList[..lowerDelIdx] + mList[higherDelIdx + 1..] == Cut(old(mList), inter, lIndex / 2, (hIndex + 1) / 2)
    {
      ghost var l := mList;
      lowerDelIdx := TrimLower(inter, lIndex);
      ghost var m := mList;
      StillTouched(l, m, inter, lIndex, hIndex, lowerDelIdx);
      higherDelIdx := TrimHigher(inter, hIndex);
      TrimmedCut(l, m, mList, inter, lIndex / 2, (hIndex + 1) / 2, lowerDelIdx, higherDelIdx + 1);
    }

    // Both ends are cut and what lies between them is erased.
    method RemoveBetween(inter: Interval, lIndex: nat, hIndex: nat)
      requires lIndex < hIndex <= 2 * |mList| && inter.lb <= inter.hb
      requires lIndex % 2 == 0 ==> inter.lb < mList[lIndex / 2].lb
      requires lIndex % 2 == 1 ==> mList[lIndex / 2].lb <= inter.lb
      requires hIndex % 2 == 0 ==> mList[hIndex / 2 - 1].hb < inter.hb
      requires hIndex % 2 == 1 ==> inter.hb <= mList[hIndex / 2].hb
      modifies this`mList
      ensures mList == Cut(old(mList), inter, lIndex / 2, (hIndex + 1) / 2)
    {
      var lowerDelIdx, higherDelIdx := TrimBoth(inter, lIndex, hIndex);
      if higherDelIdx >= lowerDelIdx {
        mList := mList[..lowerDelIdx] + mList[higherDelIdx + 1..];
      } else {
        assert mList[..lowerDelIdx] + mList[lowerDelIdx..] == mList;
      }
    }

    method Clear()
      modifies this
      ensures Valid() && mList == [] && Contents() == {} && !undefined
    {
      mList := [];
      undefined := false;
    }

    method ClearList()
      modifies this`mList
      ensures Valid() && mList == [] && Contents() == {}
    {
      mList := [];
    }

    method Clone() returns (ret: ListInterval)
      ensures fresh(ret) && ret.mList == mList && ret.undefined == undefined
    {
      ret := new ListInterval();
      ret.mList := mList;
      ret.undefined := undefined;
    }

    method MyUnion(l: seq<Interval>)
      requires Valid() && Canonical(l)
      modifies this`mList
      ensures Valid()
      ensures Contents() == old(Contents()) + Bytes(l)
    {
      var i := 0;
      while i < |l|
        invariant 0 <= i <= |l| && Valid()
        invariant Contents() == old(Contents()) + Bytes(l[..i])
      {
        BytesPrefix(l, i);
        Add(l[i]);
        i := i + 1;
      }
      assert l[..i] == l;
    }

    method Difference(l: seq<Interval>)
      requires Valid() && Canonical(l)
      modifies this`mList
      ensures Valid()
      ensures Contents() == old(Contents()) - Bytes(l)
    {
      var i := 0;
      while i < |l|
        invariant 0 <= i <= |l| && Valid()
        invariant Contents() == old(Contents()) - Bytes(l[..i])
      {
        BytesPrefix(l, i);
        Remove(l[i]);
        i := i + 1;
      }
      assert l[..i] == l;
    }

    static method Intersection(l1: seq<Interval>, l2: seq<Interval>) returns (ret: ListInterval)
      requires Canonical(l1) && Canonical(l2)
      ensures fresh(ret) && ret.Valid() && !ret.undefined
      ensures ret.Contents() == Bytes(l1) * Bytes(l2)
    {
      ret := new ListInterval();
      var i := 0;
      while i < |l1|
        invariant 0 <= i <= |l1| && ret.Valid() && !ret.undefined
        invariant ret.Contents() == Bytes(l1[..i]) * Bytes(l2)
      {
        BytesPrefix(l1, i);
        var j := 0;
        while j < |l2|
          invariant 0 <= j <= |l2| && ret.Valid() && !ret.undefined
          invariant ret.Contents() == Bytes(l1[..i]) * Bytes(l2) + Range(l1[i]) * Bytes(l2[..j])
        {
          BytesPrefix(l2, j);
          var overlap, res := IntersectIntervals(l1[i], l2[j]);
          if overlap {
            ret.Add(res);
          }
          j := j + 1;
        }
        assert l2[..j] == l2;
        i := i + 1;
      }
      assert l1[..i] == l1;
    }

    // The first list is undefined or not; so is its clone.
    static method DifferenceOf(l1: seq<Interval>, undefined: bool, l2: seq<Interval>) returns (ret: ListInterval)
      requires Canonical(l1) && Canonical(l2)
      ensures fresh(ret) && ret.Valid() && ret.undefined == undefined
      ensures ret.Contents() == Bytes(l1) - Bytes(l2)
    {
      ret := new ListInterval();
      ret.mList, ret.undefined := l1, undefined;
      ret.Difference(l2);
    }

    // `total` is the number of bytes covered, not just a sum of lengths.
    method Total() returns (total: nat)
      requires Valid()
      ensures total == |Contents()|
    {
      total := 0;
      var i := 0;
      assert mList[..0] == [];
      while i < |mList|
        invariant 0 <= i <= |mList|
        invariant total == |Bytes(mList[..i])|
      {
        TotalStep(mList, i);
        total := total + (mList[i].hb - mList[i].lb + 1);
        i := i + 1;
      }
      assert mList[..i] == mList;
    }
  }
}
