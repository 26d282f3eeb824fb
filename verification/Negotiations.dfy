/** The driver asks the scheduler for partitions until one is accepted (libsplit/src/Driver.cpp, the loop of
    enqueueNDRangeKernel; libsplit/src/Scheduler/Scheduler.cpp, getIndirectionRegions, setIndirectionValues,
    getShiftedPartition). Indirections are enabled and their values are never missing; the answers of the region
    analysis for a partition are a parameter. */
module Negotiations {
  import opened Arithmetic
  import opened NDRanges
  import opened Tilings
  import opened ArgumentAnalyses
  import Bounds

  type Partition = seq<NDRange>

  // The regions the analysis finds for a partition: of piece i for argument a, and of the bytes of an argument shared by
  // pieces.
  datatype Analysis = Analysis(
    status: Partition -> Status,
    mergeArgs: Partition -> seq<nat>,
    read: (Partition, nat, nat) -> set<nat>,
    readKnown: (Partition, nat) -> bool,
    written: (Partition, nat, nat) -> set<nat>,
    shared: (Partition, nat) -> set<nat>)

  // One kernel launch: partition(i) splits dimension dimOrder[i] for the requested devices.
  datatype Problem = Problem(
    range: NDRange, dimOrder: seq<nat>, requested: nat, partition: nat -> Partition, analysis: Analysis,
    nbGlobals: nat, shiftInit: nat, shiftStep: nat)

  function Groups(p: Problem, i: nat): nat
    requires Valid(p.range) && i < |p.dimOrder| && p.dimOrder[i] < p.range.workDim
  {
    p.range.global[p.dimOrder[i]] / p.range.local[p.dimOrder[i]]
  }

  // Everything the pieces of a partition write (getArgFullWrittenRegion).
  function FullWritten(an: Analysis, ps: Partition, a: nat, m: nat): set<nat>
    requires m <= |ps|
  {
    if m == 0 then an.shared(ps, a) else FullWritten(an, ps, a, m - 1) + an.written(ps, m - 1, a)
  }

  // ---- getShiftedPartition ----

  // A range built from a piece: its global size is also the original one.
  function Piece(s: NDRange, d: nat, offset: nat, size: nat): NDRange
    requires Valid(s) && d < s.workDim
  {
    var global := s.global[d := size];
    NDRange(s.workDim, global, global, s.offset[d := offset], s.local)
  }

  function Low(r: NDRange, s: NDRange, d: nat, shift: nat): (lb: int)
    requires Valid(r) && Valid(s) && d < r.workDim == s.workDim
    ensures lb >= r.offset[d]
  {
    var lb := s.offset[d] - shift * r.local[d];
    if lb < r.offset[d] then r.offset[d] else lb
  }

  function High(r: NDRange, s: NDRange, d: nat, shift: nat): (hb: int)
    requires Valid(r) && Valid(s) && d < r.workDim == s.workDim
  {
    var hb: int := s.offset[d] + s.global[d] + shift * r.local[d];
    var end: int := r.offset[d] + r.global[d];
    if hb > end then end - 1 else hb - 1
  }

  // s is a non-empty stretch of dimension d of r.
  ghost predicate Inside(s: NDRange, r: NDRange, d: nat) {
    && WholeGroups(r) && WholeGroups(s) && s.workDim == r.workDim && d < r.workDim
    && s.local == r.local && s.global == r.global[d := s.global[d]] && s.offset == r.offset[d := s.offset[d]]
    && r.offset[d] <= s.offset[d] && s.offset[d] + s.global[d] <= r.offset[d] + r.global[d]
  }

  // Something of the range is left behind the widened piece.
  predicate HasTail(r: NDRange, s: NDRange, d: nat, shift: nat)
    requires Valid(r) && Valid(s) && d < r.workDim == s.workDim
  {
    High(r, s, d, shift) + 1 < r.offset[d] + r.global[d]
  }

  ghost function Widened(r: NDRange, s: NDRange, d: nat, shift: nat): NDRange
    requires Inside(s, r, d) && shift > 0
  {
    ShiftedWithin(r, s, d, shift);
    Piece(s, d, Low(r, s, d, shift), High(r, s, d, shift) - Low(r, s, d, shift) + 1)
  }

  // What is before the widened piece, the widened piece, and what is behind it; the size of the last part is that of
  // the widened piece minus one.
  ghost function ShiftedParts(r: NDRange, s: NDRange, d: nat, shift: nat): Partition
    requires Inside(s, r, d) && shift > 0
  {
    ShiftedWithin(r, s, d, shift);
    var lb, hb := Low(r, s, d, shift), High(r, s, d, shift);
    (if lb > r.offset[d] then [Piece(s, d, r.offset[d], lb - r.offset[d])] else [])
    + [Widened(r, s, d, shift)]
    + (if HasTail(r, s, d, shift) then [Piece(s, d, hb + 1, hb - lb)] else [])
  }

  // The piece widened by `shift` groups on both sides, between what is left of the range.
  method GetShiftedPartition(r: NDRange, s: NDRange, d: nat, shift: nat) returns (ps: Partition, id: nat)
    requires Inside(s, r, d) && shift > 0
    ensures ps == ShiftedParts(r, s, d, shift)
    ensures id < |ps| && ps[id] == Widened(r, s, d, shift)
    ensures id == if Low(r, s, d, shift) > r.offset[d] then 1 else 0
    ensures shift >= r.global[d] / r.local[d] ==> ps == [Piece(s, d, r.offset[d], r.global[d])]
  {
    var newLB, newHB := Low(r, s, d, shift), High(r, s, d, shift);
    ShiftedWithin(r, s, d, shift);
    ps, id := [], 0;
    if newLB > r.offset[d] {
      id := 1;
      ps := ps + [Piece(s, d, r.offset[d], newLB - r.offset[d])];
    }
    ps := ps + [Piece(s, d, newLB, newHB - newLB + 1)];
    if newHB < r.offset[d] + r.global[d] - 1 {
      ps := ps + [Piece(s, d, newHB + 1, newHB - newLB)];
    }
  }

  // ---- Do the parts end with the range? ----

  function End(s: NDRange, d: nat): int
    requires d < |s.offset| && d < |s.global|
  {
    s.offset[d] + s.global[d]
  }

  // The work-groups of the range before the piece, in it and behind it.
  function GroupsBefore(r: NDRange, s: NDRange, d: nat): int
    requires Valid(r) && Valid(s) && d < r.workDim == s.workDim
  {
    var start: int := s.offset[d];
    (start - r.offset[d]) / r.local[d]
  }

  function GroupsIn(r: NDRange, s: NDRange, d: nat): int
    requires Valid(r) && Valid(s) && d < r.workDim == s.workDim
  {
    s.global[d] / r.local[d]
  }

  function GroupsBehind(r: NDRange, s: NDRange, d: nat): int
    requires Valid(r) && Valid(s) && d < r.workDim == s.workDim
  {
    (End(r, d) - End(s, d)) / r.local[d]
  }

  function Least(x: int, y: int): int {
    if x < y then x else y
  }

  // The work-groups of the widened piece.
  function WidenedGroups(r: NDRange, s: NDRange, d: nat, shift: nat): int
    requires Valid(r) && Valid(s) && d < r.workDim == s.workDim
  {
    Least(GroupsBefore(r, s, d), shift) + GroupsIn(r, s, d) + Least(GroupsBehind(r, s, d), shift)
  }

  lemma MultiplesApart(x: int, y: int, l: nat)
    requires l > 0 && x % l == 0 && y % l == 0
    ensures l * ((y - x) / l) == y - x
  {
    Division(x, l);
    Division(y, l);
    assert y - x == l * (y / l - x / l);
    ModIs(y - x, l, y / l - x / l, 0);
  }

  lemma MultiplesSum(x: int, y: int, l: nat)
    requires l > 0 && x % l == 0 && y % l == 0
    ensures (x + y) % l == 0
  {
    Division(x, l);
    Division(y, l);
    assert x + y == l * (x / l + y / l);
    ModIs(x + y, l, x / l + y / l, 0);
  }

  lemma GroupsExact(r: NDRange, s: NDRange, d: nat)
    requires Inside(s, r, d)
    ensures r.local[d] * GroupsBefore(r, s, d) == s.offset[d] - r.offset[d]
    ensures r.local[d] * GroupsIn(r, s, d) == s.global[d]
    ensures r.local[d] * GroupsBehind(r, s, d) == End(r, d) - End(s, d)
  {
    var l := r.local[d];
    MultiplesApart(r.offset[d], s.offset[d], l);
    MultiplesApart(0, s.global[d], l);
    MultiplesSum(r.offset[d], r.global[d], l);
    MultiplesSum(s.offset[d], s.global[d], l);
    MultiplesApart(End(s, d), End(r, d), l);
  }

  // One end moves by as many groups as there are, and by at most `shift`.
  lemma EndMoves(l: nat, x: int, shift: nat, gap: int)
    requires l > 0 && gap == l * x
    ensures shift * l <= gap <==> shift <= x
    ensures shift * l < gap <==> shift < x
    ensures l * Least(x, shift) == Least(gap, shift * l)
  {
    if shift <= x { MulMonotone(shift, x, l); }
    if shift < x { MulMonotone(shift + 1, x, l); }
    if x <= shift { MulMonotone(x, shift, l); }
    if x < shift { MulMonotone(x + 1, shift, l); }
  }

  lemma WidenedSize(r: NDRange, s: NDRange, d: nat, shift: nat)
    requires Inside(s, r, d) && shift > 0
    ensures s.offset[d] - Low(r, s, d, shift) == r.local[d] * Least(GroupsBefore(r, s, d), shift)
    ensures High(r, s, d, shift) + 1 - End(s, d) == r.local[d] * Least(GroupsBehind(r, s, d), shift)
    ensures r.local[d] * WidenedGroups(r, s, d, shift) == High(r, s, d, shift) - Low(r, s, d, shift) + 1
    ensures HasTail(r, s, d, shift) <==> shift < GroupsBehind(r, s, d)
    ensures HasTail(r, s, d, shift) ==>
      r.local[d] * (GroupsBehind(r, s, d) - shift) == End(r, d) - 1 - High(r, s, d, shift)
  {
    var l, before, own, behind := r.local[d], GroupsBefore(r, s, d), GroupsIn(r, s, d), GroupsBehind(r, s, d);
    GroupsExact(r, s, d);
    EndMoves(l, before, shift, s.offset[d] - r.offset[d]);
    EndMoves(l, behind, shift, End(r, d) - End(s, d));
    Distribute(l, Least(before, shift), own, Least(behind, shift));
    Distribute(l, behind, 0 - shift, 0);
  }

  // The wider the shift, the wider the piece.
  lemma WidenedGrows(r: NDRange, s: NDRange, d: nat, shift1: nat, shift2: nat)
    requires Inside(s, r, d) && 0 < shift1 <= shift2
    ensures Widens(Widened(r, s, d, shift2), Widened(r, s, d, shift1), d)
  {
    ShiftedWithin(r, s, d, shift1);
    ShiftedWithin(r, s, d, shift2);
    MulMonotone(shift1, shift2, r.local[d]);
  }

  lemma Distribute(l: int, x: int, y: int, z: int)
    ensures l * (x + y + z) == l * x + l * y + l * z
    ensures l * -y == -(y * l)
  {
  }

  lemma ProductIsOne(l: nat, x: int)
    ensures l * x == 1 <==> l == 1 && x == 1
  {
    if l > 1 && x > 0 { MulMonotone(1, x, l); }
    if l > 0 && x < 0 { MulMonotone(x, -1, l); }
  }

  predicate Follows(s: NDRange, t: NDRange, d: nat) {
    d < |s.offset| && d < |s.global| && d < |t.offset| && t.offset[d] == End(s, d)
  }

  ghost predicate Consecutive(ps: Partition, d: nat) {
    forall i, j :: 0 <= i < |ps| && 0 <= j < |ps| && j == i + 1 ==> Follows(ps[i], ps[j], d)
  }

  /** The parts of the shifted partition are consecutive from the start of the range. They end with it exactly when no
      group is left behind the widened piece, or groups have one work-item and one fewer of them is behind the widened
      piece than in it; otherwise the last part ends before or behind the range by what is stated here. */
  lemma ShiftedTiles(r: NDRange, s: NDRange, d: nat, shift: nat)
    requires Inside(s, r, d) && shift > 0
    ensures var ps, tail := ShiftedParts(r, s, d, shift), GroupsBehind(r, s, d) - shift;
      && Consecutive(ps, d) && ps[0].offset[d] == r.offset[d]
      && (tail > 0 ==> End(ps[|ps| - 1], d) - End(r, d) == r.local[d] * (WidenedGroups(r, s, d, shift) - tail) - 1)
      && (End(ps[|ps| - 1], d) == End(r, d) <==>
           tail <= 0 || (r.local[d] == 1 && tail == WidenedGroups(r, s, d, shift) - 1))
  {
    var tail := GroupsBehind(r, s, d) - shift;
    WidenedSize(r, s, d, shift);
    ShiftedWithin(r, s, d, shift);
    Distribute(r.local[d], WidenedGroups(r, s, d, shift), -tail, 0);
    ProductIsOne(r.local[d], WidenedGroups(r, s, d, shift) - tail);
  }

  ghost predicate HasId(s: NDRange, d: nat, x: int)
    requires d < |s.offset| && d < |s.global|
  {
    s.offset[d] <= x < End(s, d)
  }

  ghost predicate InParts(ps: Partition, d: nat, x: int) {
    exists i :: 0 <= i < |ps| && d < |ps[i].offset| && d < |ps[i].global| && HasId(ps[i], d, x)
  }

  lemma {:induction false} ConsecutiveHold(ps: Partition, d: nat, x: int)
    requires ps != [] && Consecutive(ps, d)
    requires forall i :: 0 <= i < |ps| ==> d < |ps[i].offset| && d < |ps[i].global|
    ensures InParts(ps, d, x) <==> ps[0].offset[d] <= x < End(ps[|ps| - 1], d)
    decreases |ps|
  {
    if |ps| == 1 {
      assert HasId(ps[0], d, x) <==> InParts(ps, d, x);
    } else {
      var init, s := ps[..|ps| - 1], ps[|ps| - 1];
      assert Consecutive(init, d);
      ConsecutiveHold(init, d, x);
      assert Follows(ps[|ps| - 2], ps[|ps| - 1], d);
      assert End(init[|init| - 1], d) == s.offset[d];
      StartsBelow(init, d);
      InPartsSnoc(init, s, d, x);
      assert init + [s] == ps;
    }
  }

  lemma {:induction false} StartsBelow(ps: Partition, d: nat)
    requires ps != [] && Consecutive(ps, d)
    requires forall i :: 0 <= i < |ps| ==> d < |ps[i].offset| && d < |ps[i].global|
    ensures ps[0].offset[d] <= End(ps[|ps| - 1], d)
    decreases |ps|
  {
    if |ps| > 1 {
      var init := ps[..|ps| - 1];
      assert Consecutive(init, d);
      StartsBelow(init, d);
      assert Follows(ps[|ps| - 2], ps[|ps| - 1], d);
    }
  }

  lemma InPartsSnoc(ps: Partition, s: NDRange, d: nat, x: int)
    requires d < |s.offset| && d < |s.global|
    ensures InParts(ps + [s], d, x) <==> InParts(ps, d, x) || HasId(s, d, x)
  {
    var qs := ps + [s];
    assert qs[|ps|] == s;
    assert forall i :: 0 <= i < |ps| ==> qs[i] == ps[i];
  }

  /** The parts hold every id of the range exactly when no group is left behind the widened piece or fewer of them than
      it has. */
  lemma ShiftedHold(r: NDRange, s: NDRange, d: nat, shift: nat)
    requires Inside(s, r, d) && shift > 0
    ensures (forall x :: HasId(r, d, x) ==> InParts(ShiftedParts(r, s, d, shift), d, x))
      <==> GroupsBehind(r, s, d) - shift < WidenedGroups(r, s, d, shift)
  {
    var ps, gap := ShiftedParts(r, s, d, shift), WidenedGroups(r, s, d, shift) - (GroupsBehind(r, s, d) - shift);
    ShiftedTiles(r, s, d, shift);
    WidenedSize(r, s, d, shift);
    ShiftedWithin(r, s, d, shift);
    forall x ensures InParts(ps, d, x) <==> r.offset[d] <= x < End(ps[|ps| - 1], d) {
      ConsecutiveHold(ps, d, x);
    }
    if gap > 0 {
      MulMonotone(1, gap, r.local[d]);
    } else {
      MulMonotone(gap, 0, r.local[d]);
      assert HasId(r, d, End(r, d) - 1);
    }
  }

  // The last id is among those held only if all are.
  lemma LastIdDecides(r: NDRange, s: NDRange, d: nat, shift: nat)
    requires Inside(s, r, d) && shift > 0
    ensures InParts(ShiftedParts(r, s, d, shift), d, End(r, d) - 1) ==>
      forall x :: HasId(r, d, x) ==> InParts(ShiftedParts(r, s, d, shift), d, x)
  {
    var ps := ShiftedParts(r, s, d, shift);
    ShiftedTiles(r, s, d, shift);
    forall x ensures InParts(ps, d, x) <==> r.offset[d] <= x < End(ps[|ps| - 1], d) {
      ConsecutiveHold(ps, d, x);
    }
  }

  lemma GroupsAddUp(r: NDRange, s: NDRange, d: nat)
    requires Inside(s, r, d)
    ensures GroupsBefore(r, s, d) + GroupsIn(r, s, d) + GroupsBehind(r, s, d) == r.global[d] / r.local[d]
  {
    var l, all := r.local[d], GroupsBefore(r, s, d) + GroupsIn(r, s, d) + GroupsBehind(r, s, d);
    GroupsExact(r, s, d);
    Distribute(l, GroupsBefore(r, s, d), GroupsIn(r, s, d), GroupsBehind(r, s, d));
    QuotientIs(r.global[d], l, all, 0);
  }

  // Four groups of two work-items, the first one widened by one: ids 0 to 3, and behind them 4 to 6 but not 7.
  lemma TailMissesEnd()
    ensures var r, s := NDRange(1, [8], [8], [0], [2]), NDRange(1, [8], [2], [0], [2]);
      && Inside(s, r, 0)
      && ShiftedParts(r, s, 0, 1) == [Piece(s, 0, 0, 4), Piece(s, 0, 4, 3)]
      && End(Piece(s, 0, 4, 3), 0) == 7 && End(r, 0) == 8
  {
  }

  // The widened piece contains the piece, and is the whole range once the shift reaches all groups.
  lemma ShiftedWithin(r: NDRange, s: NDRange, d: nat, shift: nat)
    requires Inside(s, r, d) && shift > 0
    ensures r.offset[d] <= Low(r, s, d, shift) <= s.offset[d]
    ensures s.offset[d] + s.global[d] - 1 <= High(r, s, d, shift) <= r.offset[d] + r.global[d] - 1
    ensures shift >= r.global[d] / r.local[d] ==>
      Low(r, s, d, shift) == r.offset[d] && High(r, s, d, shift) == r.offset[d] + r.global[d] - 1
  {
    var l, n := r.local[d], r.global[d] / r.local[d];
    Division(r.global[d], l);
    MulMonotone(0, shift, l);
    if shift >= n {
      MulMonotone(n, shift, l);
    }
  }

  // ---- What a launch may assume ----

  // Each dimension in the order is split into one piece for each requested device.
  ghost predicate ProblemOk(p: Problem) {
    && WholeGroups(p.range) && p.range.origGlobal == p.range.global && p.requested > 0
    && (forall i :: 0 <= i < |p.dimOrder| ==>
         && p.dimOrder[i] < p.range.workDim && |p.partition(i)| == p.requested
         && (forall j :: 0 <= j < p.requested ==> Inside(p.partition(i)[j], p.range, p.dimOrder[i]))
         && forall a :: a in p.analysis.mergeArgs(p.partition(i)) ==> a < p.nbGlobals)
  }

  // The region the analysis finds for the whole range covers what it finds for the pieces.
  ghost predicate WholeCovers(p: Problem) {
    forall i, a :: 0 <= i < |p.dimOrder| && a in p.analysis.mergeArgs(p.partition(i)) ==>
      FullWritten(p.analysis, p.partition(i), a, |p.partition(i)|) <= p.analysis.written([p.range], 0, a)
  }

  // ---- The outcome ----

  // The bytes one device claims of each argument.
  type Claims = seq<set<nat>>

  // The region one device reads of an argument; an undefined one stands for the whole buffer.
  datatype ReadRegion = ReadRegion(region: set<nat>, undefined: bool)

  // Single: one device runs the whole range. Multi: the pieces of a dimension, with disjoint writes. Shifted: widened
  // pieces; device j runs ranges[j], reads readData[j] and claims claims[j], one entry for each argument.
  datatype Outcome =
    | Single
    | Multi(dim: nat)
    | Shifted(dim: nat, ranges: seq<NDRange>, readData: seq<seq<ReadRegion>>, claims: seq<Claims>)

  // The first dimension, from position i on, that the analysis does not reject.
  ghost function FirstAccepted(p: Problem, i: nat): (r: nat)
    requires i <= |p.dimOrder|
    ensures i <= r <= |p.dimOrder|
    decreases |p.dimOrder| - i
  {
    if i == |p.dimOrder| || p.analysis.status(p.partition(i)) != FAIL then i else FirstAccepted(p, i + 1)
  }

  // The bytes of argument a that some device claims.
  function Claimed(claims: seq<Claims>, a: nat): set<nat> {
    if claims == [] then {}
    else
      var c := claims[|claims| - 1];
      Claimed(claims[..|claims| - 1], a) + if a < |c| then c[a] else {}
  }

  ghost predicate ClaimsCover(p: Problem, i: nat, claims: seq<Claims>)
  {
    forall a :: a in p.analysis.mergeArgs(p.partition(i)) ==>
      FullWritten(p.analysis, p.partition(i), a, |p.partition(i)|) <= Claimed(claims, a)
  }

  // ---- Rounds ----

  // Dimension i of the order can be shifted.
  ghost predicate DimOk(p: Problem, i: nat) {
    ProblemOk(p) && i < |p.dimOrder|
  }

  // The shift of round t: the initial one, then increased by the step, or doubled.
  ghost function ShiftAt(p: Problem, i: nat, t: nat): (shift: nat)
    requires DimOk(p, i)
    ensures shift > 0
  {
    if t > 0 then (var shift := ShiftAt(p, i, t - 1); if p.shiftStep > 0 then shift + p.shiftStep else shift * 2)
    else if p.shiftInit > 0 then p.shiftInit
    else if Groups(p, i) / 100 > 0 then Groups(p, i) / 100
    else 1
  }

  /** The shift is the initial one plus a step for each round, or doubled in each round. */
  lemma {:induction false} ShiftIs(p: Problem, i: nat, t: nat)
    requires DimOk(p, i)
    ensures ShiftAt(p, i, t) == if p.shiftStep > 0 then ShiftAt(p, i, 0) + t * p.shiftStep else ShiftAt(p, i, 0) * Bounds.Pow2(t)
  {
    if t > 0 {
      ShiftIs(p, i, t - 1);
      if p.shiftStep > 0 {
        assert t * p.shiftStep == (t - 1) * p.shiftStep + p.shiftStep;
      } else {
        assert Bounds.Pow2(t) == 2 * Bounds.Pow2(t - 1);
        var first, power := ShiftAt(p, i, 0), Bounds.Pow2(t - 1);
        assert first * (2 * power) == first * power * 2;
      }
    }
  }

  lemma {:induction false} ShiftGrows(p: Problem, i: nat, t: nat, u: nat)
    requires DimOk(p, i) && t <= u
    ensures ShiftAt(p, i, t) + (u - t) <= ShiftAt(p, i, u)
    decreases u
  {
    if t < u {
      ShiftGrows(p, i, t, u - 1);
    }
  }

  // The range of device j after n rounds: its piece, or the widened piece of the last round.
  ghost function RangeAfter(p: Problem, i: nat, j: nat, n: nat): NDRange
    requires DimOk(p, i) && j < p.requested
  {
    var s := p.partition(i)[j];
    assert Inside(s, p.range, p.dimOrder[i]);
    if n == 0 then s else Widened(p.range, s, p.dimOrder[i], ShiftAt(p, i, n - 1))
  }

  // The partition analysed in round t for device j, and the place of the widened piece in it.
  ghost function TurnPartition(p: Problem, i: nat, j: nat, t: nat): Partition
    requires DimOk(p, i) && j < p.requested
  {
    assert Inside(p.partition(i)[j], p.range, p.dimOrder[i]);
    ShiftedParts(p.range, p.partition(i)[j], p.dimOrder[i], ShiftAt(p, i, t))
  }

  ghost function TurnId(p: Problem, i: nat, j: nat, t: nat): nat
    requires DimOk(p, i) && j < p.requested
  {
    var d := p.dimOrder[i];
    assert Inside(p.partition(i)[j], p.range, d);
    if Low(p.range, p.partition(i)[j], d, ShiftAt(p, i, t)) > p.range.offset[d] then 1 else 0
  }

  // What the widened pieces of device j were found to write of argument a in n rounds.
  ghost function ClaimAfter(p: Problem, i: nat, j: nat, a: nat, n: nat): set<nat>
    requires DimOk(p, i) && j < p.requested
  {
    if n == 0 then {}
    else ClaimAfter(p, i, j, a, n - 1) + p.analysis.written(TurnPartition(p, i, j, n - 1), TurnId(p, i, j, n - 1), a)
  }

  ghost function ClaimsOf(p: Problem, i: nat, j: nat, n: nat): (c: Claims)
    requires DimOk(p, i) && j < p.requested
    ensures |c| == p.nbGlobals && forall a :: 0 <= a < |c| ==> c[a] == ClaimAfter(p, i, j, a, n)
  {
    seq(p.nbGlobals, a requires 0 <= a < p.nbGlobals => ClaimAfter(p, i, j, a, n))
  }

  // What the widened piece of round t reads.
  ghost function ReadsOf(p: Problem, i: nat, j: nat, t: nat): (c: seq<ReadRegion>)
    requires DimOk(p, i) && j < p.requested
    ensures |c| == p.nbGlobals
    ensures forall a :: 0 <= a < |c| ==> c[a] == ReadIn(p.analysis, TurnPartition(p, i, j, t), TurnId(p, i, j, t), a)
  {
    seq(p.nbGlobals, a requires 0 <= a < p.nbGlobals => ReadIn(p.analysis, TurnPartition(p, i, j, t), TurnId(p, i, j, t), a))
  }

  function ReadIn(an: Analysis, ps: Partition, id: nat, a: nat): ReadRegion {
    ReadRegion(an.read(ps, id, a), !an.readKnown(ps, a))
  }

  // The state once `n` rounds are over and the first k devices have had their turn in the next one.
  ghost function RangesAfter(p: Problem, i: nat, n: nat, k: nat): (rs: seq<NDRange>)
    requires DimOk(p, i)
    ensures |rs| == p.requested
    ensures forall j :: 0 <= j < |rs| ==> rs[j] == RangeAfter(p, i, j, if j < k then n + 1 else n)
  {
    seq(p.requested, j requires 0 <= j < p.requested => RangeAfter(p, i, j, if j < k then n + 1 else n))
  }

  ghost function ClaimsAfter(p: Problem, i: nat, n: nat, k: nat): (cs: seq<Claims>)
    requires DimOk(p, i)
    ensures |cs| == p.requested
    ensures forall j :: 0 <= j < |cs| ==> cs[j] == ClaimsOf(p, i, j, if j < k then n + 1 else n)
  {
    seq(p.requested, j requires 0 <= j < p.requested => ClaimsOf(p, i, j, if j < k then n + 1 else n))
  }

  // The reads saved in round n by the first k devices.
  ghost predicate ReadsSaved(p: Problem, i: nat, n: nat, k: nat, readData: seq<seq<ReadRegion>>)
    requires DimOk(p, i) && k <= p.requested
  {
    && |readData| == p.requested && (forall j :: 0 <= j < p.requested ==> |readData[j]| == p.nbGlobals)
    && forall j :: 0 <= j < k ==> readData[j] == ReadsOf(p, i, j, n)
  }

  lemma RoundOver(p: Problem, i: nat, n: nat)
    requires DimOk(p, i)
    ensures RangesAfter(p, i, n, p.requested) == RangesAfter(p, i, n + 1, 0)
    ensures ClaimsAfter(p, i, n, p.requested) == ClaimsAfter(p, i, n + 1, 0)
  {
  }

  lemma NothingClaimed(p: Problem, i: nat)
    requires DimOk(p, i)
    ensures ClaimsAfter(p, i, 0, 0) == NoClaims(p.requested, p.nbGlobals)
    ensures RangesAfter(p, i, 0, 0) == p.partition(i)
  {
    forall j | 0 <= j < p.requested ensures ClaimsOf(p, i, j, 0) == NoClaims(p.requested, p.nbGlobals)[j] {
    }
  }

  lemma RangesNext(p: Problem, i: nat, n: nat, k: nat)
    requires DimOk(p, i) && k < p.requested
    ensures RangesAfter(p, i, n, k + 1) == RangesAfter(p, i, n, k)[k := RangeAfter(p, i, k, n + 1)]
  {
  }

  lemma ClaimsNext(p: Problem, i: nat, n: nat, k: nat)
    requires DimOk(p, i) && k < p.requested
    ensures ClaimsAfter(p, i, n, k + 1) == ClaimsAfter(p, i, n, k)[k := ClaimsOf(p, i, k, n + 1)]
  {
  }

  // Round n is the first one after which the claims cover what the pieces write.
  ghost predicate FirstCovering(p: Problem, i: nat, n: nat)
    requires DimOk(p, i)
  {
    n > 0 && Covers(p, i, n) && NoneCovers(p, i, n - 1)
  }

  ghost predicate Covers(p: Problem, i: nat, n: nat)
    requires DimOk(p, i)
  {
    ClaimsCover(p, i, ClaimsAfter(p, i, n, 0))
  }

  ghost predicate NoneCovers(p: Problem, i: nat, n: nat)
    requires DimOk(p, i)
  {
    forall m :: 0 < m <= n ==> !Covers(p, i, m)
  }

  // What is launched after n rounds.
  ghost predicate ShiftedFor(p: Problem, i: nat, n: nat, o: Outcome)
    requires DimOk(p, i) && n > 0
  {
    && o.Shifted? && o.dim == i && o.ranges == RangesAfter(p, i, n, 0) && o.claims == ClaimsAfter(p, i, n, 0)
    && ReadsSaved(p, i, n - 1, p.requested, o.readData)
  }

  // Each device runs at least its piece.
  ghost predicate RangesWiden(p: Problem, i: nat, ranges: seq<NDRange>)
    requires ProblemOk(p) && i < |p.dimOrder|
  {
    var d := p.dimOrder[i];
    |ranges| == p.requested && forall j :: 0 <= j < p.requested ==> Widens(ranges[j], p.partition(i)[j], d)
  }

  ghost predicate Widens(w: NDRange, s: NDRange, d: nat)
    requires d < |s.offset| && d < |s.global|
  {
    && d < |w.offset| && d < |w.global|
    && w.offset[d] <= s.offset[d]
    && s.offset[d] + s.global[d] <= w.offset[d] + w.global[d]
  }

  function NoClaims(devices: nat, arguments: nat): (claims: seq<Claims>)
    ensures |claims| == devices && forall i :: 0 <= i < devices ==> |claims[i]| == arguments
  {
    seq(devices, i => seq(arguments, a => {}))
  }

  function NoReads(devices: nat, arguments: nat): (readData: seq<seq<ReadRegion>>)
    ensures |readData| == devices && forall i :: 0 <= i < devices ==> |readData[i]| == arguments
  {
    seq(devices, i => seq(arguments, a => ReadRegion({}, false)))
  }

  // The answer the negotiation has to reach.
  ghost predicate Accepted(p: Problem, o: Outcome)
    requires ProblemOk(p)
  {
    var i := FirstAccepted(p, 0);
    if p.requested == 1 || i == |p.dimOrder| then o == Single
    else if p.analysis.status(p.partition(i)) == SUCCESS then o == Multi(i)
    else exists n: nat :: FirstCovering(p, i, n) && ShiftedFor(p, i, n, o)
  }

  /** The negotiation has one answer. */
  lemma AcceptedUnique(p: Problem, o1: Outcome, o2: Outcome)
    requires ProblemOk(p) && Accepted(p, o1) && Accepted(p, o2)
    ensures o1 == o2
  {
    var i := FirstAccepted(p, 0);
    if !(p.requested == 1 || i == |p.dimOrder|) && p.analysis.status(p.partition(i)) != SUCCESS {
      var n: nat :| FirstCovering(p, i, n) && ShiftedFor(p, i, n, o1);
      var m: nat :| FirstCovering(p, i, m) && ShiftedFor(p, i, m, o2);
      assert n == m;
      assert o1.readData == o2.readData;
    }
  }

  /** In a shifted answer every device runs at least its piece, and the claims cover what the pieces write. */
  lemma AcceptedWidens(p: Problem, o: Outcome)
    requires ProblemOk(p) && Accepted(p, o) && o.Shifted?
    ensures o.dim < |p.dimOrder| && RangesWiden(p, o.dim, o.ranges) && ClaimsCover(p, o.dim, o.claims)
  {
    var i := FirstAccepted(p, 0);
    var n: nat :| FirstCovering(p, i, n) && ShiftedFor(p, i, n, o);
    forall j | 0 <= j < p.requested ensures Widens(o.ranges[j], p.partition(i)[j], p.dimOrder[i]) {
      assert Inside(p.partition(i)[j], p.range, p.dimOrder[i]);
      ShiftedWithin(p.range, p.partition(i)[j], p.dimOrder[i], ShiftAt(p, i, n - 1));
    }
  }

  lemma {:induction false} ClaimedHas(claims: seq<Claims>, i: nat, a: nat)
    requires i < |claims| && a < |claims[i]|
    ensures claims[i][a] <= Claimed(claims, a)
    decreases |claims|
  {
    if i < |claims| - 1 {
      ClaimedHas(claims[..|claims| - 1], i, a);
    }
  }

  // Widening to all groups gives back the kernel's own range.
  lemma WholePiece(r: NDRange, s: NDRange, d: nat)
    requires Inside(s, r, d) && r.origGlobal == r.global
    ensures Piece(s, d, r.offset[d], r.global[d]) == r
  {
    assert s.global[d := r.global[d]] == r.global;
    assert s.offset[d := r.offset[d]] == r.offset;
  }

  lemma DifferenceEmpty(a: set<nat>, b: set<nat>)
    ensures a - b == {} <==> a <= b
  {
    if a - b == {} {
      forall x | x in a ensures x in b {
        assert x !in a - b;
      }
    }
  }

  class SubKernelSchedInfo {
    const p: Problem
    var currentDim: nat
    var shiftingPartition: bool
    var shiftingDevice: nat
    var shiftingWgs: nat
    var partitionUnchanged: bool
    var nbPieces: nat
    var requiredSubNDRanges: Partition
    var shiftedSubNDRanges: Partition
    var shiftedDeviceIdInPartition: nat
    var partition: Partition             // the one set in the analysis
    var shiftDataRequired: seq<seq<ReadRegion>>
    var shiftDataWritten: seq<Claims>
    var fullWrittenRegion: seq<set<nat>> // one for each merge argument
    ghost var rounds: nat                // in which every device has had its turn

    ghost predicate Valid()
      reads this
    {
      && ProblemOk(p) && WholeCovers(p) && !partitionUnchanged
      && currentDim <= |p.dimOrder| && FirstAccepted(p, 0) == FirstAccepted(p, currentDim)
      && (p.requested == 1 ==> currentDim == 0 && !shiftingPartition)
      && (shiftingPartition ==> ShiftingOk() && RangesOk(shiftingDevice) && Saved(shiftingDevice))
    }

    // Pieces are being widened, device after device, and no round so far was enough.
    ghost predicate ShiftingOk()
      requires ProblemOk(p)
      reads this`currentDim, this`requiredSubNDRanges, this`shiftingDevice, this`shiftingWgs, this`fullWrittenRegion
      reads this`rounds
    {
      && currentDim < |p.dimOrder| && p.analysis.status(p.partition(currentDim)) == MERGE
      && requiredSubNDRanges == p.partition(currentDim)
      && shiftingDevice < p.requested && shiftingWgs == ShiftAt(p, currentDim, rounds)
      && FullsSaved() && NoneCovers(p, currentDim, rounds)
    }

    // The first k devices have their widened piece of this round.
    ghost predicate RangesOk(k: nat)
      requires DimOk(p, currentDim)
      reads this`currentDim, this`rounds, this`shiftedSubNDRanges
    {
      shiftedSubNDRanges == RangesAfter(p, currentDim, rounds, k)
    }

    // The analyses of the first k devices in this round are saved.
    ghost predicate Saved(k: nat)
      requires DimOk(p, currentDim) && k <= p.requested
      reads this`currentDim, this`rounds, this`shiftDataRequired, this`shiftDataWritten
    {
      && shiftDataWritten == ClaimsAfter(p, currentDim, rounds, k)
      && ReadsSaved(p, currentDim, rounds, k, shiftDataRequired)
    }

    ghost predicate FullsSaved()
      reads this`currentDim, this`fullWrittenRegion
    {
      var ps := p.partition(currentDim);
      var m := p.analysis.mergeArgs(ps);
      |fullWrittenRegion| == |m| && forall k :: 0 <= k < |m| ==>
        fullWrittenRegion[k] == FullWritten(p.analysis, ps, m[k], |ps|)
    }

    // A partition has been set in the analysis.
    ghost predicate Chosen()
      reads this
    {
      && ProblemOk(p) && WholeCovers(p) && nbPieces > 0
      && (nbPieces == 1 ==> !shiftingPartition && (p.requested == 1 || FirstAccepted(p, 0) == |p.dimOrder|))
      && (nbPieces > 1 ==>
           && p.requested > 1 && currentDim < |p.dimOrder| && FirstAccepted(p, 0) == FirstAccepted(p, currentDim)
           && (!shiftingPartition ==> partition == requiredSubNDRanges == p.partition(currentDim)))
      && (shiftingPartition ==> nbPieces > 1 && TurnChosen())
    }

    // It is the one of the shifting device.
    ghost predicate TurnChosen()
      requires ProblemOk(p)
      reads this
    {
      && ShiftingOk() && RangesOk(shiftingDevice + 1) && Saved(shiftingDevice)
      && partition == TurnPartition(p, currentDim, shiftingDevice, rounds)
      && shiftedDeviceIdInPartition == TurnId(p, currentDim, shiftingDevice, rounds)
    }

    constructor (p: Problem)
      requires ProblemOk(p) && WholeCovers(p)
      ensures this.p == p && Valid()
    {
      this.p := p;
      currentDim, shiftingPartition, shiftingDevice, shiftingWgs := 0, false, 0, 0;
      partitionUnchanged, nbPieces, rounds := false, p.requested, 0;
      requiredSubNDRanges, shiftedSubNDRanges, shiftedDeviceIdInPartition, partition := [], [], 0, [];
      shiftDataRequired, shiftDataWritten, fullWrittenRegion := [], [], [];
    }

    // The part of getIndirectionRegions that chooses the next partition.
    method ChoosePartition()
      requires Valid()
      modifies this
      ensures Chosen()
      ensures nbPieces > 1 ==> currentDim == old(currentDim)
      ensures shiftingPartition == old(shiftingPartition)
      ensures shiftingDevice == old(shiftingDevice) && shiftingWgs == old(shiftingWgs)
    {
      if shiftingPartition {
        nbPieces := p.requested;
        partitionUnchanged := true;
        ShiftDevice();
      } else {
        ChoosePieces();
      }
    }

    // The pieces of the dimension, or the whole range for a single device when no dimension is left; a dimension that is
    // being shifted is always one of the order.
    method ChoosePieces()
      requires Valid() && !shiftingPartition
      modifies this`currentDim, this`partition, this`nbPieces, this`requiredSubNDRanges
      ensures Chosen() && (nbPieces > 1 ==> currentDim == old(currentDim))
    {
      var single := currentDim >= |p.dimOrder|;
      if single {
        currentDim := 0;
      }
      partition := if single then [p.range] else p.partition(currentDim);
      nbPieces := |partition|;
      requiredSubNDRanges := partition;
    }

    // Sets the partition with the piece of the shifting device widened.
    method ShiftDevice()
      requires ProblemOk(p) && ShiftingOk() && RangesOk(shiftingDevice) && Saved(shiftingDevice)
      modifies this`partition, this`shiftedDeviceIdInPartition, this`shiftedSubNDRanges
      ensures TurnChosen()
    {
      var d, s := p.dimOrder[currentDim], requiredSubNDRanges[shiftingDevice];
      assert Inside(s, p.range, d);
      partition, shiftedDeviceIdInPartition := GetShiftedPartition(p.range, s, d, shiftingWgs);
      shiftedSubNDRanges := shiftedSubNDRanges[shiftingDevice := partition[shiftedDeviceIdInPartition]];
      RangesNext(p, currentDim, rounds, shiftingDevice);
    }

    // The regions read by the widened piece replace what the device reads, and those written by it are added to what the
    // device claims.
    method SaveAnalysis()
      requires ProblemOk(p) && TurnChosen()
      modifies this`shiftDataRequired, this`shiftDataWritten
      ensures ShiftingOk() && RangesOk(shiftingDevice + 1) && Saved(shiftingDevice + 1)
    {
      SaveReads();
      SaveClaims();
      ClaimsNext(p, currentDim, rounds, shiftingDevice);
    }

    method SaveReads()
      requires ProblemOk(p) && TurnChosen()
      modifies this`shiftDataRequired
      ensures ReadsSaved(p, currentDim, rounds, shiftingDevice + 1, shiftDataRequired)
    {
      var readData := shiftDataRequired[shiftingDevice];
      for a := 0 to p.nbGlobals
        invariant |readData| == p.nbGlobals
        invariant forall b :: 0 <= b < a ==> readData[b] == ReadIn(p.analysis, partition, shiftedDeviceIdInPartition, b)
      {
        readData := readData[a := ReadRegion(p.analysis.read(partition, shiftedDeviceIdInPartition, a), false)];
        if !p.analysis.readKnown(partition, a) {
          readData := readData[a := readData[a].(undefined := true)];
        }
      }
      assert readData == ReadsOf(p, currentDim, shiftingDevice, rounds);
      shiftDataRequired := shiftDataRequired[shiftingDevice := readData];
    }

    method SaveClaims()
      requires ProblemOk(p) && TurnChosen()
      modifies this`shiftDataWritten
      ensures shiftDataWritten
           == ClaimsAfter(p, currentDim, rounds, shiftingDevice)[shiftingDevice := ClaimsOf(p, currentDim, shiftingDevice, rounds + 1)]
    {
      var claims := shiftDataWritten[shiftingDevice];
      for a := 0 to p.nbGlobals
        invariant |claims| == p.nbGlobals
        invariant forall b :: 0 <= b < a ==> claims[b] == ClaimAfter(p, currentDim, shiftingDevice, b, rounds + 1)
        invariant forall b :: a <= b < p.nbGlobals ==> claims[b] == ClaimAfter(p, currentDim, shiftingDevice, b, rounds)
      {
        claims := claims[a := claims[a] + p.analysis.written(partition, shiftedDeviceIdInPartition, a)];
      }
      assert claims == ClaimsOf(p, currentDim, shiftingDevice, rounds + 1);
      shiftDataWritten := shiftDataWritten[shiftingDevice := claims];
    }

    // Do the claims cover the full written region of every merge argument?
    method CheckShift() returns (shiftDone: bool)
      requires ProblemOk(p) && ShiftingOk()
      ensures shiftDone <==> ClaimsCover(p, currentDim, shiftDataWritten)
    {
      var mergeArgs := p.analysis.mergeArgs(p.partition(currentDim));
      shiftDone := true;
      for k := 0 to |mergeArgs|
        invariant shiftDone <==> forall j :: 0 <= j < k ==> fullWrittenRegion[j] <= Claimed(shiftDataWritten, mergeArgs[j])
      {
        var difference := fullWrittenRegion[k] - Claimed(shiftDataWritten, mergeArgs[k]);
        DifferenceEmpty(fullWrittenRegion[k], Claimed(shiftDataWritten, mergeArgs[k]));
        if difference != {} {
          shiftDone := false;
        }
      }
    }

    // The MERGE case: start widening the pieces.
    method StartShifting()
      requires Chosen() && nbPieces > 1 && !shiftingPartition && p.analysis.status(partition) == MERGE
      modifies this
      ensures ProblemOk(p) && WholeCovers(p) && ShiftingOk() && shiftingPartition
      ensures rounds == shiftingDevice == 0 && RangesOk(0) && Saved(0)
      ensures currentDim == old(currentDim) && partitionUnchanged == old(partitionUnchanged)
    {
      shiftingPartition := true;
      shiftingDevice, rounds := 0, 0;
      shiftingWgs := InitialShift();
      ForgetAnalyses();
      fullWrittenRegion := SaveFulls();
    }

    method InitialShift() returns (wgs: nat)
      requires DimOk(p, currentDim)
      ensures wgs == ShiftAt(p, currentDim, 0)
    {
      if p.shiftInit > 0 {
        return p.shiftInit;
      }
      wgs := p.range.global[p.dimOrder[currentDim]] / p.range.local[p.dimOrder[currentDim]] / 100;
      wgs := if wgs > 0 then wgs else 1;
    }

    // Nothing is widened, read or claimed yet.
    method ForgetAnalyses()
      requires DimOk(p, currentDim) && rounds == 0 && requiredSubNDRanges == p.partition(currentDim)
      modifies this`shiftedSubNDRanges, this`shiftDataRequired, this`shiftDataWritten
      ensures RangesOk(0) && Saved(0)
    {
      shiftedSubNDRanges := requiredSubNDRanges;
      shiftDataRequired := NoReads(p.requested, p.nbGlobals);
      shiftDataWritten := NoClaims(p.requested, p.nbGlobals);
      NothingClaimed(p, currentDim);
    }

    // The full written region of every merge argument.
    method SaveFulls() returns (saved: seq<set<nat>>)
      ensures var m := p.analysis.mergeArgs(partition);
        |saved| == |m| && forall j :: 0 <= j < |m| ==> saved[j] == FullWritten(p.analysis, partition, m[j], |partition|)
    {
      var mergeArgs := p.analysis.mergeArgs(partition);
      saved := [];
      for k := 0 to |mergeArgs|
        invariant |saved| == k
        invariant forall j :: 0 <= j < k ==> saved[j] == FullWritten(p.analysis, partition, mergeArgs[j], |partition|)
      {
        saved := saved + [FullWritten(p.analysis, partition, mergeArgs[k], |partition|)];
      }
    }

    // Work-groups the shift still has to grow by.
    ghost function GroupsLeft(): nat
      reads this
    {
      if ProblemOk(p) && shiftingPartition && currentDim < |p.dimOrder| && shiftingWgs < Groups(p, currentDim)
      then Groups(p, currentDim) - shiftingWgs else 0
    }

    // What is left of the negotiation: dimensions, the start of a shift, groups, devices.
    ghost predicate Less(dim: nat, shifting: bool, left: nat, device: nat)
      reads this
    {
      || currentDim > dim
      || (currentDim == dim && shiftingPartition && !shifting)
      || (currentDim == dim && shiftingPartition && shifting && GroupsLeft() < left)
      || (currentDim == dim && shiftingPartition && shifting && GroupsLeft() == left && shiftingDevice > device)
    }

    /** setIndirectionValues: accepts the partition, or moves on to the next dimension, device or shift. */
    method SetIndirectionValues() returns (done: bool, o: Outcome)
      requires Chosen()
      modifies this
      ensures ProblemOk(p) && (old(nbPieces) == 1 ==> done)
      ensures done ==> Accepted(p, o)
      ensures !done ==> Valid() && Less(old(currentDim), old(shiftingPartition), old(GroupsLeft()), old(shiftingDevice))
    {
      o := Single;
      partitionUnchanged := false;
      var st := p.analysis.status(partition);

      // Single device, the analysis status does not matter.
      if nbPieces == 1 && !shiftingPartition {
        return true, Single;
      }
      if shiftingPartition {
        done, o := ContinueShifting();
        return;
      }
      match st
      case FAIL =>
        currentDim := currentDim + 1;
        return false, o;
      case MERGE =>
        StartShifting();
        return false, o;
      case SUCCESS =>
        return true, Multi(currentDim);
    }

    method ContinueShifting() returns (done: bool, o: Outcome)
      requires Chosen() && shiftingPartition && !partitionUnchanged
      modifies this
      ensures ProblemOk(p)
      ensures done ==> Accepted(p, o)
      ensures !done ==> Valid() && Less(old(currentDim), old(shiftingPartition), old(GroupsLeft()), old(shiftingDevice))
    {
      SaveAnalysis();
      if shiftingDevice == p.requested - 1 {
        done, o := EndRound();
        return;
      }
      shiftingDevice := shiftingDevice + 1;
      return false, Single;
    }

    // After the turn of the last device.
    method EndRound() returns (done: bool, o: Outcome)
      requires ProblemOk(p) && WholeCovers(p) && ShiftingOk() && shiftingDevice == p.requested - 1
      requires RangesOk(p.requested) && Saved(p.requested)
      modifies this`shiftingPartition, this`shiftingDevice, this`shiftingWgs, this`shiftDataRequired, this`rounds
      ensures done ==> FirstCovering(p, currentDim, old(rounds) + 1) && ShiftedFor(p, currentDim, old(rounds) + 1, o)
      ensures !done ==>
        && shiftingPartition == old(shiftingPartition) && ShiftingOk() && RangesOk(0) && Saved(0) && shiftingDevice == 0
        && shiftingWgs > old(shiftingWgs) && old(shiftingWgs) < Groups(p, currentDim)
    {
      var shiftDone := CheckShift();
      if shiftDone {
        o := Shifted(currentDim, shiftedSubNDRanges, shiftDataRequired, shiftDataWritten);
        RoundAccepted(o);
        shiftingPartition := false;
        return true, o;
      }
      RoundRejected();
      NextRound();
      return false, Single;
    }

    // What the check after a round shows.
    lemma RoundAccepted(o: Outcome)
      requires ProblemOk(p) && ShiftingOk() && RangesOk(p.requested) && Saved(p.requested)
      requires ClaimsCover(p, currentDim, shiftDataWritten)
      requires o == Shifted(currentDim, shiftedSubNDRanges, shiftDataRequired, shiftDataWritten)
      ensures FirstCovering(p, currentDim, rounds + 1) && ShiftedFor(p, currentDim, rounds + 1, o)
    {
      RoundOver(p, currentDim, rounds);
    }

    lemma RoundRejected()
      requires ProblemOk(p) && WholeCovers(p) && ShiftingOk() && Saved(p.requested)
      requires !ClaimsCover(p, currentDim, shiftDataWritten)
      ensures shiftingWgs < Groups(p, currentDim) && NoneCovers(p, currentDim, rounds + 1)
    {
      RoundOver(p, currentDim, rounds);
      if shiftingWgs >= Groups(p, currentDim) {
        WholeShiftCovers(p, currentDim, rounds);
      }
    }

    // The claims do not cover yet: all devices get another turn with a wider shift.
    method NextRound()
      requires ProblemOk(p) && ShiftingOk() && shiftingDevice == p.requested - 1
      requires RangesOk(p.requested) && Saved(p.requested) && NoneCovers(p, currentDim, rounds + 1)
      modifies this`shiftingDevice, this`shiftingWgs, this`shiftDataRequired, this`rounds
      ensures ShiftingOk() && shiftingDevice == 0 && rounds == old(rounds) + 1 && RangesOk(0) && Saved(0)
      ensures shiftingWgs > old(shiftingWgs)
    {
      RoundOver(p, currentDim, rounds);
      shiftingDevice := 0;
      shiftingWgs := if p.shiftStep > 0 then shiftingWgs + p.shiftStep else shiftingWgs * 2;
      shiftDataRequired := NoReads(p.requested, p.nbGlobals);
      rounds := rounds + 1;
    }

    // One turn of the driver's loop.
    method Turn() returns (done: bool, o: Outcome)
      requires Valid()
      modifies this
      ensures ProblemOk(p)
      ensures done ==> Accepted(p, o)
      ensures !done ==> Valid() && Less(old(currentDim), old(shiftingPartition), old(GroupsLeft()), old(shiftingDevice))
    {
      ChoosePartition();
      done, o := SetIndirectionValues();
    }
  }

  // With the whole range as the widened piece of the last device, the claims do cover.
  lemma WholeShiftCovers(p: Problem, i: nat, n: nat)
    requires DimOk(p, i) && WholeCovers(p) && ShiftAt(p, i, n) >= Groups(p, i)
    ensures Covers(p, i, n + 1)
  {
    var d, s, claims := p.dimOrder[i], p.partition(i)[0], ClaimsAfter(p, i, n + 1, 0);
    assert Inside(s, p.range, d);
    ShiftedWithin(p.range, s, d, ShiftAt(p, i, n));
    WholePiece(p.range, s, d);
    assert TurnPartition(p, i, 0, n) == [p.range] && TurnId(p, i, 0, n) == 0;
    forall a | a in p.analysis.mergeArgs(p.partition(i))
      ensures FullWritten(p.analysis, p.partition(i), a, |p.partition(i)|) <= Claimed(claims, a)
    {
      assert claims[0] == ClaimsOf(p, i, 0, n + 1);
      ClaimedHas(claims, 0, a);
    }
  }

  /** The loop of enqueueNDRangeKernel ends: with the pieces of the first dimension that is not rejected, run as they
      are when their writes are disjoint, and otherwise widened until the devices' claims cover everything the
      pieces write; or with one device when every dimension is rejected. */
  method Negotiate(p: Problem) returns (o: Outcome)
    requires ProblemOk(p) && WholeCovers(p)
    ensures Accepted(p, o)
  {
    var info := new SubKernelSchedInfo(p);
    var done;
    done, o := info.Turn();
    while !done
      invariant info.p == p && (!done ==> info.Valid()) && (done ==> Accepted(p, o))
      decreases !done, |p.dimOrder| - info.currentDim, !info.shiftingPartition, info.GroupsLeft(), p.requested - info.shiftingDevice
    {
      done, o := info.Turn();
    }
  }
}
