/** Interval evaluation of index expressions (LibKernelExpr/src/IndexExpr/IndexExpr.cpp).
    `long` is a mathematical integer and floating-point arithmetic is exact. */
module Bounds {
  import opened IndexExprs

  type Num = Val<real>
  type Tree = Expr<real>

  // Missing: the bounds are unknown. Undefined: an assertion fails or the arithmetic has no meaning.
  datatype Bounds = Missing | Undefined | Range(lb: Num, hb: Num)

  // ---- Arithmetic of C++ on exact numbers ----

  function Trunc(x: real): int {
    if x >= 0.0 then x.Floor else -((-x).Floor)
  }

  // Truncating integer division and its remainder.
  function Quot(a: int, b: int): int
    requires b != 0
  {
    Trunc(a as real / b as real)
  }

  function Rem(a: int, b: int): int
    requires b != 0
  {
    a - b * Quot(a, b)
  }

  function Pow2(n: nat): (r: int)
    ensures r > 0
  {
    if n == 0 then 1 else 2 * Pow2(n - 1)
  }

  // Two's complement bit operations, bit by bit.
  function BitOp(op: BinOp, a: int, b: int): int
    requires op in {Or, Xor, And}
    decreases if a >= 0 then a else -a, if b >= 0 then b else -b
  {
    if a in {0, -1} && b in {0, -1} then
      match op
      case Or => if a == -1 || b == -1 then -1 else 0
      case Xor => if a == b then 0 else -1
      case _ => if a == -1 && b == -1 then -1 else 0
    else 2 * BitOp(op, a / 2, b / 2) + Bit(op, a % 2, b % 2)
  }

  function Bit(op: BinOp, a: int, b: int): int {
    match op
    case Or => if a == 1 || b == 1 then 1 else 0
    case Xor => if a == b then 0 else 1
    case _ => if a == 1 && b == 1 then 1 else 0
  }

  // The value of a binary operator, if it has one.
  function LongOp(op: BinOp, a: int, b: int): Option<int> {
    match op
    case Add => Some(a + b)
    case Sub => Some(a - b)
    case Mul => Some(a * b)
    case Div => if b == 0 then None else Some(Quot(a, b))
    case Mod => if b == 0 then None else Some(Rem(a, b))
    case Shl => if b < 0 then None else Some(a * Pow2(b))
    case Shr => if b < 0 then None else Some(a / Pow2(b))
    case _ => Some(BitOp(op, a, b))
  }

  function RealOp(op: BinOp, a: real, b: real): Option<real> {
    match op
    case Add => Some(a + b)
    case Sub => Some(a - b)
    case Mul => Some(a * b)
    case Div => if b == 0.0 then None else Some(a / b)
    case _ => None
  }

  function BinopValue(op: BinOp, x: Num, y: Num): Option<Num> {
    match (x, y)
    case (Long(a), Long(b)) => (var r := LongOp(op, a, b); if r.None? then None else Some(Long(r.value)))
    case (Float(a), Float(b)) => (var r := RealOp(op, a, b); if r.None? then None else Some(Float(r.value)))
    case (Double(a), Double(b)) => (var r := RealOp(op, a, b); if r.None? then None else Some(Double(r.value)))
    case _ => None
  }

  function CastValue(c: CastOp, x: Num): Option<Num> {
    match (c, x)
    case (F2D, Float(r)) => Some(Double(r))
    case (D2F, Double(r)) => Some(Float(r))
    case (I2F, Long(n)) => Some(Float(n as real))
    case (F2I, Float(r)) => Some(Long(Trunc(r)))
    case (I2D, Long(n)) => Some(Double(n as real))
    case (D2I, Double(r)) => Some(Long(Trunc(r)))
    case (FLOOR, Float(r)) => Some(Long(r.Floor))
    case (FLOOR, Double(r)) => Some(Long(r.Floor))
    case _ => None
  }

  // ---- Comparison of numbers of the same type ----

  predicate SameType(x: Num, y: Num) {
    (x.Long? <==> y.Long?) && (x.Float? <==> y.Float?)
  }

  predicate Le(x: Num, y: Num) {
    match (x, y)
    case (Long(a), Long(b)) => a <= b
    case (Float(a), Float(b)) => a <= b
    case (Double(a), Double(b)) => a <= b
    case _ => false
  }

  function Least(x: Num, y: Num): Num {
    if Le(x, y) then x else y
  }

  function Greatest(x: Num, y: Num): Num {
    if Le(x, y) then y else x
  }

  // ---- Corner rules of computeBinopBounds ----

  function MinOf(a: int, b: int): int { if a < b then a else b }
  function MaxOf(a: int, b: int): int { if a > b then a else b }
  function RMin(a: real, b: real): real { if a < b then a else b }
  function RMax(a: real, b: real): real { if a > b then a else b }

  function Min4(a: int, b: int, c: int, d: int): int { MinOf(MinOf(a, b), MinOf(c, d)) }
  function Max4(a: int, b: int, c: int, d: int): int { MaxOf(MaxOf(a, b), MaxOf(c, d)) }
  function RMin4(a: real, b: real, c: real, d: real): real { RMin(RMin(a, b), RMin(c, d)) }
  function RMax4(a: real, b: real, c: real, d: real): real { RMax(RMax(a, b), RMax(c, d)) }

  // The least and greatest product of an end of each interval.
  function Corners(lb1: int, hb1: int, lb2: int, hb2: int): (int, int) {
    (Min4(lb1 * lb2, lb1 * hb2, hb1 * lb2, hb1 * hb2), Max4(lb1 * lb2, lb1 * hb2, hb1 * lb2, hb1 * hb2))
  }

  function RealCorners(lb1: real, hb1: real, lb2: real, hb2: real): (real, real) {
    (RMin4(lb1 * lb2, lb1 * hb2, hb1 * lb2, hb1 * hb2), RMax4(lb1 * lb2, lb1 * hb2, hb1 * lb2, hb1 * hb2))
  }

  // The least and greatest right shift of an end of one interval by an end of the other.
  function ShiftCorners(lb1: int, hb1: int, lb2: nat, hb2: nat): (int, int) {
    (Min4(lb1 / Pow2(lb2), lb1 / Pow2(hb2), hb1 / Pow2(lb2), hb1 / Pow2(hb2)),
     Max4(lb1 / Pow2(lb2), lb1 / Pow2(hb2), hb1 / Pow2(lb2), hb1 / Pow2(hb2)))
  }

  // Bounds of `long` operands; None when an assertion fails or the arithmetic has no meaning.
  function LongBounds(op: BinOp, lb1: int, hb1: int, lb2: int, hb2: int): (r: Option<(int, int)>)
    ensures r.Some? ==> r.value.0 <= r.value.1
  {
    if lb1 > hb1 || lb2 > hb2 then None
    else
      var r: Option<(int, int)> := match op
        case Add => Some((lb1 + lb2, hb1 + hb2))
        case Sub => Some((lb1 - hb2, hb1 - lb2))
        case Mul => Some(Corners(lb1, hb1, lb2, hb2))
        case Div =>
          if lb2 == 0 || hb2 == 0 then None
          else
            var (lo, hi) := DivCorners(lb1 as real, hb1 as real, lb2 as real, hb2 as real);
            Some((Trunc(lo), Trunc(hi)))
        case Mod => Some((if hb1 >= lb2 then 0 else lb1, if hb1 >= hb2 then hb2 - 1 else hb1))
        case Shl =>
          if lb2 < 0 then None
          else Some(Corners(lb1, hb1, Pow2(lb2), Pow2(hb2)))
        case Shr =>
          if lb2 < 0 then None
          else Some(ShiftCorners(lb1, hb1, lb2, hb2))
        case _ => Some((BitOp(op, lb1, lb2), BitOp(op, hb1, hb2)));
      if r.Some? && r.value.0 <= r.value.1 then r else None
  }

  // [lb1, hb1] times the interval of inverses [1/hb2, 1/lb2].
  function DivCorners(lb1: real, hb1: real, lb2: real, hb2: real): (real, real)
    requires lb2 != 0.0 && hb2 != 0.0
  {
    RealCorners(lb1, hb1, 1.0 / hb2, 1.0 / lb2)
  }

  function RealBounds(op: BinOp, lb1: real, hb1: real, lb2: real, hb2: real): (r: Option<(real, real)>)
    ensures r.Some? ==> r.value.0 <= r.value.1
  {
    if lb1 > hb1 || lb2 > hb2 then None
    else
      var r: Option<(real, real)> := match op
        case Add => Some((lb1 + lb2, hb1 + hb2))
        case Sub => Some((lb1 - hb2, hb1 - lb2))
        case Mul => Some(RealCorners(lb1, hb1, lb2, hb2))
        case Div => if lb2 == 0.0 || hb2 == 0.0 then None else Some(DivCorners(lb1, hb1, lb2, hb2))
        case Mod => Some((if hb1 >= lb2 then 0.0 else lb1, if hb1 >= hb2 then hb2 - 1.0 else hb1))
        case _ => None;
      if r.Some? && r.value.0 <= r.value.1 then r else None
  }

  function BinopBounds(op: BinOp, b1: Bounds, b2: Bounds): Bounds
    requires b1.Range? && b2.Range?
  {
    match (b1, b2)
    case (Range(Long(l1), Long(h1)), Range(Long(l2), Long(h2))) =>
      (var r := LongBounds(op, l1, h1, l2, h2); if r.None? then Undefined else Range(Long(r.value.0), Long(r.value.1)))
    case (Range(Float(l1), Float(h1)), Range(Float(l2), Float(h2))) =>
      (var r := RealBounds(op, l1, h1, l2, h2); if r.None? then Undefined else Range(Float(r.value.0), Float(r.value.1)))
    case (Range(Double(l1), Double(h1)), Range(Double(l2), Double(h2))) =>
      (var r := RealBounds(op, l1, h1, l2, h2); if r.None? then Undefined else Range(Double(r.value.0), Double(r.value.1)))
    case _ => Undefined
  }

  // The hull of two ranges of the same type.
  function HullBounds(b1: Bounds, b2: Bounds): Bounds
    requires b1.Range? && b2.Range?
  {
    if Le(b1.lb, b1.hb) && Le(b2.lb, b2.hb) && SameType(b1.lb, b2.lb)
    then Range(Least(b1.lb, b2.lb), Greatest(b1.hb, b2.hb))
    else Undefined
  }

  // The pointwise minimum (maximum) of two ranges of the same type.
  function FoldBounds(least: bool, b1: Bounds, b2: Bounds): Bounds
    requires b1.Range? && b2.Range?
  {
    if Le(b1.lb, b1.hb) && Le(b2.lb, b2.hb) && SameType(b1.lb, b2.lb)
    then if least then Range(Least(b1.lb, b2.lb), Least(b1.hb, b2.hb))
         else Range(Greatest(b1.lb, b2.lb), Greatest(b1.hb, b2.hb))
    else Undefined
  }

  function CastBounds(c: CastOp, b: Bounds): Bounds
    requires b.Range?
  {
    var lb, hb := CastValue(c, b.lb), CastValue(c, b.hb);
    if lb.None? || hb.None? then Undefined else Range(lb.value, hb.value)
  }

  // Either every operand of a Min or Max node has a range, or the first one without a range decides.
  datatype Operands = Stopped(b: Bounds) | Ranges(bs: seq<Bounds>)

  // The fold of computeMinBounds and computeMaxBounds; a node without operands has no bounds.
  function FoldRanges(least: bool, bs: seq<Bounds>): (r: Bounds)
    requires forall i :: 0 <= i < |bs| ==> bs[i].Range?
    ensures !r.Missing?
  {
    if |bs| == 0 then Undefined
    else if |bs| == 1 then (if Le(bs[0].lb, bs[0].hb) then bs[0] else Undefined)
    else
      var b := FoldRanges(least, bs[..|bs| - 1]);
      if !b.Range? then Undefined else FoldBounds(least, b, bs[|bs| - 1])
  }

  /** computeBoundsRec */
  function ComputeBounds(e: Tree): Bounds
    decreases e
  {
    match e
    case Arg(_, _, value) => if value.None? then Missing else Range(value.value, value.value)
    case Value(v) => Range(v, v)
    case Binop(op, e1, e2) =>
      var b1 := ComputeBounds(e1);
      if !b1.Range? then b1 else
      var b2 := ComputeBounds(e2);
      if !b2.Range? then b2 else BinopBounds(op, b1, b2)
    case Interval(lo, hi) =>
      var b1 := ComputeBounds(lo);
      if !b1.Range? then b1 else
      var b2 := ComputeBounds(hi);
      if !b2.Range? then b2 else HullBounds(b1, b2)
    case Indir(_, lo, hi) =>
      var b1 := ComputeBounds(lo);
      if !b1.Range? then b1 else
      var b2 := ComputeBounds(hi);
      if !b2.Range? then b2 else HullBounds(b1, b2)
    case Min(es) => (var o := ComputeOperands(es); if o.Stopped? then o.b else FoldRanges(true, o.bs))
    case Max(es) => (var o := ComputeOperands(es); if o.Stopped? then o.b else FoldRanges(false, o.bs))
    case Lb(e) => (var b := ComputeBounds(e); if !b.Range? then b else if Le(b.lb, b.hb) then Range(b.lb, b.lb)
      else Undefined)
    case Hb(e) => (var b := ComputeBounds(e); if !b.Range? then b else if Le(b.lb, b.hb) then Range(b.hb, b.hb)
      else Undefined)
    case Cast(c, e) => (var b := ComputeBounds(e); if !b.Range? then b else CastBounds(c, b))
    case _ => Missing
  }

  // The operands of a Min or Max node, first to last.
  function ComputeOperands(es: seq<Tree>): (o: Operands)
    ensures o.Ranges? ==> |o.bs| == |es| && forall i :: 0 <= i < |o.bs| ==> o.bs[i].Range?
    ensures o.Stopped? ==> !o.b.Range?
    decreases es
  {
    if |es| == 0 then Ranges([])
    else
      var o := ComputeOperands(es[..|es| - 1]);
      if o.Stopped? then o else
      var b := ComputeBounds(es[|es| - 1]);
      if !b.Range? then Stopped(b) else Ranges(o.bs + [b])
  }

  // computeBounds: the bounds must be of type long.
  function ComputeLongBounds(e: Tree): (r: Bounds)
    ensures r.Range? ==> r.lb.Long? && r.hb.Long?
  {
    var b := ComputeBounds(e);
    if b.Range? && !(b.lb.Long? && b.hb.Long?) then Undefined else b
  }

  // ---- The loops over operands ----

  // computeMinBounds and computeMaxBounds.
  method FoldOperands(least: bool, bs: seq<Bounds>) returns (b: Bounds)
    requires forall i :: 0 <= i < |bs| ==> bs[i].Range?
    ensures b == FoldRanges(least, bs)
  {
    if |bs| == 0 {
      return Undefined;
    }
    b := if Le(bs[0].lb, bs[0].hb) then bs[0] else Undefined;
    assert bs[..1] == [bs[0]];
    for i := 1 to |bs|
      invariant b == FoldRanges(least, bs[..i])
    {
      assert bs[..i + 1][..i] == bs[..i];
      b := if !b.Range? then Undefined else FoldBounds(least, b, bs[i]);
    }
    assert bs[..|bs|] == bs;
  }

  // The MIN and MAX cases of computeBoundsRec: the operands are evaluated until one has no bounds.
  method EvaluateOperands(es: seq<Tree>) returns (o: Operands)
    ensures o == ComputeOperands(es)
  {
    var bs: seq<Bounds> := [];
    for i := 0 to |es|
      invariant forall k :: 0 <= k < |bs| ==> bs[k].Range?
      invariant ComputeOperands(es[..i]) == Ranges(bs)
    {
      var b := ComputeBounds(es[i]);
      OperandsNext(es, i);
      if !b.Range? {
        OperandsStop(es, i + 1);
        return Stopped(b);
      }
      bs := bs + [b];
    }
    assert es[..|es|] == es;
    return Ranges(bs);
  }

  lemma OperandsNext(es: seq<Tree>, i: nat)
    requires i < |es|
    ensures var o, b := ComputeOperands(es[..i]), ComputeBounds(es[i]);
      ComputeOperands(es[..i + 1]) == if o.Stopped? then o else if !b.Range? then Stopped(b) else Ranges(o.bs + [b])
  {
    assert es[..i + 1][..i] == es[..i];
  }

  // Once an operand has stopped the evaluation, later ones do not matter.
  lemma {:induction false} OperandsStop(es: seq<Tree>, i: nat)
    requires i <= |es| && ComputeOperands(es[..i]).Stopped?
    ensures ComputeOperands(es) == ComputeOperands(es[..i])
    decreases |es| - i
  {
    if i == |es| {
      assert es[..i] == es;
    } else {
      OperandsNext(es, i);
      OperandsStop(es, i + 1);
    }
  }
}
