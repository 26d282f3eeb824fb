/** The binary form of index expressions, guards, argument and kernel analyses (the write and open functions of
    LibKernelExpr/src). Numbers are little-endian; floating-point constants are kept as their bit patterns. */
module Serialisation {
  import opened IndexExprs
  import opened Words

  type Octet = x: nat | x < 256

  // ---- Numbers ----

  function Radix(w: nat): (r: nat)
    ensures r > 0
  {
    if w == 0 then 1 else 256 * Radix(w - 1)
  }

  // The w low bytes of n, lowest first.
  function Bytes(n: nat, w: nat): (s: seq<Octet>)
    ensures |s| == w
  {
    if w == 0 then [] else [n % 256] + Bytes(n / 256, w - 1)
  }

  function Number(s: seq<Octet>): nat {
    if s == [] then 0 else s[0] + 256 * Number(s[1..])
  }

  lemma {:induction false} NumberOfBytes(n: nat, w: nat)
    requires n < Radix(w)
    ensures Number(Bytes(n, w)) == n
  {
    if w == 0 {
    } else {
      NumberOfBytes(n / 256, w - 1);
    }
  }

  // ---- Reading ----

  // A value and the bytes after it, or a stream that ended or held an unknown code.
  datatype Parsed<T> = Bad | Parsed(value: T, rest: seq<Octet>)

  function Read(s: seq<Octet>, w: nat): (r: Parsed<nat>)
    ensures r.Parsed? ==> |r.rest| == |s| - w
  {
    if |s| < w then Bad else Parsed(Number(s[..w]), s[w..])
  }

  // Reading back a written number consumes exactly its bytes.
  lemma ReadWritten(n: nat, w: nat, t: seq<Octet>)
    requires n < Radix(w)
    ensures Read(Bytes(n, w) + t, w) == Parsed(n, t)
  {
    assert (Bytes(n, w) + t)[..w] == Bytes(n, w);
    NumberOfBytes(n, w);
  }

  lemma Radices()
    ensures Radix(1) == 256 && Radix(4) == 0x1_0000_0000 && Radix(8) == 0x1_0000_0000_0000_0000
  {
    assert Radix(2) == 0x1_0000;
    assert Radix(3) == 0x100_0000;
    assert Radix(5) == 0x100_0000_0000;
    assert Radix(6) == 0x1_0000_0000_0000;
    assert Radix(7) == 0x100_0000_0000_0000;
  }

  // ---- Codes ----

  function OpCode(op: BinOp): nat {
    match op
    case Add => 1 case Sub => 2 case Mul => 3 case Div => 4 case Mod => 5
    case Or => 6 case Xor => 7 case And => 8 case Shl => 9 case Shr => 10
  }

  function OpOf(n: nat): Option<BinOp> {
    if n == 1 then Some(Add) else if n == 2 then Some(Sub) else if n == 3 then Some(Mul) else if n == 4 then Some(Div)
    else if n == 5 then Some(Mod) else if n == 6 then Some(Or) else if n == 7 then Some(Xor) else if n == 8 then Some(And)
    else if n == 9 then Some(Shl) else if n == 10 then Some(Shr) else None
  }

  function FunCode(f: OclFunction): nat {
    match f
    case GlobalId => 0 case LocalId => 1 case GlobalSize => 2 case LocalSize => 3 case GroupId => 4 case NumGroups => 5
  }

  function FunOf(n: nat): Option<OclFunction> {
    if n == 0 then Some(GlobalId) else if n == 1 then Some(LocalId) else if n == 2 then Some(GlobalSize)
    else if n == 3 then Some(LocalSize) else if n == 4 then Some(GroupId) else if n == 5 then Some(NumGroups) else None
  }

  function CastCode(c: CastOp): nat {
    match c
    case F2D => 0 case D2F => 1 case I2F => 2 case F2I => 3 case I2D => 4 case D2I => 5 case FLOOR => 6
  }

  function CastOf(n: nat): Option<CastOp> {
    if n == 0 then Some(F2D) else if n == 1 then Some(D2F) else if n == 2 then Some(I2F) else if n == 3 then Some(F2I)
    else if n == 4 then Some(I2D) else if n == 5 then Some(D2I) else if n == 6 then Some(FLOOR) else None
  }

  function PredCode(p: Predicate): nat {
    match p
    case LT => 0 case LE => 1 case GE => 2 case GT => 3 case EQ => 4 case NEQ => 5
  }

  function PredOf(n: nat): Option<Predicate> {
    if n == 0 then Some(LT) else if n == 1 then Some(LE) else if n == 2 then Some(GE)
    else if n == 3 then Some(GT) else if n == 4 then Some(EQ) else if n == 5 then Some(NEQ) else None
  }

  lemma CodesRead(op: BinOp, f: OclFunction, c: CastOp, p: Predicate)
    ensures OpOf(OpCode(op)) == Some(op) && FunOf(FunCode(f)) == Some(f)
    ensures CastOf(CastCode(c)) == Some(c) && PredOf(PredCode(p)) == Some(p)
  {
  }

  // ---- Expressions ----

  type Stored = Expr<nat>

  function AsSigned(n: nat): int {
    if n < WORD / 2 then n else n - WORD
  }

  function Tag(e: Stored): nat {
    match e
    case Nil => 0 case Value(_) => 1 case Cast(_, _) => 2 case Arg(_, _, _) => 3 case Ocl(_, _) => 4 case Binop(_, _, _) => 5
    case Interval(_, _) => 6 case Unknown(_) => 7 case Min(_) => 8 case Max(_) => 9 case Lb(_) => 10 case Hb(_) => 11
    case Indir(_, _, _) => 12
  }

  function WriteValue(v: Val<nat>): seq<Octet> {
    match v
    case Long(n) => Bytes(0, 4) + Bytes(AsUnsigned(n), 8)
    case Float(f) => Bytes(1, 4) + Bytes(f, 4)
    case Double(d) => Bytes(2, 4) + Bytes(d, 8)
  }

  function WriteExpr(e: Stored): seq<Octet>
    decreases e
  {
    Bytes(Tag(e), 4) + WriteBody(e)
  }

  // What follows the tag.
  function WriteBody(e: Stored): seq<Octet>
    decreases e, 0
  {
    match e
    case Nil => []
    case Value(v) => WriteValue(v)
    case Cast(c, e1) => Bytes(CastCode(c), 4) + WriteExpr(e1)
    case Arg(_, pos, _) => Bytes(pos, 4)
    case Ocl(fun, dim) => Bytes(FunCode(fun), 4) + WriteExpr(dim)
    case Binop(op, e1, e2) => Bytes(OpCode(op), 4) + (WriteExpr(e1) + WriteExpr(e2))
    case Interval(lo, hi) => WriteExpr(lo) + WriteExpr(hi)
    case Unknown(_) => []
    case Min(es) => Bytes(|es|, 4) + WriteExprs(es)
    case Max(es) => Bytes(|es|, 4) + WriteExprs(es)
    case Lb(e1) => WriteExpr(e1)
    case Hb(e1) => WriteExpr(e1)
    case Indir(no, lo, hi) => Bytes(no, 4) + (WriteExpr(lo) + WriteExpr(hi))
  }

  function WriteExprs(es: seq<Stored>): seq<Octet>
    decreases es
  {
    if |es| == 0 then [] else WriteExpr(es[0]) + WriteExprs(es[1..])
  }

  function OpenValue(s: seq<Octet>): (r: Parsed<Val<nat>>)
    ensures r.Parsed? ==> |r.rest| <= |s|
  {
    var ty := Read(s, 4);
    if ty.Bad? then Bad
    else
      var n := Read(ty.rest, if ty.value == 1 then 4 else 8);
      if n.Bad? then Bad
      else if ty.value == 0 then Parsed(Long(AsSigned(n.value)), n.rest)
      else if ty.value == 1 then Parsed(Float(n.value), n.rest)
      else if ty.value == 2 then Parsed(Double(n.value), n.rest)
      else Bad
  }

  function OpenOne(s: seq<Octet>): (r: Parsed<Stored>)
    ensures r.Parsed? ==> |r.rest| < |s|
    decreases |s|, 0
  {
    var tag := Read(s, 4);
    if tag.Bad? then Bad else OpenBody(tag.value, tag.rest)
  }

  // What follows a tag; an unknown tag gives a null expression.
  function OpenBody(tag: nat, s: seq<Octet>): (r: Parsed<Stored>)
    ensures r.Parsed? ==> |r.rest| <= |s|
    decreases |s|, 2
  {
    if tag == 1 then
      var v := OpenValue(s);
      if v.Bad? then Bad else Parsed(Value(v.value), v.rest)
    else if tag == 2 then
      var c := Read(s, 4);
      if c.Bad? || CastOf(c.value).None? then Bad else
      var e := OpenOne(c.rest);
      if e.Bad? then Bad else Parsed(Cast(CastOf(c.value).value, e.value), e.rest)
    else if tag == 3 then
      var pos := Read(s, 4);
      if pos.Bad? then Bad else Parsed(Arg("arg", pos.value, None), pos.rest)
    else if tag == 4 then
      var f := Read(s, 4);
      if f.Bad? || FunOf(f.value).None? then Bad else
      var e := OpenOne(f.rest);
      if e.Bad? then Bad else Parsed(Ocl(FunOf(f.value).value, e.value), e.rest)
    else if tag == 5 then
      var op := Read(s, 4);
      if op.Bad? || OpOf(op.value).None? then Bad else
      var p := OpenTwo(op.rest);
      if p.Bad? then Bad else Parsed(Binop(OpOf(op.value).value, p.value.0, p.value.1), p.rest)
    else if tag == 6 then
      var p := OpenTwo(s);
      if p.Bad? then Bad else Parsed(Interval(p.value.0, p.value.1), p.rest)
    else if tag == 7 then Parsed(Unknown("unknown"), s)
    else if tag == 8 || tag == 9 then
      var n := Read(s, 4);
      if n.Bad? then Bad else
      var l := OpenList(n.rest, n.value);
      if l.Bad? then Bad else Parsed(if tag == 8 then Min(l.value) else Max(l.value), l.rest)
    else if tag == 10 || tag == 11 then
      var e := OpenOne(s);
      if e.Bad? then Bad else Parsed(if tag == 10 then Lb(e.value) else Hb(e.value), e.rest)
    else if tag == 12 then
      var no := Read(s, 4);
      if no.Bad? then Bad else
      var p := OpenTwo(no.rest);
      if p.Bad? then Bad else Parsed(Indir(no.value, p.value.0, p.value.1), p.rest)
    else Parsed(Nil, s)
  }

  function OpenTwo(s: seq<Octet>): (r: Parsed<(Stored, Stored)>)
    ensures r.Parsed? ==> |r.rest| < |s|
    decreases |s|, 1
  {
    var e1 := OpenOne(s);
    if e1.Bad? then Bad else
    var e2 := OpenOne(e1.rest);
    if e2.Bad? then Bad else Parsed((e1.value, e2.value), e2.rest)
  }

  function OpenList(s: seq<Octet>, n: nat): (r: Parsed<seq<Stored>>)
    ensures r.Parsed? ==> |r.rest| <= |s|
    decreases |s|, 1, n
  {
    if n == 0 then Parsed([], s)
    else
      var e := OpenOne(s);
      if e.Bad? then Bad else
      var l := OpenList(e.rest, n - 1);
      if l.Bad? then Bad else Parsed([e.value] + l.value, l.rest)
  }

  // ---- What is written ----

  predicate StorableValue(v: Val<nat>) {
    match v
    case Long(n) => -(WORD / 2) <= n < WORD / 2
    case Float(f) => f < Radix(4)
    case Double(d) => d < Radix(8)
  }

  // Every number of the tree fits its field.
  predicate Storable(e: Stored)
    decreases e
  {
    match e
    case Value(v) => StorableValue(v)
    case Arg(_, pos, _) => pos < Radix(4)
    case Cast(_, e1) => Storable(e1)
    case Ocl(_, dim) => Storable(dim)
    case Binop(_, e1, e2) => Storable(e1) && Storable(e2)
    case Interval(lo, hi) => Storable(lo) && Storable(hi)
    case Min(es) => |es| < Radix(4) && forall i :: 0 <= i < |es| ==> Storable(es[i])
    case Max(es) => |es| < Radix(4) && forall i :: 0 <= i < |es| ==> Storable(es[i])
    case Lb(e1) => Storable(e1)
    case Hb(e1) => Storable(e1)
    case Indir(no, lo, hi) => no < Radix(4) && Storable(lo) && Storable(hi)
    case _ => true
  }

  // Argument names, injected values and the labels of unknown nodes are not written.
  function Erase(e: Stored): Stored
    decreases e
  {
    match e
    case Arg(_, pos, _) => Arg("arg", pos, None)
    case Unknown(_) => Unknown("unknown")
    case Cast(c, e1) => Cast(c, Erase(e1))
    case Ocl(fun, dim) => Ocl(fun, Erase(dim))
    case Binop(op, e1, e2) => Binop(op, Erase(e1), Erase(e2))
    case Interval(lo, hi) => Interval(Erase(lo), Erase(hi))
    case Min(es) => Min(EraseAll(es))
    case Max(es) => Max(EraseAll(es))
    case Lb(e1) => Lb(Erase(e1))
    case Hb(e1) => Hb(Erase(e1))
    case Indir(no, lo, hi) => Indir(no, Erase(lo), Erase(hi))
    case _ => e
  }

  function EraseAll(es: seq<Stored>): seq<Stored>
    decreases es
  {
    if |es| == 0 then [] else [Erase(es[0])] + EraseAll(es[1..])
  }

  // ---- Round trips ----

  // The first number of a stream, whatever follows.
  lemma ReadFirst(n: nat, w: nat, a: seq<Octet>, t: seq<Octet>)
    requires n < Radix(w)
    ensures Read(Bytes(n, w) + a + t, w) == Parsed(n, a + t)
  {
    ReadWritten(n, w, a + t);
    assert Bytes(n, w) + a + t == Bytes(n, w) + (a + t);
  }

  lemma ValueRoundTrip(v: Val<nat>, t: seq<Octet>)
    requires StorableValue(v)
    ensures OpenValue(WriteValue(v) + t) == Parsed(v, t)
  {
    Radices();
    match v
    case Long(n) =>
      ReadFirst(0, 4, Bytes(AsUnsigned(n), 8), t);
      ReadWritten(AsUnsigned(n), 8, t);
      assert AsSigned(AsUnsigned(n)) == n by {
        assert AsUnsigned(n) == if n < 0 then n + WORD else n;
      }
    case Float(f) =>
      ReadFirst(1, 4, Bytes(f, 4), t);
      ReadWritten(f, 4, t);
    case Double(d) =>
      ReadFirst(2, 4, Bytes(d, 8), t);
      ReadWritten(d, 8, t);
  }

  /** Opening what was written rebuilds the expression, up to what is not written, and leaves exactly the bytes that
      followed it. */
  lemma {:induction false} ExprRoundTrip(e: Stored, t: seq<Octet>)
    requires Storable(e)
    ensures OpenOne(WriteExpr(e) + t) == Parsed(Erase(e), t)
    decreases e
  {
    Radices();
    ReadFirst(Tag(e), 4, WriteBody(e), t);
    BodyRoundTrip(e, t);
  }

  ghost predicate Opens(e: Stored, t: seq<Octet>) {
    OpenOne(WriteExpr(e) + t) == Parsed(Erase(e), t)
  }

  ghost predicate OpensTwo(e1: Stored, e2: Stored, t: seq<Octet>) {
    OpenTwo(WriteExpr(e1) + WriteExpr(e2) + t) == Parsed((Erase(e1), Erase(e2)), t)
  }

  ghost predicate OpensBody(e: Stored, t: seq<Octet>) {
    OpenBody(Tag(e), WriteBody(e) + t) == Parsed(Erase(e), t)
  }

  lemma {:induction false} BodyRoundTrip(e: Stored, t: seq<Octet>)
    requires Storable(e)
    ensures OpensBody(e, t)
    decreases e, 1
  {
    match e
    case Cast(c, e1) =>
      ExprRoundTrip(e1, t);
      UnaryBody(e, e1, t);
    case Ocl(fun, dim) =>
      ExprRoundTrip(dim, t);
      UnaryBody(e, dim, t);
    case Binop(op, e1, e2) =>
      TwoRoundTrip(e, e1, e2, t);
      PairBody(e, e1, e2, t);
    case Interval(lo, hi) =>
      TwoRoundTrip(e, lo, hi, t);
      PairBody(e, lo, hi, t);
    case Min(es) =>
      ListRoundTrip(es, t);
      ListBody(e, es, t);
    case Max(es) =>
      ListRoundTrip(es, t);
      ListBody(e, es, t);
    case Lb(e1) =>
      ExprRoundTrip(e1, t);
      UnaryBody(e, e1, t);
    case Hb(e1) =>
      ExprRoundTrip(e1, t);
      UnaryBody(e, e1, t);
    case Indir(no, lo, hi) =>
      TwoRoundTrip(e, lo, hi, t);
      PairBody(e, lo, hi, t);
    case _ => LeafBody(e, t);
  }

  lemma LeafBody(e: Stored, t: seq<Octet>)
    requires Storable(e) && (e.Nil? || e.Unknown? || e.Value? || e.Arg?)
    ensures OpensBody(e, t)
  {
    match e
    case Value(v) => ValueRoundTrip(v, t);
    case Arg(_, pos, _) => ReadWritten(pos, 4, t);
    case Nil => assert WriteBody(e) + t == t;
    case Unknown(_) => assert WriteBody(e) + t == t;
    case _ =>
  }

  lemma UnaryBody(e: Stored, e1: Stored, t: seq<Octet>)
    requires Opens(e1, t)
    requires (e.Cast? && e.e == e1) || (e.Ocl? && e.dim == e1) || (e.Lb? && e.e == e1) || (e.Hb? && e.e == e1)
    ensures OpensBody(e, t)
  {
    match e
    case Cast(c, _) =>
      CodeRoundTrip(CastCode(c), WriteExpr(e1), t);
      CodesRead(Add, GlobalId, c, LT);
    case Ocl(fun, _) =>
      CodeRoundTrip(FunCode(fun), WriteExpr(e1), t);
      CodesRead(Add, fun, F2D, LT);
    case _ =>
  }

  lemma PairBody(e: Stored, e1: Stored, e2: Stored, t: seq<Octet>)
    requires Storable(e) && OpensTwo(e1, e2, t)
    requires (e.Binop? && e.e1 == e1 && e.e2 == e2) || ((e.Interval? || e.Indir?) && e.lo == e1 && e.hi == e2)
    ensures OpensBody(e, t)
  {
    var b := WriteExpr(e1) + WriteExpr(e2);
    match e
    case Binop(op, _, _) => BinopBody(op, e1, e2, b, t);
    case Indir(no, _, _) => IndirBody(no, e1, e2, b, t);
    case _ =>
  }

  lemma BinopBody(op: BinOp, e1: Stored, e2: Stored, b: seq<Octet>, t: seq<Octet>)
    requires b == WriteExpr(e1) + WriteExpr(e2) && OpenTwo(b + t) == Parsed((Erase(e1), Erase(e2)), t)
    ensures OpensBody(Binop(op, e1, e2), t)
  {
    CodeRoundTrip(OpCode(op), b, t);
    CodesRead(op, GlobalId, F2D, LT);
  }

  lemma IndirBody(no: nat, e1: Stored, e2: Stored, b: seq<Octet>, t: seq<Octet>)
    requires b == WriteExpr(e1) + WriteExpr(e2) && OpenTwo(b + t) == Parsed((Erase(e1), Erase(e2)), t) && no < Radix(4)
    ensures OpensBody(Indir(no, e1, e2), t)
  {
    ReadFirst(no, 4, b, t);
  }

  lemma ListBody(e: Stored, es: seq<Stored>, t: seq<Octet>)
    requires Storable(e) && OpenList(WriteExprs(es) + t, |es|) == Parsed(EraseAll(es), t)
    requires (e.Min? || e.Max?) && e.es == es
    ensures OpensBody(e, t)
  {
    ReadFirst(|es|, 4, WriteExprs(es), t);
  }

  lemma CodeRoundTrip(code: nat, a: seq<Octet>, t: seq<Octet>)
    requires code <= 12
    ensures Read(Bytes(code, 4) + a + t, 4) == Parsed(code, a + t)
  {
    Radices();
    ReadFirst(code, 4, a, t);
  }

  lemma {:induction false} TwoRoundTrip(e: Stored, e1: Stored, e2: Stored, t: seq<Octet>)
    requires Storable(e1) && Storable(e2) && e1 < e && e2 < e
    ensures OpenTwo(WriteExpr(e1) + WriteExpr(e2) + t) == Parsed((Erase(e1), Erase(e2)), t)
    decreases e, 0
  {
    assert WriteExpr(e1) + WriteExpr(e2) + t == WriteExpr(e1) + (WriteExpr(e2) + t);
    ExprRoundTrip(e1, WriteExpr(e2) + t);
    ExprRoundTrip(e2, t);
  }

  lemma {:induction false} ListRoundTrip(es: seq<Stored>, t: seq<Octet>)
    requires forall i :: 0 <= i < |es| ==> Storable(es[i])
    ensures OpenList(WriteExprs(es) + t, |es|) == Parsed(EraseAll(es), t)
    decreases es
  {
    if |es| == 0 {
      assert WriteExprs(es) + t == t;
    } else {
      assert WriteExprs(es) + t == WriteExpr(es[0]) + (WriteExprs(es[1..]) + t);
      ExprRoundTrip(es[0], WriteExprs(es[1..]) + t);
      ListRoundTrip(es[1..], t);
    }
  }

  // ---- Lists of records ----

  // Each element in turn.
  function WriteAll<T>(xs: seq<T>, write: T -> seq<Octet>): seq<Octet> {
    if xs == [] then [] else write(xs[0]) + WriteAll(xs[1..], write)
  }

  function OpenAll<T>(s: seq<Octet>, n: nat, open: seq<Octet> -> Parsed<T>): Parsed<seq<T>>
    decreases n
  {
    if n == 0 then Parsed([], s)
    else
      var x := open(s);
      if x.Bad? then Bad else
      var l := OpenAll(x.rest, n - 1, open);
      if l.Bad? then Bad else Parsed([x.value] + l.value, l.rest)
  }

  function MapAll<T, U>(xs: seq<T>, f: T -> U): seq<U> {
    if xs == [] then [] else [f(xs[0])] + MapAll(xs[1..], f)
  }

  // The element is rebuilt whatever follows it.
  ghost predicate RoundTrips<T, U>(x: T, write: T -> seq<Octet>, open: seq<Octet> -> Parsed<U>, f: T -> U) {
    forall t: seq<Octet> :: open(write(x) + t) == Parsed(f(x), t)
  }

  lemma {:induction false} AllRoundTrip<T, U>(xs: seq<T>, write: T -> seq<Octet>, open: seq<Octet> -> Parsed<U>,
                                              f: T -> U, t: seq<Octet>)
    requires forall i :: 0 <= i < |xs| ==> RoundTrips(xs[i], write, open, f)
    ensures OpenAll(WriteAll(xs, write) + t, |xs|, open) == Parsed(MapAll(xs, f), t)
    decreases |xs|
  {
    if xs == [] {
      assert WriteAll(xs, write) + t == t;
    } else {
      assert RoundTrips(xs[0], write, open, f);
      assert WriteAll(xs, write) + t == write(xs[0]) + (WriteAll(xs[1..], write) + t);
      AllRoundTrip(xs[1..], write, open, f, t);
    }
  }

  // A count followed by that many elements.
  function WriteCounted<T>(xs: seq<T>, write: T -> seq<Octet>): seq<Octet> {
    Bytes(|xs|, 4) + WriteAll(xs, write)
  }

  function OpenCounted<T>(s: seq<Octet>, open: seq<Octet> -> Parsed<T>): Parsed<seq<T>> {
    var n := Read(s, 4);
    if n.Bad? then Bad else OpenAll(n.rest, n.value, open)
  }

  lemma CountedRoundTrip<T, U>(xs: seq<T>, write: T -> seq<Octet>, open: seq<Octet> -> Parsed<U>, f: T -> U, t: seq<Octet>)
    requires |xs| < Radix(4) && forall i :: 0 <= i < |xs| ==> RoundTrips(xs[i], write, open, f)
    ensures OpenCounted(WriteCounted(xs, write) + t, open) == Parsed(MapAll(xs, f), t)
  {
    ReadFirst(|xs|, 4, WriteAll(xs, write), t);
    AllRoundTrip(xs, write, open, f, t);
  }

  // ---- Guards and work-item expressions ----

  type StoredGuard = Guard<nat>

  datatype StoredUse = StoredUse(expr: Stored, guards: seq<StoredGuard>)

  function WriteGuard(g: StoredGuard): seq<Octet> {
    Bytes(FunCode(g.fun), 4) + (Bytes(g.dim, 4) + (Bytes(PredCode(g.pred), 4) + WriteExpr(g.expr)))
  }

  function OpenGuard(s: seq<Octet>): Parsed<StoredGuard> {
    var fun := Read(s, 4);
    if fun.Bad? || FunOf(fun.value).None? then Bad else
    var dim := Read(fun.rest, 4);
    if dim.Bad? then Bad else
    var pred := Read(dim.rest, 4);
    if pred.Bad? || PredOf(pred.value).None? then Bad else
    var e := OpenOne(pred.rest);
    if e.Bad? then Bad else Parsed(Guard(FunOf(fun.value).value, dim.value, PredOf(pred.value).value, e.value, None), e.rest)
  }

  predicate StorableGuard(g: StoredGuard) {
    g.dim < Radix(4) && Storable(g.expr)
  }

  // The computed value of a guard is not written.
  function EraseGuard(g: StoredGuard): StoredGuard {
    Guard(g.fun, g.dim, g.pred, Erase(g.expr), None)
  }

  lemma GuardRoundTrip(g: StoredGuard)
    requires StorableGuard(g)
    ensures RoundTrips(g, WriteGuard, OpenGuard, EraseGuard)
  {
    forall t: seq<Octet> ensures OpenGuard(WriteGuard(g) + t) == Parsed(EraseGuard(g), t) {
      var c := WriteExpr(g.expr);
      var b := Bytes(PredCode(g.pred), 4) + c;
      var a := Bytes(g.dim, 4) + b;
      CodeRoundTrip(FunCode(g.fun), a, t);
      ReadFirst(g.dim, 4, b, t);
      CodeRoundTrip(PredCode(g.pred), c, t);
      CodesRead(Add, g.fun, F2D, g.pred);
      ExprRoundTrip(g.expr, t);
    }
  }

  function WriteUse(u: StoredUse): seq<Octet> {
    WriteExpr(u.expr) + WriteCounted(u.guards, WriteGuard)
  }

  function OpenUse(s: seq<Octet>): Parsed<StoredUse> {
    var e := OpenOne(s);
    if e.Bad? then Bad else
    var g := OpenCounted(e.rest, OpenGuard);
    if g.Bad? then Bad else Parsed(StoredUse(e.value, g.value), g.rest)
  }

  predicate StorableUse(u: StoredUse) {
    Storable(u.expr) && |u.guards| < Radix(4) && forall i :: 0 <= i < |u.guards| ==> StorableGuard(u.guards[i])
  }

  function EraseUse(u: StoredUse): StoredUse {
    StoredUse(Erase(u.expr), MapAll(u.guards, EraseGuard))
  }

  lemma UseRoundTrip(u: StoredUse)
    requires StorableUse(u)
    ensures RoundTrips(u, WriteUse, OpenUse, EraseUse)
  {
    forall t: seq<Octet> ensures OpenUse(WriteUse(u) + t) == Parsed(EraseUse(u), t) {
      UseOpens(u, t);
    }
  }

  lemma UseOpens(u: StoredUse, t: seq<Octet>)
    requires StorableUse(u)
    ensures OpenUse(WriteUse(u) + t) == Parsed(EraseUse(u), t)
  {
    var a := WriteCounted(u.guards, WriteGuard);
    assert WriteUse(u) + t == WriteExpr(u.expr) + (a + t);
    ExprRoundTrip(u.expr, a + t);
    GuardsRoundTrip(u, t);
  }

  lemma GuardsRoundTrip(u: StoredUse, t: seq<Octet>)
    requires StorableUse(u)
    ensures OpenCounted(WriteCounted(u.guards, WriteGuard) + t, OpenGuard) == Parsed(EraseUse(u).guards, t)
  {
    forall i | 0 <= i < |u.guards| ensures RoundTrips(u.guards[i], WriteGuard, OpenGuard, EraseGuard) {
      GuardRoundTrip(u.guards[i]);
    }
    CountedRoundTrip(u.guards, WriteGuard, OpenGuard, EraseGuard, t);
  }

  // ---- Argument analyses ----

  datatype StoredArgument = StoredArgument(pos: nat, ty: nat, sizeInBytes: nat, uses: seq<seq<StoredUse>>)

  // Loads, stores, ors, atomic sums, minimums and maximums.
  const KINDS: nat := 6

  function WriteUses(us: seq<StoredUse>): seq<Octet> {
    WriteCounted(us, WriteUse)
  }

  function OpenUses(s: seq<Octet>): Parsed<seq<StoredUse>> {
    OpenCounted(s, OpenUse)
  }

  function EraseUses(us: seq<StoredUse>): seq<StoredUse> {
    MapAll(us, EraseUse)
  }

  predicate StorableUses(us: seq<StoredUse>) {
    |us| < Radix(4) && forall i :: 0 <= i < |us| ==> StorableUse(us[i])
  }

  lemma UsesRoundTrip(us: seq<StoredUse>)
    requires StorableUses(us)
    ensures RoundTrips(us, WriteUses, OpenUses, EraseUses)
  {
    forall i | 0 <= i < |us| ensures RoundTrips(us[i], WriteUse, OpenUse, EraseUse) {
      UseRoundTrip(us[i]);
    }
    forall t: seq<Octet> ensures OpenUses(WriteUses(us) + t) == Parsed(EraseUses(us), t) {
      CountedRoundTrip(us, WriteUse, OpenUse, EraseUse, t);
    }
  }

  function WriteArgument(a: StoredArgument): seq<Octet> {
    Bytes(a.pos, 4) + (Bytes(a.ty, 4) + (Bytes(a.sizeInBytes, 4) + WriteAll(a.uses, WriteUses)))
  }

  function OpenArgument(s: seq<Octet>): Parsed<StoredArgument> {
    var pos := Read(s, 4);
    if pos.Bad? then Bad else
    var ty := Read(pos.rest, 4);
    if ty.Bad? then Bad else
    var size := Read(ty.rest, 4);
    if size.Bad? then Bad else
    var uses := OpenAll(size.rest, KINDS, OpenUses);
    if uses.Bad? then Bad else Parsed(StoredArgument(pos.value, ty.value, size.value, uses.value), uses.rest)
  }

  predicate StorableArgument(a: StoredArgument) {
    && a.pos < Radix(4) && a.ty < Radix(4) && a.sizeInBytes < Radix(4)
    && |a.uses| == KINDS && forall k :: 0 <= k < KINDS ==> StorableUses(a.uses[k])
  }

  function EraseArgument(a: StoredArgument): StoredArgument {
    StoredArgument(a.pos, a.ty, a.sizeInBytes, MapAll(a.uses, EraseUses))
  }

  lemma ArgumentRoundTrip(a: StoredArgument)
    requires StorableArgument(a)
    ensures RoundTrips(a, WriteArgument, OpenArgument, EraseArgument)
  {
    forall k | 0 <= k < |a.uses| ensures RoundTrips(a.uses[k], WriteUses, OpenUses, EraseUses) {
      UsesRoundTrip(a.uses[k]);
    }
    forall t: seq<Octet> ensures OpenArgument(WriteArgument(a) + t) == Parsed(EraseArgument(a), t) {
      var z := WriteAll(a.uses, WriteUses);
      var y := Bytes(a.sizeInBytes, 4) + z;
      ReadFirst(a.pos, 4, Bytes(a.ty, 4) + y, t);
      ReadFirst(a.ty, 4, y, t);
      ReadFirst(a.sizeInBytes, 4, z, t);
      AllRoundTrip(a.uses, WriteUses, OpenUses, EraseUses, t);
    }
  }

  // ---- Kernel analyses ----

  datatype StoredIndirection = StoredIndirection(id: nat, pos: nat, numBytes: nat, ty: nat, expr: StoredUse)

  function WriteIndirection(x: StoredIndirection): seq<Octet> {
    Bytes(x.id, 4) + (Bytes(x.pos, 4) + (Bytes(x.numBytes, 4) + (Bytes(x.ty, 4) + WriteUse(x.expr))))
  }

  function OpenIndirection(s: seq<Octet>): Parsed<StoredIndirection> {
    var id := Read(s, 4);
    if id.Bad? then Bad else
    var pos := Read(id.rest, 4);
    if pos.Bad? then Bad else
    var numBytes := Read(pos.rest, 4);
    if numBytes.Bad? then Bad else
    var ty := Read(numBytes.rest, 4);
    if ty.Bad? then Bad else
    var e := OpenUse(ty.rest);
    if e.Bad? then Bad else Parsed(StoredIndirection(id.value, pos.value, numBytes.value, ty.value, e.value), e.rest)
  }

  predicate StorableIndirection(x: StoredIndirection) {
    x.id < Radix(4) && x.pos < Radix(4) && x.numBytes < Radix(4) && x.ty < Radix(4) && StorableUse(x.expr)
  }

  function EraseIndirection(x: StoredIndirection): StoredIndirection {
    x.(expr := EraseUse(x.expr))
  }

  lemma IndirectionRoundTrip(x: StoredIndirection)
    requires StorableIndirection(x)
    ensures RoundTrips(x, WriteIndirection, OpenIndirection, EraseIndirection)
  {
    UseRoundTrip(x.expr);
    forall t: seq<Octet> ensures OpenIndirection(WriteIndirection(x) + t) == Parsed(EraseIndirection(x), t) {
      var d := WriteUse(x.expr);
      var c := Bytes(x.ty, 4) + d;
      var b := Bytes(x.numBytes, 4) + c;
      ReadFirst(x.id, 4, Bytes(x.pos, 4) + b, t);
      ReadFirst(x.pos, 4, b, t);
      ReadFirst(x.numBytes, 4, c, t);
      ReadFirst(x.ty, 4, d, t);
      assert OpenUse(WriteUse(x.expr) + t) == Parsed(EraseUse(x.expr), t);
    }
  }

  // scalars, sizes and types have one entry for each kernel argument.
  datatype StoredKernel = StoredKernel(
    name: seq<Octet>, scalars: seq<bool>, sizes: seq<nat>, types: seq<nat>,
    arguments: seq<StoredArgument>, indirections: seq<StoredIndirection>)

  function WriteBool(b: bool): (s: seq<Octet>)
    ensures s == [if b then 1 else 0]
  {
    Bytes(if b then 1 else 0, 1)
  }

  function OpenBool(s: seq<Octet>): Parsed<bool> {
    var n := Read(s, 1);
    if n.Bad? then Bad else Parsed(n.value != 0, n.rest)
  }

  function WriteSize(n: nat): seq<Octet> {
    Bytes(n, 8)
  }

  function OpenSize(s: seq<Octet>): Parsed<nat> {
    Read(s, 8)
  }

  function WriteType(n: nat): seq<Octet> {
    Bytes(n, 4)
  }

  function OpenType(s: seq<Octet>): Parsed<nat> {
    Read(s, 4)
  }

  function Same<T>(x: T): T {
    x
  }

  function WriteOctet(x: Octet): seq<Octet> {
    [x]
  }

  function OpenOctet(s: seq<Octet>): Parsed<Octet> {
    if s == [] then Bad else Parsed(s[0], s[1..])
  }

  // The number of arguments and one table entry for each of them.
  function WriteTables(k: StoredKernel): seq<Octet> {
    Bytes(|k.scalars|, 4) + (WriteAll(k.scalars, WriteBool) + (WriteAll(k.sizes, WriteSize) + WriteAll(k.types, WriteType)))
  }

  function OpenTables(s: seq<Octet>): Parsed<(seq<bool>, seq<nat>, seq<nat>)> {
    var n := Read(s, 4);
    if n.Bad? then Bad else
    var scalars := OpenAll(n.rest, n.value, OpenBool);
    if scalars.Bad? then Bad else
    var sizes := OpenAll(scalars.rest, n.value, OpenSize);
    if sizes.Bad? then Bad else
    var types := OpenAll(sizes.rest, n.value, OpenType);
    if types.Bad? then Bad else Parsed((scalars.value, sizes.value, types.value), types.rest)
  }

  function WriteRecords(k: StoredKernel): seq<Octet> {
    WriteCounted(k.arguments, WriteArgument) + WriteCounted(k.indirections, WriteIndirection)
  }

  function OpenRecords(s: seq<Octet>): Parsed<(seq<StoredArgument>, seq<StoredIndirection>)> {
    var arguments := OpenCounted(s, OpenArgument);
    if arguments.Bad? then Bad else
    var indirections := OpenCounted(arguments.rest, OpenIndirection);
    if indirections.Bad? then Bad else Parsed((arguments.value, indirections.value), indirections.rest)
  }

  function WriteKernel(k: StoredKernel): seq<Octet> {
    WriteCounted(k.name, WriteOctet) + (WriteTables(k) + WriteRecords(k))
  }

  function OpenKernel(s: seq<Octet>): Parsed<StoredKernel> {
    var name := OpenCounted(s, OpenOctet);
    if name.Bad? then Bad else
    var tables := OpenTables(name.rest);
    if tables.Bad? then Bad else
    var records := OpenRecords(tables.rest);
    if records.Bad? then Bad
    else Parsed(StoredKernel(name.value, tables.value.0, tables.value.1, tables.value.2, records.value.0, records.value.1),
                records.rest)
  }

  predicate StorableKernel(k: StoredKernel) {
    && |k.name| < Radix(4) && |k.scalars| == |k.sizes| == |k.types| < Radix(4)
    && |k.arguments| < Radix(4) && |k.indirections| < Radix(4)
    && (forall i :: 0 <= i < |k.sizes| ==> k.sizes[i] < Radix(8) && k.types[i] < Radix(4))
    && (forall i :: 0 <= i < |k.arguments| ==> StorableArgument(k.arguments[i]))
    && (forall i :: 0 <= i < |k.indirections| ==> StorableIndirection(k.indirections[i]))
  }

  function EraseKernel(k: StoredKernel): StoredKernel {
    k.(arguments := MapAll(k.arguments, EraseArgument), indirections := MapAll(k.indirections, EraseIndirection))
  }

  lemma {:induction false} MapSame<T>(xs: seq<T>)
    ensures MapAll(xs, Same) == xs
  {
    if xs == [] {
    } else {
      MapSame(xs[1..]);
    }
  }

  lemma NameRoundTrip(name: seq<Octet>, t: seq<Octet>)
    requires |name| < Radix(4)
    ensures OpenCounted(WriteCounted(name, WriteOctet) + t, OpenOctet) == Parsed(name, t)
  {
    forall x: Octet ensures RoundTrips(x, WriteOctet, OpenOctet, Same) {
    }
    CountedRoundTrip(name, WriteOctet, OpenOctet, Same, t);
    MapSame(name);
  }

  lemma BoolsRoundTrip(bs: seq<bool>, t: seq<Octet>)
    ensures OpenAll(WriteAll(bs, WriteBool) + t, |bs|, OpenBool) == Parsed(bs, t)
  {
    forall b: bool ensures RoundTrips(b, WriteBool, OpenBool, Same) {
      forall u: seq<Octet> ensures OpenBool(WriteBool(b) + u) == Parsed(b, u) {
        Radices();
        ReadWritten(if b then 1 else 0, 1, u);
      }
    }
    AllRoundTrip(bs, WriteBool, OpenBool, Same, t);
    MapSame(bs);
  }

  lemma NumbersRoundTrip(sizes: seq<nat>, types: seq<nat>, t: seq<Octet>)
    requires forall i :: 0 <= i < |sizes| ==> sizes[i] < Radix(8)
    requires forall i :: 0 <= i < |types| ==> types[i] < Radix(4)
    ensures OpenAll(WriteAll(sizes, WriteSize) + t, |sizes|, OpenSize) == Parsed(sizes, t)
    ensures OpenAll(WriteAll(types, WriteType) + t, |types|, OpenType) == Parsed(types, t)
  {
    forall i | 0 <= i < |sizes| ensures RoundTrips(sizes[i], WriteSize, OpenSize, Same) {
      forall u: seq<Octet> ensures OpenSize(WriteSize(sizes[i]) + u) == Parsed(sizes[i], u) {
        ReadWritten(sizes[i], 8, u);
      }
    }
    forall i | 0 <= i < |types| ensures RoundTrips(types[i], WriteType, OpenType, Same) {
      forall u: seq<Octet> ensures OpenType(WriteType(types[i]) + u) == Parsed(types[i], u) {
        ReadWritten(types[i], 4, u);
      }
    }
    AllRoundTrip(sizes, WriteSize, OpenSize, Same, t);
    AllRoundTrip(types, WriteType, OpenType, Same, t);
    MapSame(sizes);
    MapSame(types);
  }

  lemma TablesRoundTrip(k: StoredKernel, t: seq<Octet>)
    requires StorableKernel(k)
    ensures OpenTables(WriteTables(k) + t) == Parsed((k.scalars, k.sizes, k.types), t)
  {
    var c := WriteAll(k.types, WriteType);
    var b := WriteAll(k.sizes, WriteSize) + c;
    assert WriteAll(k.scalars, WriteBool) + b + t == WriteAll(k.scalars, WriteBool) + (b + t);
    assert b + t == WriteAll(k.sizes, WriteSize) + (c + t);
    ReadFirst(|k.scalars|, 4, WriteAll(k.scalars, WriteBool) + b, t);
    BoolsRoundTrip(k.scalars, b + t);
    NumbersRoundTrip(k.sizes, k.types, c + t);
    NumbersRoundTrip(k.sizes, k.types, t);
  }

  lemma RecordsRoundTrip(k: StoredKernel, t: seq<Octet>)
    requires StorableKernel(k)
    ensures OpenRecords(WriteRecords(k) + t) == Parsed((EraseKernel(k).arguments, EraseKernel(k).indirections), t)
  {
    ArgumentsRoundTrip(k, WriteCounted(k.indirections, WriteIndirection) + t);
    IndirectionsRoundTrip(k, t);
    var b := WriteCounted(k.indirections, WriteIndirection);
    assert WriteRecords(k) + t == WriteCounted(k.arguments, WriteArgument) + (b + t);
  }

  lemma ArgumentsRoundTrip(k: StoredKernel, t: seq<Octet>)
    requires StorableKernel(k)
    ensures OpenCounted(WriteCounted(k.arguments, WriteArgument) + t, OpenArgument) == Parsed(EraseKernel(k).arguments, t)
  {
    forall i | 0 <= i < |k.arguments| ensures RoundTrips(k.arguments[i], WriteArgument, OpenArgument, EraseArgument) {
      ArgumentRoundTrip(k.arguments[i]);
    }
    CountedRoundTrip(k.arguments, WriteArgument, OpenArgument, EraseArgument, t);
  }

  lemma IndirectionsRoundTrip(k: StoredKernel, t: seq<Octet>)
    requires StorableKernel(k)
    ensures OpenCounted(WriteCounted(k.indirections, WriteIndirection) + t, OpenIndirection)
         == Parsed(EraseKernel(k).indirections, t)
  {
    forall i | 0 <= i < |k.indirections|
      ensures RoundTrips(k.indirections[i], WriteIndirection, OpenIndirection, EraseIndirection)
    {
      IndirectionRoundTrip(k.indirections[i]);
    }
    CountedRoundTrip(k.indirections, WriteIndirection, OpenIndirection, EraseIndirection, t);
  }

  lemma Regroup(a: seq<Octet>, b: seq<Octet>, c: seq<Octet>, t: seq<Octet>)
    ensures a + (b + c) + t == a + (b + (c + t))
  {
  }

  lemma KernelParts(k: StoredKernel, s: seq<Octet>, s1: seq<Octet>, s2: seq<Octet>, t: seq<Octet>)
    requires OpenCounted(s, OpenOctet) == Parsed(k.name, s1)
    requires OpenTables(s1) == Parsed((k.scalars, k.sizes, k.types), s2)
    requires OpenRecords(s2) == Parsed((EraseKernel(k).arguments, EraseKernel(k).indirections), t)
    ensures OpenKernel(s) == Parsed(EraseKernel(k), t)
  {
  }

  /** Opening a written kernel analysis rebuilds it and leaves exactly the bytes that followed it. */
  lemma KernelRoundTrip(k: StoredKernel, t: seq<Octet>)
    requires StorableKernel(k)
    ensures OpenKernel(WriteKernel(k) + t) == Parsed(EraseKernel(k), t)
  {
    var s2 := WriteRecords(k) + t;
    var s1 := WriteTables(k) + s2;
    Regroup(WriteCounted(k.name, WriteOctet), WriteTables(k), WriteRecords(k), t);
    NameRoundTrip(k.name, s1);
    TablesRoundTrip(k, s2);
    RecordsRoundTrip(k, t);
    KernelParts(k, WriteCounted(k.name, WriteOctet) + s1, s1, s2, t);
  }
}
