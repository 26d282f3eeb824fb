/** The write and open functions of LibKernelExpr/src, walking a stream. */
module Streams {
  import opened IndexExprs
  import opened Serialisation

  // A string stream: written at the end, read from the front.
  class StringStream {
    var data: seq<Octet>

    constructor ()
      ensures data == []
    {
      data := [];
    }

    method Put(b: seq<Octet>)
      modifies this
      ensures data == old(data) + b
    {
      data := data + b;
    }

    // The next number of w bytes; nothing is consumed when the stream ends before.
    method Get(w: nat) returns (ok: bool, n: nat)
      modifies this
      ensures ok <==> Read(old(data), w).Parsed?
      ensures ok ==> Read(old(data), w) == Parsed(n, data)
      ensures !ok ==> data == old(data)
    {
      if |data| < w {
        return false, 0;
      }
      ok, n := true, Number(data[..w]);
      data := data[w..];
    }
  }

  // ---- Expressions ----

  method WriteIndexExpr(s: StringStream, e: Stored)
    modifies s
    ensures s.data == old(s.data) + WriteExpr(e)
    decreases e
  {
    s.Put(Bytes(Tag(e), 4));
    Associate(old(s.data), Bytes(Tag(e), 4), WriteBody(e));
    match e
    case Nil =>
    case Value(v) => s.Put(WriteValue(v));
    case Cast(c, e1) => WriteCoded(s, CastCode(c), e, e1);
    case Arg(_, pos, _) => s.Put(Bytes(pos, 4));
    case Ocl(fun, dim) => WriteCoded(s, FunCode(fun), e, dim);
    case Binop(op, e1, e2) => WriteCodedPair(s, OpCode(op), e, e1, e2);
    case Interval(lo, hi) => WritePair(s, e, lo, hi);
    case Unknown(_) =>
    case Min(es) => WriteOperands(s, es);
    case Max(es) => WriteOperands(s, es);
    case Lb(e1) => WriteIndexExpr(s, e1);
    case Hb(e1) => WriteIndexExpr(s, e1);
    case Indir(no, lo, hi) => WriteCodedPair(s, no, e, lo, hi);
  }

  lemma Associate(a: seq<Octet>, b: seq<Octet>, c: seq<Octet>)
    ensures a + b + c == a + (b + c)
  {
  }

  method WriteCoded(s: StringStream, code: nat, ghost e: Stored, e1: Stored)
    requires e1 < e
    modifies s
    ensures s.data == old(s.data) + (Bytes(code, 4) + WriteExpr(e1))
    decreases e, 0
  {
    s.Put(Bytes(code, 4));
    WriteIndexExpr(s, e1);
    Associate(old(s.data), Bytes(code, 4), WriteExpr(e1));
  }

  method WritePair(s: StringStream, ghost e: Stored, e1: Stored, e2: Stored)
    requires e1 < e && e2 < e
    modifies s
    ensures s.data == old(s.data) + (WriteExpr(e1) + WriteExpr(e2))
    decreases e, 0
  {
    WriteIndexExpr(s, e1);
    WriteIndexExpr(s, e2);
    Associate(old(s.data), WriteExpr(e1), WriteExpr(e2));
  }

  method WriteCodedPair(s: StringStream, code: nat, ghost e: Stored, e1: Stored, e2: Stored)
    requires e1 < e && e2 < e
    modifies s
    ensures s.data == old(s.data) + (Bytes(code, 4) + (WriteExpr(e1) + WriteExpr(e2)))
    decreases e, 1
  {
    s.Put(Bytes(code, 4));
    WritePair(s, e, e1, e2);
    Associate(old(s.data), Bytes(code, 4), WriteExpr(e1) + WriteExpr(e2));
  }

  method WriteOperands(s: StringStream, es: seq<Stored>)
    modifies s
    ensures s.data == old(s.data) + (Bytes(|es|, 4) + WriteExprs(es))
    decreases es
  {
    s.Put(Bytes(|es|, 4));
    Associate(old(s.data), Bytes(|es|, 4), WriteExprs(es));
    for i := 0 to |es|
      invariant s.data + WriteExprs(es[i..]) == old(s.data) + (Bytes(|es|, 4) + WriteExprs(es))
    {
      Associate(s.data, WriteExpr(es[i]), WriteExprs(es[i + 1..]));
      assert es[i..][1..] == es[i + 1..];
      WriteIndexExpr(s, es[i]);
    }
    assert s.data + WriteExprs(es[|es|..]) == s.data;
  }

  method OpenConstant(s: StringStream) returns (ok: bool, v: Val<nat>)
    modifies s
    ensures ok <==> OpenValue(old(s.data)).Parsed?
    ensures ok ==> OpenValue(old(s.data)) == Parsed(v, s.data)
  {
    v := Long(0);
    var ty, n;
    ok, ty := s.Get(4);
    if !ok {
      return;
    }
    ok, n := s.Get(if ty == 1 then 4 else 8);
    if !ok {
      return;
    }
    if ty == 0 {
      v := Long(AsSigned(n));
    } else if ty == 1 {
      v := Float(n);
    } else if ty == 2 {
      v := Double(n);
    } else {
      ok := false;
    }
  }

  method OpenIndexExpr(s: StringStream) returns (ok: bool, e: Stored)
    modifies s
    ensures ok <==> OpenOne(old(s.data)).Parsed?
    ensures ok ==> OpenOne(old(s.data)) == Parsed(e, s.data)
    decreases |s.data|, 0
  {
    var tag;
    e := Nil;
    ok, tag := s.Get(4);
    if ok {
      ok, e := OpenTagged(s, tag);
    }
  }

  method OpenTagged(s: StringStream, tag: nat) returns (ok: bool, e: Stored)
    modifies s
    ensures ok <==> OpenBody(tag, old(s.data)).Parsed?
    ensures ok ==> OpenBody(tag, old(s.data)) == Parsed(e, s.data)
    decreases |s.data|, 2
  {
    ok, e := true, Nil;
    if tag == 1 {
      var v;
      ok, v := OpenConstant(s);
      e := Value(v);
    } else if tag in {2, 4, 5, 12} {
      ok, e := OpenCoded(s, tag);
    } else if tag == 3 {
      var pos;
      ok, pos := s.Get(4);
      e := Arg("arg", pos, None);
    } else if tag == 6 {
      var e1, e2;
      ok, e1, e2 := OpenPair(s);
      e := Interval(e1, e2);
    } else if tag == 7 {
      e := Unknown("unknown");
    } else if tag == 8 || tag == 9 {
      var n, es;
      ok, n := s.Get(4);
      if ok {
        ok, es := OpenOperands(s, n);
        e := if tag == 8 then Min(es) else Max(es);
      }
    } else if tag == 10 || tag == 11 {
      var e1;
      ok, e1 := OpenIndexExpr(s);
      e := if tag == 10 then Lb(e1) else Hb(e1);
    }
  }

  // The nodes with a code or number before their children.
  method OpenCoded(s: StringStream, tag: nat) returns (ok: bool, e: Stored)
    requires tag in {2, 4, 5, 12}
    modifies s
    ensures ok <==> OpenBody(tag, old(s.data)).Parsed?
    ensures ok ==> OpenBody(tag, old(s.data)) == Parsed(e, s.data)
    decreases |s.data|, 1
  {
    var n;
    e := Nil;
    ok, n := s.Get(4);
    if !ok {
      return;
    }
    if tag == 2 || tag == 4 {
      var e1;
      ok := if tag == 2 then CastOf(n).Some? else FunOf(n).Some?;
      if ok {
        ok, e1 := OpenIndexExpr(s);
        e := if tag == 2 then Cast(CastOf(n).value, e1) else Ocl(FunOf(n).value, e1);
      }
    } else {
      var e1, e2;
      ok := tag == 12 || OpOf(n).Some?;
      if ok {
        ok, e1, e2 := OpenPair(s);
        e := if tag == 12 then Indir(n, e1, e2) else Binop(OpOf(n).value, e1, e2);
      }
    }
  }

  method OpenPair(s: StringStream) returns (ok: bool, e1: Stored, e2: Stored)
    modifies s
    ensures ok <==> OpenTwo(old(s.data)).Parsed?
    ensures ok ==> OpenTwo(old(s.data)) == Parsed((e1, e2), s.data)
    decreases |s.data|, 1
  {
    e2 := Nil;
    ok, e1 := OpenIndexExpr(s);
    if ok {
      ok, e2 := OpenIndexExpr(s);
    }
  }

  method OpenOperands(s: StringStream, n: nat) returns (ok: bool, es: seq<Stored>)
    modifies s
    ensures ok <==> OpenList(old(s.data), n).Parsed?
    ensures ok ==> OpenList(old(s.data), n) == Parsed(es, s.data)
    decreases |s.data|, 1
  {
    ok, es := true, [];
    ghost var start := s.data;
    ContinuesFromStart(start, n);
    for i := 0 to n
      invariant |s.data| <= |start|
      invariant Continues(start, n, es, s.data, n - i)
    {
      var e;
      ghost var before := s.data;
      ok, e := OpenIndexExpr(s);
      if !ok {
        return;
      }
      ContinuesNext(start, n, es, before, e, s.data, n - i);
      es := es + [e];
    }
    assert es + [] == es;
  }

  // Opening n elements comes to opening the remaining ones after those already opened.
  ghost predicate Continues(start: seq<Octet>, n: nat, done: seq<Stored>, rest: seq<Octet>, left: nat) {
    var p, q := OpenList(start, n), OpenList(rest, left);
    (p.Parsed? <==> q.Parsed?) && (q.Parsed? ==> p == Parsed(done + q.value, q.rest))
  }

  lemma ContinuesFromStart(start: seq<Octet>, n: nat)
    ensures Continues(start, n, [], start, n)
  {
    var p := OpenList(start, n);
    if p.Parsed? {
      assert [] + p.value == p.value;
    }
  }

  lemma ContinuesNext(start: seq<Octet>, n: nat, done: seq<Stored>, rest: seq<Octet>, e: Stored, rest': seq<Octet>,
                      left: nat)
    requires left > 0 && Continues(start, n, done, rest, left) && OpenOne(rest) == Parsed(e, rest')
    ensures Continues(start, n, done + [e], rest', left - 1)
  {
    var q := OpenList(rest', left - 1);
    if q.Parsed? {
      assert done + ([e] + q.value) == done + [e] + q.value;
    }
  }
}
