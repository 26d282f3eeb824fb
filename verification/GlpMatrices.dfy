/** The sparse matrix of the linear program that shares several kernels between devices
    (libsplit/src/Scheduler/MultiKernelSolver.cpp: row and column indices, createGlpProb, updateGlpMatrix). */
module GlpMatrices {
  import opened Arithmetic
  import CommConstraints

  // n kernels on d devices.
  datatype Sizes = Sizes(n: nat, d: nat)

  // Kernel i on device j: time and granularity rows; granularity sum of kernel i; and ten families of rows for
  // kernel i after kernel j on device k.
  datatype Row = Time(i: nat, j: nat) | Gran(i: nat, j: nat) | GranSum(i: nat) | Link(f: nat, i: nat, j: nat, k: nat)

  datatype Col =
    | X(i: nat, j: nat) | Gr(i: nat, j: nat) | TD2H(i: nat) | TH2D(i: nat) | T(i: nat)
    | Comm(f: nat, i: nat, j: nat, k: nat)

  predicate RowOk(s: Sizes, r: Row) {
    match r
    case Time(i, j) => i < s.n && j < s.d
    case Gran(i, j) => i < s.n && j < s.d
    case GranSum(i) => i < s.n
    case Link(f, i, j, k) => f < 10 && i < s.n && j < s.n && k < s.d
  }

  predicate ColOk(s: Sizes, c: Col) {
    match c
    case X(i, j) => i < s.n && j < s.d
    case Gr(i, j) => i < s.n && j < s.d
    case TD2H(i) => i < s.n
    case TH2D(i) => i < s.n
    case T(i) => i < s.n
    case Comm(f, i, j, k) => f < 8 && i < s.n && j < s.n && k < s.d
  }

  // The number of (kernel, kernel, device) triples, and the position of one.
  function Triples(s: Sizes): nat {
    s.n * (s.n * s.d)
  }

  function Triple(s: Sizes, i: nat, j: nat, k: nat): nat {
    i * (s.n * s.d) + (j * s.d + k)
  }

  function KernelRows(s: Sizes): nat {
    s.n * (2 * s.d + 1)
  }

  function RowIdx(s: Sizes, r: Row): nat {
    match r
    case Time(i, j) => 1 + i * (2 * s.d + 1) + j
    case Gran(i, j) => 1 + i * (2 * s.d + 1) + s.d + j
    case GranSum(i) => 1 + i * (2 * s.d + 1) + 2 * s.d
    case Link(f, i, j, k) => 1 + KernelRows(s) + f * Triples(s) + Triple(s, i, j, k)
  }

  function ColIdx(s: Sizes, c: Col): nat {
    match c
    case X(i, j) => 1 + i * (2 * s.d) + j
    case Gr(i, j) => 1 + i * (2 * s.d) + s.d + j
    case TD2H(i) => 1 + s.n * (2 * s.d) + i * 2
    case TH2D(i) => 1 + s.n * (2 * s.d) + i * 2 + 1
    case T(i) => 1 + s.n * (2 * s.d) + s.n * 2 + i
    case Comm(f, i, j, k) => 1 + s.n * 3 + s.n * (2 * s.d) + f * Triples(s) + Triple(s, i, j, k)
  }

  // createGlpProb
  function NbRows(s: Sizes): nat {
    KernelRows(s) + 10 * Triples(s)
  }

  function NbCols(s: Sizes): nat {
    s.n * 3 + s.n * (2 * s.d) + 8 * Triples(s)
  }

  // ---- Indices are injective ----

  // A number below a * m splits into a quotient below a and a remainder below m in one way.
  lemma SplitUnique(i: nat, r: nat, i': nat, r': nat, m: nat)
    requires r < m && r' < m && i * m + r == i' * m + r'
    ensures i == i' && r == r'
  {
    ModIs(i * m + r, m, i, r);
    ModIs(i' * m + r', m, i', r');
  }

  lemma Within(i: nat, r: nat, a: nat, m: nat)
    requires i < a && r < m
    ensures i * m + r < a * m
  {
    MulMonotone(i + 1, a, m);
    assert (i + 1) * m == i * m + m;
  }

  lemma TripleBelow(s: Sizes, i: nat, j: nat, k: nat)
    requires i < s.n && j < s.n && k < s.d
    ensures Triple(s, i, j, k) < Triples(s) && j * s.d + k < s.n * s.d
  {
    Within(j, k, s.n, s.d);
    Within(i, j * s.d + k, s.n, s.n * s.d);
  }

  lemma TripleInjective(s: Sizes, i: nat, j: nat, k: nat, i': nat, j': nat, k': nat)
    requires i < s.n && j < s.n && k < s.d && i' < s.n && j' < s.n && k' < s.d
    requires Triple(s, i, j, k) == Triple(s, i', j', k')
    ensures i == i' && j == j' && k == k'
  {
    PlacesUnique(i, j, k, i', j', k', s.n, s.d, s.n * s.d);
  }

  lemma PlacesUnique(i: nat, j: nat, k: nat, i': nat, j': nat, k': nat, n: nat, d: nat, m: nat)
    requires j < n && k < d && j' < n && k' < d && m == n * d
    requires i * m + (j * d + k) == i' * m + (j' * d + k')
    ensures i == i' && j == j' && k == k'
  {
    Within(j, k, n, d);
    Within(j', k', n, d);
    NestedUnique(i, j, k, i', j', k', d, m, j * d + k, j' * d + k');
  }

  lemma NestedUnique(i: nat, j: nat, k: nat, i': nat, j': nat, k': nat, d: nat, m: nat, r: nat, r': nat)
    requires k < d && k' < d && r == j * d + k && r' == j' * d + k'
    requires r < m && r' < m && i * m + r == i' * m + r'
    ensures i == i' && j == j' && k == k'
  {
    SplitUnique(i, r, i', r', m);
    SplitUnique(j, k, j', k', d);
  }

  // The place of a row in its kernel's block.
  function InBlock(s: Sizes, r: Row): nat
    requires !r.Link?
  {
    match r
    case Time(_, j) => j
    case Gran(_, j) => s.d + j
    case GranSum(_) => 2 * s.d
  }

  lemma BlockRange(s: Sizes, r: Row)
    requires RowOk(s, r) && !r.Link?
    ensures InBlock(s, r) < 2 * s.d + 1 && RowIdx(s, r) == 1 + r.i * (2 * s.d + 1) + InBlock(s, r)
    ensures 1 <= RowIdx(s, r) <= KernelRows(s)
  {
    Within(r.i, InBlock(s, r), s.n, 2 * s.d + 1);
  }

  lemma LinkRange(s: Sizes, r: Row)
    requires RowOk(s, r) && r.Link?
    ensures KernelRows(s) < RowIdx(s, r) <= NbRows(s)
    ensures Triple(s, r.i, r.j, r.k) < Triples(s)
  {
    TripleBelow(s, r.i, r.j, r.k);
    FamilyRange(r.f, Triple(s, r.i, r.j, r.k), 10, Triples(s));
  }

  lemma FamilyRange(f: nat, t: nat, families: nat, size: nat)
    requires f < families && t < size
    ensures 0 <= f * size + t < families * size
  {
    Within(f, t, families, size);
  }

  lemma RowRange(s: Sizes, r: Row)
    requires RowOk(s, r)
    ensures 1 <= RowIdx(s, r) <= NbRows(s)
    ensures r.Link? <==> RowIdx(s, r) > KernelRows(s)
  {
    if r.Link? {
      LinkRange(s, r);
    } else {
      BlockRange(s, r);
    }
  }

  /** Different rows have different indices, all between 1 and the number of rows. */
  lemma RowInjective(s: Sizes, r: Row, r': Row)
    requires RowOk(s, r) && RowOk(s, r') && RowIdx(s, r) == RowIdx(s, r')
    ensures r == r'
  {
    RowRange(s, r);
    RowRange(s, r');
    if r.Link? {
      LinkRange(s, r);
      LinkRange(s, r');
      SplitUnique(r.f, Triple(s, r.i, r.j, r.k), r'.f, Triple(s, r'.i, r'.j, r'.k), Triples(s));
      TripleInjective(s, r.i, r.j, r.k, r'.i, r'.j, r'.k);
    } else {
      BlockRange(s, r);
      BlockRange(s, r');
      SplitUnique(r.i, InBlock(s, r), r'.i, InBlock(s, r'), 2 * s.d + 1);
    }
  }

  /** Every number between 1 and the number of rows is the index of a row. */
  lemma RowOnto(s: Sizes, x: nat) returns (r: Row)
    requires 1 <= x <= NbRows(s)
    ensures RowOk(s, r) && RowIdx(s, r) == x
  {
    var y := x - 1;
    if y < KernelRows(s) {
      var i, b := SplitOf(y, s.n, 2 * s.d + 1);
      r := if b < s.d then Time(i, b) else if b < 2 * s.d then Gran(i, b - s.d) else GranSum(i);
    } else {
      var f, i, j, k := TripleOf(s, y - KernelRows(s), 10);
      r := Link(f, i, j, k);
    }
  }

  lemma SplitOf(y: nat, a: nat, m: nat) returns (q: nat, r: nat)
    requires y < a * m
    ensures q < a && r < m && y == q * m + r
  {
    if m == 0 {
      assert false;
    }
    q, r := y / m, y % m;
    Division(y, m);
    if q >= a {
      MulMonotone(a, q, m);
    }
  }

  lemma TripleOf(s: Sizes, z: nat, families: nat) returns (f: nat, i: nat, j: nat, k: nat)
    requires z < families * Triples(s)
    ensures f < families && i < s.n && j < s.n && k < s.d && z == f * Triples(s) + Triple(s, i, j, k)
  {
    var y, x;
    f, y := SplitOf(z, families, Triples(s));
    i, x := SplitOf(y, s.n, s.n * s.d);
    j, k := SplitOf(x, s.n, s.d);
  }

  // Where a column of one kernel stands in its part.
  lemma ShareRange(s: Sizes, c: Col)
    requires ColOk(s, c) && (c.X? || c.Gr?)
    ensures var b := if c.X? then c.j else s.d + c.j;
      b < 2 * s.d && ColIdx(s, c) == 1 + c.i * (2 * s.d) + b && 1 <= ColIdx(s, c) <= s.n * (2 * s.d) <= NbCols(s)
  {
    Within(c.i, if c.X? then c.j else s.d + c.j, s.n, 2 * s.d);
  }

  lemma CommRange(s: Sizes, c: Col)
    requires ColOk(s, c) && c.Comm?
    ensures 0 <= s.n * (2 * s.d) <= s.n * 3 + s.n * (2 * s.d) < ColIdx(s, c) <= NbCols(s)
    ensures Triple(s, c.i, c.j, c.k) < Triples(s)
  {
    TripleBelow(s, c.i, c.j, c.k);
    FamilyRange(c.f, Triple(s, c.i, c.j, c.k), 8, Triples(s));
  }

  // Where the parts of the columns start.
  lemma ColRange(s: Sizes, c: Col)
    requires ColOk(s, c)
    ensures 1 <= ColIdx(s, c) <= NbCols(s)
    ensures (c.X? || c.Gr?) <==> ColIdx(s, c) <= s.n * (2 * s.d)
    ensures c.Comm? <==> ColIdx(s, c) > s.n * 3 + s.n * (2 * s.d)
  {
    match c
    case X(i, j) => ShareRange(s, c);
    case Gr(i, j) => ShareRange(s, c);
    case Comm(f, i, j, k) => CommRange(s, c);
    case _ => TimeRange(s, c);
  }

  lemma TimeRange(s: Sizes, c: Col)
    requires ColOk(s, c) && (c.TD2H? || c.TH2D? || c.T?)
    ensures 0 <= s.n * (2 * s.d) < ColIdx(s, c) <= s.n * 3 + s.n * (2 * s.d) <= NbCols(s)
    ensures c.T? <==> ColIdx(s, c) > s.n * (2 * s.d) + s.n * 2
  {
  }

  /** Different columns have different indices, all between 1 and the number of columns. */
  lemma ColInjective(s: Sizes, c: Col, c': Col)
    requires ColOk(s, c) && ColOk(s, c') && ColIdx(s, c) == ColIdx(s, c')
    ensures c == c'
  {
    ColRange(s, c);
    ColRange(s, c');
    if c.X? || c.Gr? {
      ShareRange(s, c);
      ShareRange(s, c');
      SplitUnique(c.i, if c.X? then c.j else s.d + c.j, c'.i, if c'.X? then c'.j else s.d + c'.j, 2 * s.d);
    } else if c.Comm? {
      CommRange(s, c);
      CommRange(s, c');
      SplitUnique(c.f, Triple(s, c.i, c.j, c.k), c'.f, Triple(s, c'.i, c'.j, c'.k), Triples(s));
      TripleInjective(s, c.i, c.j, c.k, c'.i, c'.j, c'.k);
    } else {
      TimeRange(s, c);
      TimeRange(s, c');
    }
  }

  // ---- The order of creation ----

  // createGlpProb creates the rows kernel by kernel and then family by family, and the columns likewise.
  function NextTriple(s: Sizes, i: nat, j: nat, k: nat): (t: (nat, nat, nat)) {
    if k + 1 < s.d then (i, j, k + 1) else if j + 1 < s.n then (i, j + 1, 0) else (i + 1, 0, 0)
  }

  function NextRow(s: Sizes, r: Row): Row {
    match r
    case Time(i, j) => if j + 1 < s.d then Time(i, j + 1) else Gran(i, 0)
    case Gran(i, j) => if j + 1 < s.d then Gran(i, j + 1) else GranSum(i)
    case GranSum(i) => if i + 1 < s.n then Time(i + 1, 0) else Link(0, 0, 0, 0)
    case Link(f, i, j, k) =>
      var t := NextTriple(s, i, j, k);
      if t.0 < s.n then Link(f, t.0, t.1, t.2) else Link(f + 1, 0, 0, 0)
  }

  function NextCol(s: Sizes, c: Col): Col {
    match c
    case X(i, j) => if j + 1 < s.d then X(i, j + 1) else Gr(i, 0)
    case Gr(i, j) => if j + 1 < s.d then Gr(i, j + 1) else if i + 1 < s.n then X(i + 1, 0) else TD2H(0)
    case TD2H(i) => TH2D(i)
    case TH2D(i) => if i + 1 < s.n then TD2H(i + 1) else T(0)
    case T(i) => if i + 1 < s.n then T(i + 1) else Comm(0, 0, 0, 0)
    case Comm(f, i, j, k) =>
      var t := NextTriple(s, i, j, k);
      if t.0 < s.n then Comm(f, t.0, t.1, t.2) else Comm(f + 1, 0, 0, 0)
  }

  lemma TripleCounted(s: Sizes, i: nat, j: nat, k: nat)
    requires i < s.n && j < s.n && k < s.d
    ensures var t := NextTriple(s, i, j, k);
      && t.1 < s.n && t.2 < s.d
      && (if t.0 < s.n then Triple(s, t.0, t.1, t.2) == Triple(s, i, j, k) + 1 else Triples(s) == Triple(s, i, j, k) + 1)
    ensures Triple(s, 0, 0, 0) == 0
  {
    var m := s.n * s.d;
    if k + 1 < s.d {
    } else if j + 1 < s.n {
      OneMore(j, s.d);
    } else {
      OneMore(s.n - 1, s.d);
      OneMore(i, m);
    }
  }

  /** The assertions of createGlpProb hold: counted in the order of creation, the rows have the numbers 1, 2, 3 and so
      on. */
  lemma RowsCounted(s: Sizes, r: Row)
    requires s.n > 0 && s.d > 0 && RowOk(s, r)
    ensures RowIdx(s, Time(0, 0)) == 1 && RowIdx(s, NextRow(s, r)) == RowIdx(s, r) + 1
  {
    match r
    case Time(i, j) =>
    case Gran(i, j) =>
    case GranSum(i) => OneMore(i, 2 * s.d + 1);
    case Link(f, i, j, k) =>
      TripleCounted(s, i, j, k);
      OneMore(f, Triples(s));
  }

  /** So have the columns. */
  lemma ColsCounted(s: Sizes, c: Col)
    requires s.n > 0 && s.d > 0 && ColOk(s, c)
    ensures ColIdx(s, X(0, 0)) == 1 && ColIdx(s, NextCol(s, c)) == ColIdx(s, c) + 1
  {
    match c
    case X(i, j) =>
    case Gr(i, j) => OneMore(i, 2 * s.d);
    case TD2H(i) =>
    case TH2D(i) =>
    case T(i) => TripleCounted(s, 0, 0, 0);
    case Comm(f, i, j, k) =>
      TripleCounted(s, i, j, k);
      OneMore(f, Triples(s));
  }

  // ---- The entries ----

  // Kernel performances and granularities, and the coefficients of the communications.
  datatype Coefs = Coefs(perf: (nat, nat) -> real, gr: (nat, nat) -> real,
                         d2h: (nat, nat, nat) -> real, h2d: (nat, nat, nat) -> real)

  datatype Entry = Entry(row: Row, col: Col, value: real)

  // The granularities of the devices before m, of kernel i with one sign and of kernel j with the other.
  function Shares(r: Row, i: nat, j: nat, m: nat, v: real): (es: seq<Entry>)
    ensures |es| == 2 * m
  {
    if m == 0 then [] else Shares(r, i, j, m - 1, v) + [Entry(r, Gr(i, m - 1), v), Entry(r, Gr(j, m - 1), -v)]
  }

  function Sums(r: Row, i: nat, m: nat): (es: seq<Entry>)
    ensures |es| == m
  {
    if m == 0 then [] else Sums(r, i, m - 1) + [Entry(r, Gr(i, m - 1), 1.0)]
  }

  // The entries of one row; families 8 and 9 have none.
  function RowEntries(s: Sizes, co: Coefs, r: Row): seq<Entry> {
    match r
    case Time(i, j) => [Entry(r, T(i), -1.0), Entry(r, X(i, j), co.perf(i, j))]
    case Gran(i, j) => [Entry(r, Gr(i, j), -1.0), Entry(r, X(i, j), co.gr(i, j))]
    case GranSum(i) => Sums(r, i, s.d)
    case Link(f, i, j, k) =>
      if f == 0 then [Entry(r, Comm(2, i, j, k), 1.0), Entry(r, TD2H(i), -1.0)]
      else if f == 1 then [Entry(r, Comm(5, i, j, k), 1.0), Entry(r, TH2D(i), -1.0)]
      else if f == 2 then Shares(r, i, j, k, 1.0) + [Entry(r, Comm(0, i, j, k), -1.0)]
      else if f == 3 then Shares(r, i, j, k + 1, -1.0) + [Entry(r, Comm(1, i, j, k), -1.0)]
      else if f == 4 then
        [Entry(r, Comm(0, i, j, k), co.d2h(i, j, k)), Entry(r, Comm(1, i, j, k), co.d2h(i, j, k)),
         Entry(r, Comm(2, i, j, k), -1.0)]
      else if f == 5 then Shares(r, i, j, k, 1.0) + [Entry(r, Comm(3, i, j, k), -1.0)]
      else if f == 6 then Shares(r, i, j, k + 1, -1.0) + [Entry(r, Comm(4, i, j, k), -1.0)]
      else if f == 7 then
        [Entry(r, Comm(3, i, j, k), co.h2d(i, j, k)), Entry(r, Comm(4, i, j, k), co.h2d(i, j, k)),
         Entry(r, Comm(5, i, j, k), -1.0)]
      else []
  }

  /** For two kernels and a device the four rows about the transfer to the host are filled together, exactly when the
      kernels differ and that transfer has a cost; so are the four rows about the transfer back. */
  lemma FilledTogether(s: Sizes, co: Coefs, i: nat, j: nat, k: nat)
    requires i < s.n && j < s.n && k < s.d
    ensures forall f: nat :: f in {0, 2, 3, 4} ==> (Filled(s, co, Link(f, i, j, k)) <==> i != j && co.d2h(i, j, k) != 0.0)
    ensures forall f: nat :: f in {1, 5, 6, 7} ==> (Filled(s, co, Link(f, i, j, k)) <==> i != j && co.h2d(i, j, k) != 0.0)
    ensures forall f: nat :: f >= 8 ==> !Filled(s, co, Link(f, i, j, k))
  {
  }

  // The entries of the rows in the order they are filled.
  function AllEntries(s: Sizes, co: Coefs, rows: seq<Row>): seq<Entry> {
    if rows == [] then [] else AllEntries(s, co, rows[..|rows| - 1]) + RowEntries(s, co, rows[|rows| - 1])
  }

  // The rows filled: a communication row only between different kernels and with a non-zero coefficient.
  predicate Filled(s: Sizes, co: Coefs, r: Row) {
    && RowOk(s, r)
    && (r.Link? ==> r.f < 8 && r.i != r.j && CoefOf(co, r.f, r.i, r.j, r.k) != 0.0)
  }

  // ---- What the rows say ----

  // The left-hand side a list of entries stands for, for these values of the variables.
  function Terms(es: seq<Entry>, val: Col -> real): real {
    if es == [] then 0.0
    else
      var e := es[|es| - 1];
      Terms(es[..|es| - 1], val) + e.value * val(e.col)
  }

  lemma {:induction false} TermsConcat(a: seq<Entry>, b: seq<Entry>, val: Col -> real)
    ensures Terms(a + b, val) == Terms(a, val) + Terms(b, val)
    decreases |b|
  {
    if b == [] {
      assert a + b == a;
    } else {
      TermsConcat(a, b[..|b| - 1], val);
      assert (a + b)[..|a + b| - 1] == a + b[..|b| - 1];
    }
  }

  lemma TermsOne(e: Entry, val: Col -> real)
    ensures Terms([e], val) == e.value * val(e.col)
  {
    assert [e][..0] == [];
  }

  lemma TermsTwo(e: Entry, e': Entry, val: Col -> real)
    ensures Terms([e, e'], val) == e.value * val(e.col) + e'.value * val(e'.col)
  {
    TermsOne(e, val);
    assert [e, e'][..1] == [e];
  }

  lemma TermsThree(e: Entry, e': Entry, e'': Entry, val: Col -> real)
    ensures Terms([e, e', e''], val) == e.value * val(e.col) + e'.value * val(e'.col) + e''.value * val(e''.col)
  {
    TermsTwo(e, e', val);
    assert [e, e', e''][..2] == [e, e'];
  }

  // The shares of kernel i on the devices.
  function SharesOf(s: Sizes, val: Col -> real, i: nat): (x: seq<real>)
    ensures |x| == s.d
  {
    seq(s.d, j requires 0 <= j < s.d => val(Gr(i, j)))
  }

  lemma {:induction false} SharesTerms(s: Sizes, r: Row, i: nat, j: nat, m: nat, v: real, val: Col -> real)
    requires m <= s.d
    ensures Terms(Shares(r, i, j, m, v), val)
      == v * (CommConstraints.Prefix(SharesOf(s, val, i), m) - CommConstraints.Prefix(SharesOf(s, val, j), m))
    decreases m
  {
    if m == 0 {
    } else {
      var e, e' := Entry(r, Gr(i, m - 1), v), Entry(r, Gr(j, m - 1), -v);
      SharesTerms(s, r, i, j, m - 1, v, val);
      TermsConcat(Shares(r, i, j, m - 1, v), [e, e'], val);
      TermsTwo(e, e', val);
      Spread(v, CommConstraints.Prefix(SharesOf(s, val, i), m - 1) - CommConstraints.Prefix(SharesOf(s, val, j), m - 1),
             val(e.col), val(e'.col));
    }
  }

  lemma Spread(v: real, x: real, y: real, z: real)
    ensures v * x + (v * y + (-v) * z) == v * (x + y - z)
  {
  }

  lemma {:induction false} SumsTerms(s: Sizes, r: Row, i: nat, m: nat, val: Col -> real)
    requires m <= s.d
    ensures Terms(Sums(r, i, m), val) == CommConstraints.Prefix(SharesOf(s, val, i), m)
    decreases m
  {
    if m == 0 {
    } else {
      SumsTerms(s, r, i, m - 1, val);
      assert Sums(r, i, m)[..|Sums(r, i, m)| - 1] == Sums(r, i, m - 1);
    }
  }

  // The left-hand side of each row. For kernel `cur` after kernel `prev` on device k: the time of a kernel's transfers
  // against that of this one, what lies on the left of the old piece, what lies on its right, and the cost of both.
  ghost function Meaning(s: Sizes, co: Coefs, r: Row, val: Col -> real): real
    requires RowOk(s, r)
  {
    match r
    case Time(i, j) => co.perf(i, j) * val(X(i, j)) - val(T(i))
    case Gran(i, j) => co.gr(i, j) * val(X(i, j)) - val(Gr(i, j))
    case GranSum(i) => CommConstraints.Prefix(SharesOf(s, val, i), s.d)
    case Link(f, i, j, k) =>
      var cur, prev := SharesOf(s, val, i), SharesOf(s, val, j);
      var left, right := CommConstraints.Prefix(cur, k) - CommConstraints.Prefix(prev, k),
                         CommConstraints.Prefix(prev, k + 1) - CommConstraints.Prefix(cur, k + 1);
      match f
      case 0 => val(Comm(2, i, j, k)) - val(TD2H(i))
      case 1 => val(Comm(5, i, j, k)) - val(TH2D(i))
      case 2 => left - val(Comm(0, i, j, k))
      case 3 => right - val(Comm(1, i, j, k))
      case 4 => co.d2h(i, j, k) * (val(Comm(0, i, j, k)) + val(Comm(1, i, j, k))) - val(Comm(2, i, j, k))
      case 5 => left - val(Comm(3, i, j, k))
      case 6 => right - val(Comm(4, i, j, k))
      case 7 => co.h2d(i, j, k) * (val(Comm(3, i, j, k)) + val(Comm(4, i, j, k))) - val(Comm(5, i, j, k))
      case _ => 0.0
  }

  /** The entries of a row sum up to what the row says, for all values of the variables. */
  lemma RowMeaning(s: Sizes, co: Coefs, r: Row, val: Col -> real)
    requires RowOk(s, r)
    ensures Terms(RowEntries(s, co, r), val) == Meaning(s, co, r, val)
  {
    match r
    case GranSum(i) => SumsTerms(s, r, i, s.d, val);
    case Link(f, i, j, k) => LinkMeaning(s, co, f, i, j, k, val);
    case _ =>
      var es := RowEntries(s, co, r);
      TermsTwo(es[0], es[1], val);
  }

  lemma LinkMeaning(s: Sizes, co: Coefs, f: nat, i: nat, j: nat, k: nat, val: Col -> real)
    requires RowOk(s, Link(f, i, j, k))
    ensures Terms(RowEntries(s, co, Link(f, i, j, k)), val) == Meaning(s, co, Link(f, i, j, k), val)
  {
    if f in {0, 1} {
      var es := RowEntries(s, co, Link(f, i, j, k));
      TermsTwo(es[0], es[1], val);
    } else if f in {4, 7} {
      CostMeaning(s, co, f, i, j, k, val);
    } else {
      PartMeaning(s, co, f, i, j, k, val);
    }
  }

  // The rows of the left and right parts.
  lemma PartMeaning(s: Sizes, co: Coefs, f: nat, i: nat, j: nat, k: nat, val: Col -> real)
    requires RowOk(s, Link(f, i, j, k)) && f !in {0, 1, 4, 7}
    ensures Terms(RowEntries(s, co, Link(f, i, j, k)), val) == Meaning(s, co, Link(f, i, j, k), val)
  {
    var r := Link(f, i, j, k);
    if f in {2, 5} {
      LeftMeaning(s, co, f, i, j, k, val);
    } else if f in {3, 6} {
      PieceMeaning(s, r, i, j, k + 1, -1.0, Entry(r, Comm(if f == 3 then 1 else 4, i, j, k), -1.0), val);
    }
  }

  lemma LeftMeaning(s: Sizes, co: Coefs, f: nat, i: nat, j: nat, k: nat, val: Col -> real)
    requires RowOk(s, Link(f, i, j, k)) && f in {2, 5}
    ensures Terms(RowEntries(s, co, Link(f, i, j, k)), val) == Meaning(s, co, Link(f, i, j, k), val)
  {
    var r := Link(f, i, j, k);
    PieceMeaning(s, r, i, j, k, 1.0, Entry(r, Comm(if f == 2 then 0 else 3, i, j, k), -1.0), val);
  }

  // The rows of the cost.
  lemma CostMeaning(s: Sizes, co: Coefs, f: nat, i: nat, j: nat, k: nat, val: Col -> real)
    requires RowOk(s, Link(f, i, j, k)) && f in {4, 7}
    ensures Terms(RowEntries(s, co, Link(f, i, j, k)), val) == Meaning(s, co, Link(f, i, j, k), val)
  {
    var es := RowEntries(s, co, Link(f, i, j, k));
    TermsThree(es[0], es[1], es[2], val);
    Factored(es[0].value, val(es[0].col), val(es[1].col));
  }

  lemma Factored(c: real, a: real, b: real)
    ensures c * a + c * b == c * (a + b)
  {
  }

  lemma PieceMeaning(s: Sizes, r: Row, i: nat, j: nat, m: nat, v: real, e: Entry, val: Col -> real)
    requires m <= s.d && v in {1.0, -1.0}
    ensures Terms(Shares(r, i, j, m, v) + [e], val)
      == v * (CommConstraints.Prefix(SharesOf(s, val, i), m) - CommConstraints.Prefix(SharesOf(s, val, j), m))
         + e.value * val(e.col)
  {
    TermsConcat(Shares(r, i, j, m, v), [e], val);
    SharesTerms(s, r, i, j, m, v, val);
    TermsOne(e, val);
  }

  // ---- What is stored ----

  // The entries with this row number, against the values of the numbered variables.
  function RowSum(s: Sizes, es: seq<Entry>, row: int, x: int -> real): real {
    if es == [] then 0.0
    else
      var e := es[|es| - 1];
      RowSum(s, es[..|es| - 1], row, x) + if RowIdx(s, e.row) == row then e.value * x(ColIdx(s, e.col)) else 0.0
  }

  lemma {:induction false} RowSumConcat(s: Sizes, a: seq<Entry>, b: seq<Entry>, row: int, x: int -> real)
    ensures RowSum(s, a + b, row, x) == RowSum(s, a, row, x) + RowSum(s, b, row, x)
    decreases |b|
  {
    if b == [] {
      assert a + b == a;
    } else {
      RowSumConcat(s, a, b[..|b| - 1], row, x);
      assert (a + b)[..|a + b| - 1] == a + b[..|b| - 1];
    }
  }

  // The values of the variables, by column.
  function ByColumn(s: Sizes, x: int -> real): Col -> real {
    c => x(ColIdx(s, c))
  }

  lemma {:induction false} RowSumOne(s: Sizes, es: seq<Entry>, r: Row, r': Row, x: int -> real)
    requires RowOk(s, r) && RowOk(s, r') && forall p :: 0 <= p < |es| ==> es[p].row == r
    ensures RowSum(s, es, RowIdx(s, r'), x) == if r == r' then Terms(es, ByColumn(s, x)) else 0.0
    decreases |es|
  {
    if es == [] {
    } else {
      RowSumOne(s, es[..|es| - 1], r, r', x);
      if r != r' && RowIdx(s, r) == RowIdx(s, r') {
        RowInjective(s, r, r');
      }
    }
  }

  /** Over all entries of the filled rows, those with a row's number sum up to what the row says; a row that is not
      filled has none. */
  lemma {:induction false} StoredMeaning(s: Sizes, co: Coefs, rows: seq<Row>, r: Row, x: int -> real)
    requires FilledRows(s, co, rows) && RowOk(s, r)
    ensures RowSum(s, AllEntries(s, co, rows), RowIdx(s, r), x)
      == if r in rows then Meaning(s, co, r, ByColumn(s, x)) else 0.0
    decreases |rows|
  {
    if rows == [] {
    } else {
      var init, last := rows[..|rows| - 1], rows[|rows| - 1];
      StoredMeaning(s, co, init, r, x);
      RowSumConcat(s, AllEntries(s, co, init), RowEntries(s, co, last), RowIdx(s, r), x);
      RowEntriesDistinct(s, co, last);
      RowSumOne(s, RowEntries(s, co, last), last, r, x);
      RowMeaning(s, co, last, ByColumn(s, x));
    }
  }

  // The positions 1 to p of the three arrays with this row number.
  function MatrixRow(ia: seq<int>, ja: seq<int>, ar: seq<real>, row: int, x: int -> real, p: nat): real
    requires p < |ia| && p < |ja| && p < |ar|
  {
    if p == 0 then 0.0
    else MatrixRow(ia, ja, ar, row, x, p - 1) + if ia[p] == row then ar[p] * x(ja[p]) else 0.0
  }

  // ---- No position is filled twice ----

  ghost predicate OneRow(es: seq<Entry>, s: Sizes, r: Row) {
    && (forall p :: 0 <= p < |es| ==> es[p].row == r && ColOk(s, es[p].col))
    && (forall p, q :: 0 <= p < q < |es| ==> es[p].col != es[q].col)
  }

  lemma {:induction false} SharesOneRow(s: Sizes, r: Row, i: nat, j: nat, m: nat, v: real)
    requires i < s.n && j < s.n && i != j && m <= s.d
    ensures OneRow(Shares(r, i, j, m, v), s, r)
    ensures forall p :: 0 <= p < |Shares(r, i, j, m, v)| ==>
      Shares(r, i, j, m, v)[p].col.Gr? && Shares(r, i, j, m, v)[p].col.j < m
    decreases m
  {
    if m == 0 {
    } else {
      SharesOneRow(s, r, i, j, m - 1, v);
    }
  }

  lemma {:induction false} SumsOneRow(s: Sizes, r: Row, i: nat, m: nat)
    requires i < s.n && m <= s.d
    ensures OneRow(Sums(r, i, m), s, r)
    ensures forall p :: 0 <= p < |Sums(r, i, m)| ==> Sums(r, i, m)[p].col.Gr? && Sums(r, i, m)[p].col.j < m
    decreases m
  {
    if m == 0 {
    } else {
      SumsOneRow(s, r, i, m - 1);
    }
  }

  // The entries of a row lie in that row, in different columns, and are at most 2 * d + 1.
  lemma RowEntriesDistinct(s: Sizes, co: Coefs, r: Row)
    requires Filled(s, co, r)
    ensures OneRow(RowEntries(s, co, r), s, r) && |RowEntries(s, co, r)| <= 2 * s.d + 1
  {
    match r
    case GranSum(i) => SumsOneRow(s, r, i, s.d);
    case Link(f, i, j, k) =>
      if f in {2, 5} {
        SharesAndOne(s, r, i, j, k, 1.0, Entry(r, Comm(if f == 2 then 0 else 3, i, j, k), -1.0));
      } else if f in {3, 6} {
        SharesAndOne(s, r, i, j, k + 1, -1.0, Entry(r, Comm(if f == 3 then 1 else 4, i, j, k), -1.0));
      }
    case _ =>
  }

  lemma SharesAndOne(s: Sizes, r: Row, i: nat, j: nat, m: nat, v: real, e: Entry)
    requires i < s.n && j < s.n && i != j && m <= s.d && e.row == r && e.col.Comm? && ColOk(s, e.col)
    ensures OneRow(Shares(r, i, j, m, v) + [e], s, r)
  {
    SharesOneRow(s, r, i, j, m, v);
  }

  // Two entries at different places of the matrix.
  predicate Apart(s: Sizes, e: Entry, e': Entry) {
    RowIdx(s, e.row) != RowIdx(s, e'.row) || ColIdx(s, e.col) != ColIdx(s, e'.col)
  }

  lemma ApartSymbols(s: Sizes, e: Entry, e': Entry)
    requires RowOk(s, e.row) && RowOk(s, e'.row) && ColOk(s, e.col) && ColOk(s, e'.col)
    requires e.row != e'.row || e.col != e'.col
    ensures Apart(s, e, e')
  {
    if RowIdx(s, e.row) == RowIdx(s, e'.row) {
      RowInjective(s, e.row, e'.row);
    }
    if ColIdx(s, e.col) == ColIdx(s, e'.col) {
      ColInjective(s, e.col, e'.col);
    }
  }

  ghost predicate FilledRows(s: Sizes, co: Coefs, rows: seq<Row>) {
    && AllFilled(s, co, rows)
    && (forall p, q :: 0 <= p < q < |rows| ==> rows[p] != rows[q])
  }

  ghost predicate WellFormed(s: Sizes, es: seq<Entry>) {
    && (forall p :: 0 <= p < |es| ==> RowOk(s, es[p].row) && ColOk(s, es[p].col))
    && (forall p, q :: 0 <= p < q < |es| ==> Apart(s, es[p], es[q]))
  }

  lemma {:induction false} EntriesCount(s: Sizes, co: Coefs, rows: seq<Row>)
    requires forall p :: 0 <= p < |rows| ==> Filled(s, co, rows[p])
    ensures |AllEntries(s, co, rows)| <= |rows| * (2 * s.d + 1)
    decreases |rows|
  {
    if rows == [] {
    } else {
      EntriesCount(s, co, rows[..|rows| - 1]);
      RowEntriesDistinct(s, co, rows[|rows| - 1]);
      OneMore(|rows| - 1, 2 * s.d + 1);
    }
  }

  lemma OneMore(a: nat, m: nat)
    ensures (a + 1) * m == a * m + m
  {
  }

  lemma {:induction false} EntriesInRows(s: Sizes, co: Coefs, rows: seq<Row>, p: nat) returns (q: nat)
    requires forall p :: 0 <= p < |rows| ==> Filled(s, co, rows[p])
    requires p < |AllEntries(s, co, rows)|
    ensures q < |rows| && AllEntries(s, co, rows)[p].row == rows[q]
    decreases |rows|
  {
    var init, r := rows[..|rows| - 1], rows[|rows| - 1];
    if p < |AllEntries(s, co, init)| {
      q := EntriesInRows(s, co, init, p);
    } else {
      RowEntriesDistinct(s, co, r);
      q := |rows| - 1;
    }
  }

  /** Filling different rows one after the other never fills a position twice. */
  lemma {:induction false} EntriesWellFormed(s: Sizes, co: Coefs, rows: seq<Row>)
    requires FilledRows(s, co, rows)
    ensures WellFormed(s, AllEntries(s, co, rows))
    decreases |rows|
  {
    if rows == [] {
    } else {
      var init, r := rows[..|rows| - 1], rows[|rows| - 1];
      EntriesWellFormed(s, co, init);
      RowEntriesDistinct(s, co, r);
      var a := AllEntries(s, co, init);
      forall p | 0 <= p < |a| ensures a[p].row != r {
        var q := EntriesInRows(s, co, init, p);
      }
      Join(s, a, RowEntries(s, co, r), r);
    }
  }

  lemma Join(s: Sizes, a: seq<Entry>, b: seq<Entry>, r: Row)
    requires WellFormed(s, a) && OneRow(b, s, r) && RowOk(s, r)
    requires forall p :: 0 <= p < |a| ==> a[p].row != r
    ensures WellFormed(s, a + b)
  {
    var c := a + b;
    forall p, q | 0 <= p < q < |c| ensures Apart(s, c[p], c[q]) {
      if q >= |a| {
        if p >= |a| {
          assert b[p - |a|].col != b[q - |a|].col;
        }
        ApartSymbols(s, c[p], c[q]);
      }
    }
  }

  // ---- Room in the arrays ----

  // The arrays are large enough for as many rows as there are.
  lemma Capacity(s: Sizes, rows: nat)
    requires s.n > 0 && rows <= NbRows(s)
    ensures rows * (2 * s.d + 1) <= NbRows(s) * NbCols(s)
    ensures NbRows(s) * NbCols(s) <= (NbRows(s) + 1) * (NbCols(s) + 1) - 1
  {
    var m, c := 2 * s.d + 1, NbCols(s);
    MulMonotone(1, s.n, 2 * s.d);
    assert m <= c;
    MulMonotone(rows, NbRows(s), m);
    MulMonotone(m, c, NbRows(s));
    assert (NbRows(s) + 1) * (c + 1) == NbRows(s) * c + NbRows(s) + c + 1;
  }

  // ---- The order in which rows are filled ----

  function CoefOf(co: Coefs, f: nat, i: nat, j: nat, k: nat): real {
    if f in {0, 2, 3, 4} then co.d2h(i, j, k) else co.h2d(i, j, k)
  }

  // Row r is filled before row r'.
  predicate Before(r: Row, r': Row) {
    if r.Link? && r'.Link? then
      r.f < r'.f || (r.f == r'.f && (r.i < r'.i || (r.i == r'.i && (r.j < r'.j || (r.j == r'.j && r.k < r'.k)))))
    else if r.Link? || r'.Link? then r'.Link?
    else
      r.i < r'.i || (r.i == r'.i && !r.GranSum? && (r'.GranSum? || r.j < r'.j || (r.j == r'.j && r.Time? && r'.Gran?)))
  }

  // A number that grows along the order.
  function Key(s: Sizes, r: Row): nat {
    match r
    case Time(i, j) => i * (2 * s.d + 1) + 2 * j
    case Gran(i, j) => i * (2 * s.d + 1) + 2 * j + 1
    case GranSum(i) => i * (2 * s.d + 1) + 2 * s.d
    case Link(f, i, j, k) => KernelRows(s) + f * Triples(s) + Triple(s, i, j, k)
  }

  lemma KeyRange(s: Sizes, r: Row)
    requires RowOk(s, r)
    ensures Key(s, r) < NbRows(s) && (!r.Link? ==> Key(s, r) < KernelRows(s))
  {
    match r
    case Link(f, i, j, k) => LinkRange(s, r);
    case Time(i, j) => Within(i, 2 * j, s.n, 2 * s.d + 1);
    case Gran(i, j) => Within(i, 2 * j + 1, s.n, 2 * s.d + 1);
    case GranSum(i) => Within(i, 2 * s.d, s.n, 2 * s.d + 1);
  }

  // A smaller quotient gives a smaller number, whatever the remainders.
  lemma SmallerQuotient(i: nat, r: nat, i': nat, r': nat, m: nat)
    requires r < m && i < i'
    ensures i * m + r < i' * m + r'
  {
    MulMonotone(i + 1, i', m);
    OneMore(i, m);
  }

  // The part of a key that depends on the place in a kernel's block.
  function InKeyBlock(s: Sizes, r: Row): nat
    requires !r.Link?
  {
    match r
    case Time(_, j) => 2 * j
    case Gran(_, j) => 2 * j + 1
    case GranSum(_) => 2 * s.d
  }

  lemma BlockKeyGrows(s: Sizes, r: Row, r': Row)
    requires RowOk(s, r) && RowOk(s, r') && !r.Link? && !r'.Link? && Before(r, r')
    ensures Key(s, r) < Key(s, r')
  {
    var b, b' := InKeyBlock(s, r), InKeyBlock(s, r');
    if r.i < r'.i {
      SmallerQuotient(r.i, b, r'.i, b', 2 * s.d + 1);
    } else {
      assert b < b';
    }
  }

  lemma KeyGrows(s: Sizes, r: Row, r': Row)
    requires RowOk(s, r) && RowOk(s, r') && Before(r, r')
    ensures Key(s, r) < Key(s, r')
  {
    if r.Link? {
      LinkKeyGrows(s, r, r');
    } else if r'.Link? {
      KeyRange(s, r);
      LinkKeyAbove(s, r');
    } else {
      BlockKeyGrows(s, r, r');
    }
  }

  lemma LinkKeyAbove(s: Sizes, r: Row)
    requires RowOk(s, r) && r.Link?
    ensures Key(s, r) >= KernelRows(s)
  {
    AboveBase(KernelRows(s), r.f, Triples(s), Triple(s, r.i, r.j, r.k));
  }

  lemma AboveBase(base: nat, f: nat, m: nat, x: nat)
    ensures base + f * m + x >= base
  {
    MulMonotone(0, f, m);
  }

  lemma LinkKeyGrows(s: Sizes, r: Row, r': Row)
    requires RowOk(s, r) && RowOk(s, r') && r.Link? && Before(r, r')
    ensures Key(s, r) < Key(s, r')
  {
    TripleBelow(s, r.i, r.j, r.k);
    if r.f < r'.f {
      SmallerQuotient(r.f, Triple(s, r.i, r.j, r.k), r'.f, Triple(s, r'.i, r'.j, r'.k), Triples(s));
    } else {
      TripleGrows(s, r, r');
    }
  }

  lemma TripleGrows(s: Sizes, r: Row, r': Row)
    requires RowOk(s, r) && RowOk(s, r') && r.Link? && Before(r, r') && r.f == r'.f
    ensures Triple(s, r.i, r.j, r.k) < Triple(s, r'.i, r'.j, r'.k)
  {
    Within(r.j, r.k, s.n, s.d);
    if r.i < r'.i {
      SmallerQuotient(r.i, r.j * s.d + r.k, r'.i, r'.j * s.d + r'.k, s.n * s.d);
    } else if r.j < r'.j {
      SmallerQuotient(r.j, r.k, r'.j, r'.k, s.d);
    }
  }

  ghost predicate Increasing(rows: seq<Row>) {
    forall p, q :: 0 <= p < q < |rows| ==> Before(rows[p], rows[q])
  }

  ghost predicate AllFilled(s: Sizes, co: Coefs, rows: seq<Row>) {
    forall p :: 0 <= p < |rows| ==> Filled(s, co, rows[p])
  }

  // Rows in order have at least as large keys as positions.
  lemma {:induction false} KeyAtLeast(s: Sizes, co: Coefs, rows: seq<Row>, p: nat)
    requires Increasing(rows) && AllFilled(s, co, rows) && p < |rows|
    ensures p <= Key(s, rows[p])
    decreases p
  {
    if p == 0 {
    } else {
      KeyAtLeast(s, co, rows, p - 1);
      KeyGrows(s, rows[p - 1], rows[p]);
    }
  }

  lemma RowCount(s: Sizes, co: Coefs, rows: seq<Row>)
    requires Increasing(rows) && AllFilled(s, co, rows)
    ensures |rows| <= NbRows(s)
  {
    if rows != [] {
      KeyAtLeast(s, co, rows, |rows| - 1);
      KeyRange(s, rows[|rows| - 1]);
    }
  }

  // ---- Cursors ----

  // The rows are those before the cursor that have a coefficient, in order.
  ghost predicate UpTo(s: Sizes, co: Coefs, rows: seq<Row>, cursor: Row) {
    && Increasing(rows) && AllFilled(s, co, rows)
    && (forall p :: 0 <= p < |rows| ==> Before(rows[p], cursor))
    && (forall r :: Filled(s, co, r) && Before(r, cursor) ==> r in rows)
  }

  // No row lies between the cursor and the next one, except the cursor itself.
  ghost predicate Next(s: Sizes, cursor: Row, next: Row) {
    forall r :: RowOk(s, r) && (Before(r, cursor) || r == cursor) ==> Before(r, next)
  }

  ghost predicate Nothing(s: Sizes, co: Coefs, cursor: Row, next: Row, but: Row) {
    forall r :: Filled(s, co, r) && Before(r, next) ==> Before(r, cursor) || r == but
  }

  lemma Skip(s: Sizes, co: Coefs, rows: seq<Row>, cursor: Row, next: Row)
    requires UpTo(s, co, rows, cursor) && Next(s, cursor, next) && Nothing(s, co, cursor, next, cursor) && !Filled(s, co, cursor)
    ensures UpTo(s, co, rows, next)
  {
    forall p | 0 <= p < |rows| ensures Before(rows[p], next) {
      assert Filled(s, co, rows[p]);
    }
  }

  lemma Add(s: Sizes, co: Coefs, rows: seq<Row>, cursor: Row, next: Row)
    requires UpTo(s, co, rows, cursor) && Next(s, cursor, next) && Nothing(s, co, cursor, next, cursor) && Filled(s, co, cursor)
    ensures UpTo(s, co, rows + [cursor], next)
  {
    var more := rows + [cursor];
    forall p | 0 <= p < |more| ensures Before(more[p], next) && Filled(s, co, more[p]) {
      if p < |rows| {
        assert Filled(s, co, rows[p]);
      }
    }
    forall r | Filled(s, co, r) && Before(r, next) ensures r in more {
      if r == cursor {
        assert more[|rows|] == r;
      }
    }
  }

  // ---- updateGlpMatrix ----

  class MultiKernelSolver {
    const s: Sizes
    var co: Coefs // changes from one call to the next
    const ia: array<int>
    const ja: array<int>
    const ar: array<real>
    var idx: nat
    ghost var rows: seq<Row> // filled so far, in order

    ghost predicate Arrays() {
      && s.n > 0 && ia.Length == ja.Length == 1 + NbRows(s) * NbCols(s)
      && ar.Length == (NbRows(s) + 1) * (NbCols(s) + 1) && ia != ja
    }

    // The arrays hold these entries, from position 1 on.
    ghost predicate Holds(es: seq<Entry>)
      reads this, ia, ja, ar
    {
      && idx == 1 + |es| <= ia.Length && idx <= ja.Length && idx <= ar.Length
      && forall p :: 0 <= p < |es| ==> HoldsAt(es, p)
    }

    ghost predicate HoldsAt(es: seq<Entry>, p: nat)
      requires p < |es|
      reads ia, ja, ar
    {
      && p + 1 < ia.Length && p + 1 < ja.Length && p + 1 < ar.Length
      && ia[p + 1] == RowIdx(s, es[p].row) && ja[p + 1] == ColIdx(s, es[p].col) && ar[p + 1] == es[p].value
    }

    // The rows filled so far and nothing else are in the arrays.
    ghost predicate Valid()
      reads this, ia, ja, ar
    {
      exists es: seq<Entry> :: Holds(es) && es == AllEntries(s, co, rows) && Arrays() && AllFilled(s, co, rows)
    }

    // createGlpProb allocates the arrays.
    constructor (s: Sizes, co: Coefs)
      requires s.n > 0
      ensures Valid() && this.s == s && this.co == co && rows == [] && fresh(ia) && fresh(ja) && fresh(ar)
    {
      this.s, this.co := s, co;
      Capacity(s, 0);
      ia := new int[1 + NbRows(s) * NbCols(s)](_ => 0);
      ja := new int[1 + NbRows(s) * NbCols(s)](_ => 0);
      ar := new real[(NbRows(s) + 1) * (NbCols(s) + 1)](_ => 0.0);
      idx := 1;
      rows := [];
      new;
      assert Holds(AllEntries(s, co, rows));
    }

    // The performances, granularities and communication coefficients of the next call.
    method SetCoefs(co: Coefs)
      requires Arrays()
      modifies this`co
      ensures Arrays() && this.co == co
    {
      this.co := co;
    }

    method Put(e: Entry, ghost es: seq<Entry>)
      requires Arrays() && Holds(es) && idx < ia.Length && idx < ar.Length
      modifies this`idx, ia, ja, ar
      ensures Holds(es + [e])
    {
      ia[idx] := RowIdx(s, e.row);
      ja[idx] := ColIdx(s, e.col);
      ar[idx] := e.value;
      idx := idx + 1;
      forall p | 0 <= p < |es + [e]| ensures HoldsAt(es + [e], p) {
        assert p < |es| ==> old(HoldsAt(es, p));
      }
    }

    method PutAll(news: seq<Entry>, ghost es: seq<Entry>)
      requires Arrays() && Holds(es) && idx + |news| <= ia.Length && idx + |news| <= ar.Length
      modifies this`idx, ia, ja, ar
      ensures Holds(es + news)
    {
      assert es + news[..0] == es;
      for i := 0 to |news|
        invariant Holds(es + news[..i])
      {
        Put(news[i], es + news[..i]);
        assert es + news[..i] + [news[i]] == es + news[..i + 1];
      }
      assert news[..|news|] == news;
    }

    // The entries of one row.
    method PutRow(r: Row, ghost next: Row)
      requires Valid() && UpTo(s, co, rows, r) && Filled(s, co, r)
      requires Next(s, r, next) && Nothing(s, co, r, next, r)
      modifies this`idx, this`rows, ia, ja, ar
      ensures Valid() && UpTo(s, co, rows, next)
    {
      ghost var more := rows + [r];
      Add(s, co, rows, r, next);
      RowCount(s, co, more);
      EntriesCount(s, co, more);
      Capacity(s, |more|);
      assert more[..|rows|] == rows;
      PutAll(RowEntries(s, co, r), AllEntries(s, co, rows));
      rows := more;
      assert Holds(AllEntries(s, co, rows));
    }

    // The rows of kernel i.
    method FillKernel(i: nat)
      requires Valid() && i < s.n && UpTo(s, co, rows, Time(i, 0))
      modifies this`idx, this`rows, ia, ja, ar
      ensures Valid() && UpTo(s, co, rows, Time(i + 1, 0))
    {
      for j := 0 to s.d
        invariant Valid() && UpTo(s, co, rows, Time(i, j))
      {
        PutRow(Time(i, j), Gran(i, j));
        PutRow(Gran(i, j), Time(i, j + 1));
      }
      Skip(s, co, rows, Time(i, s.d), GranSum(i));
      PutRow(GranSum(i), Time(i + 1, 0));
    }

    // The rows of one family between two kernels.
    method FillDevices(f: nat, kcur: nat, kprev: nat)
      requires Valid() && f < 8 && kcur < s.n && kprev < s.n && kcur != kprev && UpTo(s, co, rows, Link(f, kcur, kprev, 0))
      modifies this`idx, this`rows, ia, ja, ar
      ensures Valid() && UpTo(s, co, rows, Link(f, kcur, kprev + 1, 0))
    {
      for dev := 0 to s.d
        invariant Valid() && UpTo(s, co, rows, Link(f, kcur, kprev, dev))
      {
        if CoefOf(co, f, kcur, kprev, dev) == 0.0 {
          Skip(s, co, rows, Link(f, kcur, kprev, dev), Link(f, kcur, kprev, dev + 1));
          continue;
        }
        PutRow(Link(f, kcur, kprev, dev), Link(f, kcur, kprev, dev + 1));
      }
      Skip(s, co, rows, Link(f, kcur, kprev, s.d), Link(f, kcur, kprev + 1, 0));
    }

    // The rows of one family between one kernel and the others.
    method FillPairs(f: nat, kcur: nat)
      requires Valid() && f < 8 && kcur < s.n && UpTo(s, co, rows, Link(f, kcur, 0, 0))
      modifies this`idx, this`rows, ia, ja, ar
      ensures Valid() && UpTo(s, co, rows, Link(f, kcur + 1, 0, 0))
    {
      for kprev := 0 to s.n
        invariant Valid() && UpTo(s, co, rows, Link(f, kcur, kprev, 0))
      {
        if kcur == kprev {
          Skip(s, co, rows, Link(f, kcur, kprev, 0), Link(f, kcur, kprev + 1, 0));
          continue;
        }
        FillDevices(f, kcur, kprev);
      }
      Skip(s, co, rows, Link(f, kcur, s.n, 0), Link(f, kcur + 1, 0, 0));
    }

    // One loop over kernels and devices: the rows of one family.
    method FillFamily(f: nat)
      requires Valid() && f < 8 && UpTo(s, co, rows, Link(f, 0, 0, 0))
      modifies this`idx, this`rows, ia, ja, ar
      ensures Valid() && UpTo(s, co, rows, Link(f + 1, 0, 0, 0))
    {
      for kcur := 0 to s.n
        invariant Valid() && UpTo(s, co, rows, Link(f, kcur, 0, 0))
      {
        FillPairs(f, kcur);
      }
      Skip(s, co, rows, Link(f, s.n, 0, 0), Link(f + 1, 0, 0, 0));
    }

    /** updateGlpMatrix starts over at each call and fills exactly the rows that have a coefficient, each entry at its
        row and column index; no position is filled twice and the arrays are never exceeded. */
    method UpdateGlpMatrix()
      requires Arrays()
      modifies this`idx, this`rows, ia, ja, ar
      ensures Valid() && forall r :: r in rows <==> Filled(s, co, r)
      ensures FilledRows(s, co, rows) && WellFormed(s, AllEntries(s, co, rows))
      ensures forall p, q :: 1 <= p < q < idx ==> ia[p] != ia[q] || ja[p] != ja[q]
      ensures forall p :: 1 <= p < idx ==> 1 <= ia[p] <= NbRows(s) && 1 <= ja[p] <= NbCols(s)
    {
      idx, rows := 1, [];
      assert Holds(AllEntries(s, co, rows));
      for i := 0 to s.n
        invariant Valid() && UpTo(s, co, rows, Time(i, 0))
      {
        FillKernel(i);
      }
      Skip(s, co, rows, Time(s.n, 0), Link(0, 0, 0, 0));
      for f := 0 to 8
        invariant Valid() && UpTo(s, co, rows, Link(f, 0, 0, 0))
      {
        FillFamily(f);
      }
      forall r ensures r in rows <==> Filled(s, co, r) {
        assert Filled(s, co, r) ==> Before(r, Link(8, 0, 0, 0));
      }
      EntriesWellFormed(s, co, rows);
      PositionsDistinct();
    }

    lemma {:induction false} ArraysHold(es: seq<Entry>, p: nat, row: int, x: int -> real)
      requires Holds(es) && p <= |es|
      ensures MatrixRow(ia[..], ja[..], ar[..], row, x, p) == RowSum(s, es[..p], row, x)
      decreases p
    {
      if p == 0 {
      } else {
        ArraysHold(es, p - 1, row, x);
        assert es[..p][..p - 1] == es[..p - 1];
        assert HoldsAt(es, p - 1);
      }
    }

    /** In the arrays the coefficients of every row stand for what the row says. */
    lemma MatrixMeaning(r: Row, x: int -> real)
      requires Valid() && FilledRows(s, co, rows) && RowOk(s, r)
      ensures 0 < idx <= ia.Length && idx <= ja.Length && idx <= ar.Length
      ensures MatrixRow(ia[..], ja[..], ar[..], RowIdx(s, r), x, idx - 1)
        == if r in rows then Meaning(s, co, r, ByColumn(s, x)) else 0.0
    {
      var es := AllEntries(s, co, rows);
      ArraysHold(es, |es|, RowIdx(s, r), x);
      assert es[..|es|] == es;
      StoredMeaning(s, co, rows, r, x);
    }

    lemma PositionsDistinct()
      requires Valid() && WellFormed(s, AllEntries(s, co, rows))
      ensures forall p, q :: 1 <= p < q < idx ==> ia[p] != ia[q] || ja[p] != ja[q]
      ensures forall p :: 1 <= p < idx ==> 1 <= ia[p] <= NbRows(s) && 1 <= ja[p] <= NbCols(s)
    {
      var es := AllEntries(s, co, rows);
      forall p | 1 <= p < idx
        ensures 1 <= ia[p] <= NbRows(s) && 1 <= ja[p] <= NbCols(s)
        ensures ia[p] == RowIdx(s, es[p - 1].row) && ja[p] == ColIdx(s, es[p - 1].col)
      {
        assert HoldsAt(es, p - 1);
        RowRange(s, es[p - 1].row);
        ColRange(s, es[p - 1].col);
      }
      forall p, q | 1 <= p < q < idx ensures ia[p] != ia[q] || ja[p] != ja[q] {
        assert Apart(s, es[p - 1], es[q - 1]);
      }
    }
  }
}
