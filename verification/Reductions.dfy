/** The host side of atomic sums (libsplit/src/Driver.cpp, startAtomicSumD2HTransfers, doReduction,
    performHostAtomicSumReduction). Memory is a sequence of elements, regions count elements, and integer elements
    are residues modulo 2^w. */
module Reductions {
  import opened Arithmetic
  import opened Intervals
  import Bounds

  // ---- Packing the region of a device into a temporary buffer ----

  predicate InBuffer(region: seq<Interval>, size: nat) {
    forall i :: 0 <= i < |region| ==> region[i].lb <= region[i].hb < size
  }

  // The elements of the first i intervals, one interval after the other.
  function PackedTo(mem: seq<int>, region: seq<Interval>, i: nat): (p: seq<int>)
    requires InBuffer(region, |mem|) && i <= |region|
    ensures |p| == Offset(region, i)
  {
    if i == 0 then [] else PackedTo(mem, region, i - 1) + mem[region[i - 1].lb..region[i - 1].hb + 1]
  }

  function Packed(mem: seq<int>, region: seq<Interval>): (p: seq<int>)
    requires InBuffer(region, |mem|)
    ensures |p| == Offset(region, |region|)
  {
    PackedTo(mem, region, |region|)
  }

  // Where interval i starts in the temporary buffer.
  function Offset(region: seq<Interval>, i: nat): (o: int)
    requires i <= |region|
  {
    if i == 0 then 0 else Offset(region, i - 1) + (region[i - 1].hb - region[i - 1].lb + 1)
  }

  lemma {:induction false} PackedPrefix(mem: seq<int>, region: seq<Interval>, i: nat, n: nat)
    requires InBuffer(region, |mem|) && i <= n <= |region|
    ensures PackedTo(mem, region, i) <= PackedTo(mem, region, n)
    decreases n
  {
    if i == n {
    } else {
      PackedPrefix(mem, region, i, n - 1);
    }
  }

  /** Unpacking by running offset undoes packing: element j of interval i is where the offset says. */
  lemma PackedAt(mem: seq<int>, region: seq<Interval>, i: nat, j: nat)
    requires InBuffer(region, |mem|) && i < |region| && j <= region[i].hb - region[i].lb
    ensures 0 <= Offset(region, i) + j < |Packed(mem, region)|
    ensures Packed(mem, region)[Offset(region, i) + j] == mem[region[i].lb + j]
  {
    PackedPrefix(mem, region, i + 1, |region|);
    var p := PackedTo(mem, region, i + 1);
    assert p == PackedTo(mem, region, i) + mem[region[i].lb..region[i].hb + 1];
    assert p[Offset(region, i) + j] == mem[region[i].lb..region[i].hb + 1][j];
    assert Packed(mem, region)[Offset(region, i) + j] == p[Offset(region, i) + j];
  }

  // startAtomicSumD2HTransfers for one device.
  method Pack(mem: seq<int>, region: seq<Interval>, tmp: array<int>)
    requires InBuffer(region, |mem|) && tmp.Length == Offset(region, |region|)
    modifies tmp
    ensures tmp[..] == Packed(mem, region)
  {
    var tmpOffset := 0;
    PackedPrefix(mem, region, 0, |region|);
    for i := 0 to |region|
      invariant 0 <= tmpOffset == Offset(region, i) <= tmp.Length
      invariant tmp[..tmpOffset] == PackedTo(mem, region, i)
    {
      PackedPrefix(mem, region, i + 1, |region|);
      var cb := region[i].hb - region[i].lb + 1;
      CopyInto(mem, region[i].lb, cb, tmp, tmpOffset);
      tmpOffset := tmpOffset + cb;
    }
    assert tmp[..tmpOffset] == tmp[..];
  }

  method CopyInto(mem: seq<int>, from: nat, n: nat, tmp: array<int>, to: nat)
    requires from + n <= |mem| && to + n <= tmp.Length
    modifies tmp
    ensures tmp[..to + n] == old(tmp[..to]) + mem[from..from + n]
  {
    for j := 0 to n
      invariant tmp[..to] == old(tmp[..to])
      invariant tmp[to..to + j] == mem[from..from + j]
    {
      tmp[to + j] := mem[from + j];
      assert tmp[to..to + j + 1] == tmp[to..to + j] + [mem[from + j]];
    }
    assert tmp[..to + n] == tmp[..to] + tmp[to..to + n];
  }

  // ---- Summing ----

  // The sum of the values the devices hold for one element.
  function SumAt(devs: seq<seq<int>>, x: nat, n: nat): int
    requires n <= |devs| && forall d :: 0 <= d < n ==> x < |devs[d]|
  {
    if n == 0 then 0 else SumAt(devs, x, n - 1) + devs[n - 1][x]
  }

  // The device contributions on top of the value they started from.
  function Contributions(devs: seq<seq<int>>, local: int, x: nat, n: nat): int
    requires n <= |devs| && forall d :: 0 <= d < n ==> x < |devs[d]|
  {
    if n == 0 then 0 else Contributions(devs, local, x, n - 1) + (devs[n - 1][x] - local)
  }

  lemma {:induction false} ContributionsOf(devs: seq<seq<int>>, local: int, x: nat, n: nat)
    requires n <= |devs| && forall d :: 0 <= d < n ==> x < |devs[d]|
    ensures Contributions(devs, local, x, n) == SumAt(devs, x, n) - n * local
    decreases n
  {
    if n == 0 {
    } else {
      ContributionsOf(devs, local, x, n - 1);
      assert n * local == (n - 1) * local + local;
    }
  }

  lemma ModAdd(a: int, b: int, m: nat)
    requires m > 0
    ensures (a % m + b) % m == (a + b) % m
  {
    var q := a / m;
    Division(a, m);
    Division(a % m + b, m);
    var q1 := (a % m + b) / m;
    assert a + b == m * (q + q1) + (a % m + b) % m by {
      assert m * (q + q1) == m * q + m * q1;
    }
    ModIs(a + b, m, q + q1, (a % m + b) % m);
  }

  // Every value is an element of the given width.
  ghost predicate Residues(s: seq<int>, m: nat) {
    forall x :: 0 <= x < |s| ==> 0 <= s[x] < m
  }

  // One element of the first loop of doReduction.
  method SumElement(tmps: seq<array<int>>, ghost packs: seq<seq<int>>, i: nat, m: nat)
    requires m > 0 && |tmps| > 0 && |packs| == |tmps| && i < tmps[0].Length
    requires forall d :: 0 <= d < |tmps| ==> tmps[d].Length == tmps[0].Length == |packs[d]|
    requires forall d :: 0 < d < |tmps| ==> tmps[d] != tmps[0] && tmps[d][..] == packs[d]
    requires tmps[0][i] == packs[0][i] && 0 <= packs[0][i] < m
    modifies tmps[0]
    ensures tmps[0][i] == SumAt(packs, i, |packs|) % m
    ensures forall k :: 0 <= k < tmps[0].Length && k != i ==> tmps[0][k] == old(tmps[0][k])
  {
    assert SumAt(packs, i, 1) == packs[0][i];
    for d := 1 to |tmps|
      invariant tmps[0][i] == SumAt(packs, i, d) % m
      invariant forall k :: 0 <= k < tmps[0].Length && k != i ==> tmps[0][k] == old(tmps[0][k])
    {
      assert tmps[d][i] == packs[d][i];
      var elem := tmps[d][i];
      ModAdd(SumAt(packs, i, d), elem, m);
      tmps[0][i] := (tmps[0][i] + elem) % m;
    }
  }

  method SumAll(tmps: seq<array<int>>, ghost packs: seq<seq<int>>, m: nat)
    requires m > 0 && |tmps| > 0 && |packs| == |tmps|
    requires forall d :: 0 <= d < |tmps| ==> tmps[d].Length == tmps[0].Length && tmps[d][..] == packs[d]
    requires forall d :: 0 < d < |tmps| ==> tmps[d] != tmps[0]
    requires Residues(packs[0], m)
    modifies tmps[0]
    ensures forall i :: 0 <= i < tmps[0].Length ==> tmps[0][i] == SumAt(packs, i, |packs|) % m
  {
    for i := 0 to tmps[0].Length
      invariant forall k :: 0 <= k < i ==> tmps[0][k] == SumAt(packs, k, |packs|) % m
      invariant forall k :: i <= k < tmps[0].Length ==> tmps[0][k] == packs[0][k]
      invariant forall d :: 0 < d < |tmps| ==> tmps[d][..] == packs[d]
    {
      SumElement(tmps, packs, i, m);
    }
  }

  // ---- Adding the contributions to the host buffer ----

  // The value the reduction is for: what the host had plus what each device added to it.
  function Reduced(devs: seq<seq<int>>, local: int, x: nat, m: nat): int
    requires m > 0 && forall d :: 0 <= d < |devs| ==> x < |devs[d]|
  {
    (local + Contributions(devs, local, x, |devs|)) % m
  }

  // Element x has been updated once j elements of interval i are.
  ghost predicate Done(region: seq<Interval>, i: nat, j: nat, x: nat)
    requires i <= |region|
  {
    x in Bytes(region[..i]) || (i < |region| && region[i].lb <= x < region[i].lb + j)
  }

  lemma DoneInterval(region: seq<Interval>, i: nat, x: nat)
    requires i < |region| && region[i].lb <= region[i].hb
    ensures Done(region, i, region[i].hb - region[i].lb + 1, x) <==> Done(region, i + 1, 0, x)
  {
    BytesPrefix(region, i);
  }

  lemma NotYetDone(region: seq<Interval>, i: nat, j: nat)
    requires Canonical(region) && i < |region| && j <= region[i].hb - region[i].lb
    ensures !Done(region, i, j, region[i].lb + j)
  {
  }

  lemma {:induction false} PackedSum(devs: seq<seq<int>>, region: seq<Interval>, packs: seq<seq<int>>, size: nat,
                                     i: nat, j: nat, n: nat)
    requires n <= |devs| == |packs| && i < |region| && j <= region[i].hb - region[i].lb && InBuffer(region, size)
    requires forall d :: 0 <= d < |devs| ==> |devs[d]| == size && packs[d] == Packed(devs[d], region)
    ensures 0 <= Offset(region, i) + j && (forall d :: 0 <= d < |packs| ==> Offset(region, i) + j < |packs[d]|)
    ensures SumAt(packs, Offset(region, i) + j, n) == SumAt(devs, region[i].lb + j, n)
    decreases n
  {
    forall d | 0 <= d < |packs|
      ensures 0 <= Offset(region, i) + j < |packs[d]| && packs[d][Offset(region, i) + j] == devs[d][region[i].lb + j]
    {
      PackedAt(devs[d], region, i, j);
    }
    if n > 0 {
      PackedSum(devs, region, packs, size, i, j, n - 1);
    } else {
      OffsetNonNegative(region, size, i);
    }
  }

  lemma {:induction false} OffsetNonNegative(region: seq<Interval>, size: nat, i: nat)
    requires InBuffer(region, size) && i <= |region|
    ensures Offset(region, i) >= 0
    decreases i
  {
    if i == 0 {
    } else {
      OffsetNonNegative(region, size, i - 1);
    }
  }

  // local + (sum - n * local), as the second loop computes it.
  lemma ReductionStep(devs: seq<seq<int>>, local: int, x: nat, m: nat)
    requires m > 0 && forall d :: 0 <= d < |devs| ==> x < |devs[d]|
    ensures (local + (SumAt(devs, x, |devs|) % m - |devs| * local)) % m == Reduced(devs, local, x, m)
  {
    ContributionsOf(devs, local, x, |devs|);
    var s, r := SumAt(devs, x, |devs|), local - |devs| * local;
    ModAdd(s, r, m);
  }

  // Element j of the interval at lb has its sum in the temporary buffer.
  ghost predicate SumStored(tmp: seq<int>, tmpOffset: nat, devs: seq<seq<int>>, lb: nat, j: nat, m: nat)
    requires m > 0
  {
    && tmpOffset + j < |tmp| && (forall d :: 0 <= d < |devs| ==> lb + j < |devs[d]|)
    && tmp[tmpOffset + j] == SumAt(devs, lb + j, |devs|) % m
  }

  // One interval of the second loop of doReduction.
  method AddInterval(local: array<int>, region: seq<Interval>, id: nat, tmp: seq<int>, tmpOffset: nat,
                     ghost devs: seq<seq<int>>, ghost before: seq<int>, nbDevices: nat, m: nat)
    requires m > 0 && Canonical(region) && InBuffer(region, local.Length) && id < |region|
    requires |before| == local.Length && nbDevices == |devs| && forall d :: 0 <= d < |devs| ==> |devs[d]| == local.Length
    requires forall j :: 0 <= j <= region[id].hb - region[id].lb ==> SumStored(tmp, tmpOffset, devs, region[id].lb, j, m)
    requires forall x :: 0 <= x < local.Length ==>
      local[x] == if Done(region, id, 0, x) then Reduced(devs, before[x], x, m) else before[x]
    modifies local
    ensures forall x :: 0 <= x < local.Length ==>
      local[x] == if Done(region, id + 1, 0, x) then Reduced(devs, before[x], x, m) else before[x]
  {
    var lb := region[id].lb;
    var numElem := region[id].hb - lb + 1;
    for i := 0 to numElem
      invariant forall x :: 0 <= x < local.Length ==>
        local[x] == if Done(region, id, i, x) then Reduced(devs, before[x], x, m) else before[x]
    {
      NotYetDone(region, id, i);
      assert SumStored(tmp, tmpOffset, devs, lb, i, m);
      ReductionStep(devs, before[lb + i], lb + i, m);
      local[lb + i] := (local[lb + i] + (tmp[tmpOffset + i] - nbDevices * local[lb + i])) % m;
      assert forall x: nat :: Done(region, id, i + 1, x) <==> Done(region, id, i, x) || x == lb + i;
    }
    forall x: nat ensures Done(region, id, numElem, x) <==> Done(region, id + 1, 0, x) {
      DoneInterval(region, id, x);
    }
  }

  method AddContributions(local: array<int>, region: seq<Interval>, tmp: seq<int>,
                          ghost devs: seq<seq<int>>, ghost packs: seq<seq<int>>, nbDevices: nat, m: nat)
    requires m > 0 && Canonical(region) && InBuffer(region, local.Length) && nbDevices == |devs| == |packs|
    requires forall d :: 0 <= d < |devs| ==> |devs[d]| == local.Length && packs[d] == Packed(devs[d], region)
    requires |devs| > 0 && |tmp| == |packs[0]|
    requires forall i :: 0 <= i < |tmp| && (forall d :: 0 <= d < |packs| ==> i < |packs[d]|) ==>
      tmp[i] == SumAt(packs, i, |packs|) % m
    modifies local
    ensures forall x :: 0 <= x < local.Length ==>
      local[x] == if x in Bytes(region) then Reduced(devs, old(local[..])[x], x, m) else old(local[..])[x]
  {
    ghost var before := local[..];
    var tmpOffset := 0;
    for id := 0 to |region|
      invariant tmpOffset == Offset(region, id) >= 0
      invariant forall x :: 0 <= x < local.Length ==>
        local[x] == if Done(region, id, 0, x) then Reduced(devs, before[x], x, m) else before[x]
    {
      forall j | 0 <= j <= region[id].hb - region[id].lb
        ensures SumStored(tmp, tmpOffset, devs, region[id].lb, j, m)
      {
        PackedSum(devs, region, packs, local.Length, id, j, |devs|);
      }
      AddInterval(local, region, id, tmp, tmpOffset, devs, before, nbDevices, m);
      OffsetNonNegative(region, local.Length, id + 1);
      tmpOffset := tmpOffset + (region[id].hb - region[id].lb + 1);
    }
    assert region[..|region|] == region;
  }

  /** doReduction: every element of the region becomes what the host had plus what each device added to it, modulo
      the width; every other element keeps its value. */
  method DoReduction(local: array<int>, region: seq<Interval>, tmps: seq<array<int>>, ghost devs: seq<seq<int>>, m: nat)
    requires m > 0 && Canonical(region) && InBuffer(region, local.Length) && |tmps| == |devs| > 0
    requires forall d :: 0 <= d < |devs| ==> |devs[d]| == local.Length && tmps[d][..] == Packed(devs[d], region)
    requires forall d :: 0 <= d < |tmps| ==> tmps[d] != local && (d > 0 ==> tmps[d] != tmps[0])
    requires Residues(tmps[0][..], m)
    modifies local, tmps[0]
    ensures forall x :: 0 <= x < local.Length ==>
      local[x] == if x in Bytes(region) then Reduced(devs, old(local[..])[x], x, m) else old(local[..])[x]
  {
    ghost var packs := seq(|tmps|, d requires 0 <= d < |tmps| reads tmps => tmps[d][..]);
    assert forall d :: 0 <= d < |tmps| ==> tmps[d].Length == |tmps[d][..]| == Offset(region, |region|);
    SumAll(tmps, packs, m);
    AddContributions(local, region, tmps[0][..], devs, packs, |tmps|, m);
  }

  // ---- Against one device ----

  // What device d added to element x.
  function AddedBy(added: seq<seq<int>>, x: nat, n: nat): int
    requires n <= |added| && forall d :: 0 <= d < n ==> x < |added[d]|
  {
    if n == 0 then 0 else AddedBy(added, x, n - 1) + added[n - 1][x]
  }

  // The contributions differ from what was added by a multiple of the width.
  lemma {:induction false} ContributionsAdded(devs: seq<seq<int>>, added: seq<seq<int>>, local: int, x: nat, n: nat, m: nat)
    returns (k: int)
    requires m > 0 && n <= |devs| == |added|
    requires forall d :: 0 <= d < |devs| ==> x < |devs[d]| && x < |added[d]| && devs[d][x] == (local + added[d][x]) % m
    ensures Contributions(devs, local, x, n) == AddedBy(added, x, n) + m * k
    decreases n
  {
    k := 0;
    if n == 0 {
    } else {
      var k0 := ContributionsAdded(devs, added, local, x, n - 1, m);
      var q := (local + added[n - 1][x]) / m;
      Division(local + added[n - 1][x], m);
      k := k0 - q;
      Multiples(m, k0, q);
    }
  }

  lemma Multiples(m: int, a: int, b: int)
    ensures m * (a - b) == m * a - m * b
  {
  }

  /** When every device starts from the host's value and adds to it, the reduction leaves what one device adding
      everything would. */
  lemma ReductionIsSum(devs: seq<seq<int>>, added: seq<seq<int>>, local: int, x: nat, m: nat)
    requires m > 0 && |devs| == |added|
    requires forall d :: 0 <= d < |devs| ==> x < |devs[d]| && x < |added[d]| && devs[d][x] == (local + added[d][x]) % m
    ensures Reduced(devs, local, x, m) == (local + AddedBy(added, x, |added|)) % m
  {
    var k := ContributionsAdded(devs, added, local, x, |devs|, m);
    PlusMultiple(local + AddedBy(added, x, |added|), k, m);
  }

  lemma PlusMultiple(a: int, k: int, m: nat)
    requires m > 0
    ensures (a + m * k) % m == a % m
  {
    Division(a, m);
    assert m * (a / m + k) == m * (a / m) + m * k;
    ModIs(a + m * k, m, a / m + k, a % m);
  }

  // ---- Element types ----

  datatype ElementType = CHAR | UCHAR | SHORT | USHORT | INT | UINT | LONG | ULONG | FLOAT | DOUBLE

  // The bytes of an element in memory.
  function WidthOf(ty: ElementType): nat {
    match ty
    case CHAR => 1
    case UCHAR => 1
    case SHORT => 2
    case USHORT => 2
    case INT => 4
    case UINT => 4
    case FLOAT => 4
    case LONG => 8
    case ULONG => 8
    case DOUBLE => 8
  }

  // The instance of doReduction that performHostAtomicSumReduction runs for a buffer, by the size of its elements.
  datatype Instance = NoInstance | Integers(bytes: nat) | Reals(bytes: nat)

  function InstanceOf(ty: ElementType): Instance {
    match ty
    case CHAR => NoInstance
    case UCHAR => NoInstance
    case SHORT => Integers(2)
    case USHORT => Integers(2)
    case INT => Integers(4)
    case UINT => Integers(4)
    case LONG => Integers(8)
    case ULONG => Integers(8)
    case FLOAT => Reals(4)
    case DOUBLE => Reals(8)
  }

  function Modulus(bytes: nat): (m: nat)
    ensures m > bytes
  {
    if bytes == 0 then 1 else 256 * Modulus(bytes - 1)
  }

  /** The modulus is that of a word of so many bytes, and a floating-point type is reduced at its own width. */
  lemma ModulusIs(bytes: nat, ty: ElementType)
    ensures Modulus(bytes) == Bounds.Pow2(8 * bytes)
    ensures InstanceOf(ty).Reals? <==> ty == FLOAT || ty == DOUBLE
    ensures InstanceOf(ty).Reals? ==> InstanceOf(ty).bytes == WidthOf(ty)
  {
    if bytes > 0 {
      ModulusIs(bytes - 1, ty);
      EightDoublings(8 * (bytes - 1));
    }
  }

  lemma EightDoublings(n: nat)
    ensures Bounds.Pow2(n + 8) == 256 * Bounds.Pow2(n)
  {
    assert Bounds.Pow2(n + 8) == 2 * Bounds.Pow2(n + 7) == 4 * Bounds.Pow2(n + 6) == 8 * Bounds.Pow2(n + 5);
    assert Bounds.Pow2(n + 5) == 2 * Bounds.Pow2(n + 4) == 4 * Bounds.Pow2(n + 3) == 8 * Bounds.Pow2(n + 2);
    assert Bounds.Pow2(n + 2) == 2 * Bounds.Pow2(n + 1) == 4 * Bounds.Pow2(n);
  }

  // An integer element after the reduction.
  function Performed(ty: ElementType, devs: seq<seq<int>>, local: int, x: nat): int
    requires !InstanceOf(ty).Reals? && forall d :: 0 <= d < |devs| ==> x < |devs[d]|
  {
    var i := InstanceOf(ty);
    if i.Integers? then Reduced(devs, local, x, Modulus(i.bytes)) else local
  }

  // Every device has added its part to the host's value, at the width m of the type.
  ghost predicate Accumulated(devs: seq<seq<int>>, added: seq<seq<int>>, local: int, x: nat, m: nat)
    requires m > 0
  {
    && 0 <= local < m && |devs| == |added|
    && forall d :: 0 <= d < |devs| ==> x < |devs[d]| && x < |added[d]| && devs[d][x] == (local + added[d][x]) % m
  }

  // The reduction leaves what one device would, for all contributions.
  ghost predicate SumsAll(ty: ElementType)
    requires !InstanceOf(ty).Reals?
  {
    var m := Modulus(WidthOf(ty));
    forall devs: seq<seq<int>>, added: seq<seq<int>>, local: int, x: nat :: Accumulated(devs, added, local, x, m) ==>
      Performed(ty, devs, local, x) == (local + AddedBy(added, x, |added|)) % m
  }

  /** The sums of an integer type are those of a single device, at the width of the type, exactly when the type is wider
      than one byte. */
  lemma ReducedTypes(ty: ElementType)
    requires !InstanceOf(ty).Reals?
    ensures SumsAll(ty) <==> ty != CHAR && ty != UCHAR
  {
    var m := Modulus(WidthOf(ty));
    if ty == CHAR || ty == UCHAR {
      assert AddedBy([[1]], 0, 0) == 0 && AddedBy([[1]], 0, 1) == 1;
      assert Accumulated([[1]], [[1]], 0, 0, m) && Performed(ty, [[1]], 0, 0) == 0;
    } else {
      forall devs: seq<seq<int>>, added: seq<seq<int>>, local: int, x: nat | Accumulated(devs, added, local, x, m)
        ensures Performed(ty, devs, local, x) == (local + AddedBy(added, x, |added|)) % m
      {
        ReductionIsSum(devs, added, local, x, m);
      }
    }
  }

  // ---- FLOAT and DOUBLE elements, over the reals ----

  function RealSumAt(devs: seq<seq<real>>, x: nat, n: nat): real
    requires n <= |devs| && forall d :: 0 <= d < n ==> x < |devs[d]|
  {
    if n == 0 then 0.0 else RealSumAt(devs, x, n - 1) + devs[n - 1][x]
  }

  /** Where every device added its contribution to the common start value, what the second loop computes from the sum
      is the start value with all contributions. */
  lemma {:induction false} RealReductionIsSum(devs: seq<seq<real>>, added: seq<seq<real>>, local: real, x: nat, n: nat)
    requires n <= |devs| == |added|
    requires forall d :: 0 <= d < |devs| ==> x < |devs[d]| && x < |added[d]| && devs[d][x] == local + added[d][x]
    ensures local + (RealSumAt(devs, x, n) - n as real * local) == local + RealSumAt(added, x, n)
    decreases n
  {
    if n == 0 {
    } else {
      RealReductionIsSum(devs, added, local, x, n - 1);
      assert n as real * local == (n - 1) as real * local + local;
    }
  }

  // Both loops of doReduction for one element of the region.
  method ReduceRealElement(tmps: seq<array<real>>, local: array<real>, i: nat, x: nat,
                           ghost packs: seq<seq<real>>, ghost added: seq<seq<real>>)
    requires 0 < |tmps| == |packs| == |added| && x < local.Length && local !in tmps
    requires forall d :: 0 <= d < |tmps| ==> i < tmps[d].Length && tmps[d][..] == packs[d] && i < |added[d]|
    requires forall d :: 0 < d < |tmps| ==> tmps[d] != tmps[0]
    requires forall d :: 0 <= d < |tmps| ==> tmps[d][i] == local[x] + added[d][i]
    modifies tmps[0], local
    ensures local[x] == old(local[x]) + RealSumAt(added, i, |added|)
    ensures forall y :: 0 <= y < local.Length && y != x ==> local[y] == old(local[y])
  {
    assert forall d :: 0 <= d < |tmps| ==> i < |packs[d]| && tmps[d][i] == packs[d][i];
    assert RealSumAt(packs, i, 1) == packs[0][i];
    for d := 1 to |tmps|
      invariant tmps[0][i] == RealSumAt(packs, i, d)
      invariant forall e :: 0 < e < |tmps| ==> tmps[e][i] == packs[e][i]
      invariant local[..] == old(local[..])
    {
      tmps[0][i] := tmps[0][i] + tmps[d][i];
    }
    RealReductionIsSum(packs, added, local[x], i, |tmps|);
    local[x] := local[x] + (tmps[0][i] - |tmps| as real * local[x]);
  }
}
