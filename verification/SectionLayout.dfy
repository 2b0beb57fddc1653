/** Where the elements of a Fortran array section lie: a descriptor's dimensions (Fortran 2018, sections 18.5.2 and
    18.5.3), array element order, and the typemap a buffer described by them must have. */
module SectionLayout {
  import opened MpiDatatypes

  type pos = n: int | n > 0 witness 1

  /** One dimension of a descriptor: how many elements, and how many bytes from one to the next. */
  datatype Dim = Dim(extent: pos, sm: int)

  function MulPos(a: pos, b: pos): pos {
    a * b
  }

  /** The number of elements the dimensions hold. */
  function Elements(dims: seq<Dim>): pos {
    if dims == [] then 1 else MulPos(dims[0].extent, Elements(dims[1..]))
  }

  /** The lowest digit of k in radix e, and what is left above it: remainder and quotient, counted down to so that proofs
      unfold them step by step (DigitIsRemainder). */
  function Digit(k: nat, e: pos): (r: nat)
    ensures r < e
  {
    if k < e then k else Digit(k - e, e)
  }

  function Carry(k: nat, e: pos): nat {
    if k < e then 0 else 1 + Carry(k - e, e)
  }

  /** Byte offset of element k in array element order: the digits of k in the mixed radix of the extents, each times
      its dimension's stride. */
  function Offset(k: nat, dims: seq<Dim>): int
    decreases dims
  {
    if dims == [] then 0
    else Digit(k, dims[0].extent) * dims[0].sm + Offset(Carry(k, dims[0].extent), dims[1..])
  }

  /** The offsets of the first `count` elements, in array element order. */
  function Offsets(dims: seq<Dim>, count: nat): seq<int> {
    seq(count, k requires 0 <= k < count => Offset(k, dims))
  }

  /** One `base` at each of the given places. */
  function Spread(base: Typemap, places: seq<int>): Typemap {
    if places == [] then [] else Spread(base, places[..|places| - 1]) + Shift(base, places[|places| - 1])
  }

  /** The first `count` elements of the section, each holding `base`, in array element order. */
  function Layout(base: Typemap, dims: seq<Dim>, count: nat): Typemap {
    Spread(base, Offsets(dims, count))
  }

  // ----- mixed-radix arithmetic

  lemma {:induction false} DigitsValue(k: nat, e: pos)
    ensures k == Carry(k, e) * e + Digit(k, e)
  {
    if k >= e {
      DigitsValue(k - e, e);
      assert Carry(k, e) * e == Carry(k - e, e) * e + e;
    }
  }

  lemma DigitsUnique(k: nat, e: pos, q: nat, r: nat)
    requires r < e && k == q * e + r
    ensures Carry(k, e) == q && Digit(k, e) == r
  {
    DigitsValue(k, e);
    var x: int, b: int := q - Carry(k, e), e;
    assert x * b == Digit(k, e) - r;
    assert x >= 1 ==> x * b >= b;
    assert x <= -1 ==> x * b <= -b;
  }

  lemma DigitIsRemainder(k: nat, e: pos)
    ensures Digit(k, e) == k % e && Carry(k, e) == k / e
  {
    DigitsUnique(k, e, k / e, k % e);
  }

  /** A whole number of blocks of p is within e blocks exactly when the number is at most e. */
  lemma CarryBound(k: nat, p: pos, e: pos)
    requires Digit(k, p) == 0
    ensures k == Carry(k, p) * p
    ensures k <= MulPos(p, e) <==> Carry(k, p) <= e
  {
    DigitsValue(k, p);
    var q: nat := Carry(k, p);
    if q <= e {
      MulMonotone(q, e, p);
    } else {
      MulMonotone(e + 1, q, p);
    }
  }

  lemma MulMonotone(a: nat, b: nat, p: pos)
    requires a <= b
    ensures a * p <= b * p
  {
  }

  /** Splitting off the lowest digit and then the rest is splitting off both at once. */
  lemma DigitSplit(k: nat, e: pos, p: pos)
    ensures Digit(Digit(k, MulPos(e, p)), e) == Digit(k, e)
    ensures Carry(Digit(k, MulPos(e, p)), e) == Digit(Carry(k, e), p)
    ensures Carry(k, MulPos(e, p)) == Carry(Carry(k, e), p)
  {
    DigitsValue(k, e);
    DigitsValue(Carry(k, e), p);
    TwoDigits(k, e, p, Carry(k, e), Carry(Carry(k, e), p), Digit(Carry(k, e), p), Digit(k, e));
  }

  lemma TwoDigits(k: nat, e: pos, p: pos, upper: nat, high: nat, mid: nat, low: nat)
    requires mid < p && low < e && k == upper * e + low && upper == high * p + mid
    ensures 0 <= mid * e + low
    ensures Digit(k, MulPos(e, p)) == mid * e + low && Carry(k, MulPos(e, p)) == high
    ensures Digit(mid * e + low, e) == low && Carry(mid * e + low, e) == mid
  {
    TwoDigitsBound(mid, e, p, low);
    Regroup(upper, high, p, mid, e);
    DigitsUnique(k, MulPos(e, p), high, mid * e + low);
    DigitsUnique(mid * e + low, e, mid, low);
  }

  lemma TwoDigitsBound(mid: nat, e: pos, p: pos, low: nat)
    requires mid < p && low < e
    ensures 0 <= mid * e + low < e * p
  {
    assert (mid + 1) * e <= p * e;
  }

  lemma Regroup(upper: nat, high: nat, p: nat, mid: nat, e: nat)
    requires upper == high * p + mid
    ensures upper * e == high * (e * p) + mid * e
  {
  }

  lemma {:induction false} ElementsAppend(pre: seq<Dim>, d: Dim)
    ensures Elements(pre + [d]) == MulPos(Elements(pre), d.extent)
  {
    if pre == [] {
      assert (pre + [d])[1..] == [];
    } else {
      assert (pre + [d])[1..] == pre[1..] + [d];
      ElementsAppend(pre[1..], d);
      var a, b, c := pre[0].extent, Elements(pre[1..]), d.extent;
      assert a * (b * c) == (a * b) * c;
    }
  }

  /** An offset splits at any dimension into an inner part and an outer part. */
  lemma {:induction false} OffsetAppend(k: nat, pre: seq<Dim>, suf: seq<Dim>)
    ensures Offset(k, pre + suf) == Offset(Digit(k, Elements(pre)), pre) + Offset(Carry(k, Elements(pre)), suf)
    decreases |pre|
  {
    if pre == [] {
      assert pre + suf == suf;
      DigitsUnique(k, 1, k, 0);
    } else {
      var e, p := pre[0].extent, Elements(pre[1..]);
      assert (pre + suf)[1..] == pre[1..] + suf;
      OffsetAppend(Carry(k, e), pre[1..], suf);
      DigitSplit(k, e, p);
    }
  }

  // ----- layouts

  lemma {:induction false} SpreadLength(base: Typemap, places: seq<int>)
    ensures |Spread(base, places)| == |places| * |base|
  {
    if places != [] {
      SpreadLength(base, places[..|places| - 1]);
      NextMultiple(|places|, |base|);
    }
  }

  lemma {:induction false} SpreadAt(base: Typemap, places: seq<int>, k: nat, j: nat)
    requires k < |places| && j < |base|
    ensures 0 <= k * |base| + j < |Spread(base, places)|
    ensures Spread(base, places)[k * |base| + j] == Entry(base[j].disp + places[k], base[j].basic)
  {
    SpreadLength(base, places[..|places| - 1]);
    if k < |places| - 1 {
      SpreadAt(base, places[..|places| - 1], k, j);
    }
  }

  /** Entry by entry: entry j of element k is entry j of the base, moved to where element k lies. */
  lemma LayoutAt(base: Typemap, dims: seq<Dim>, count: nat, k: nat, j: nat)
    requires k < count && j < |base|
    ensures |Layout(base, dims, count)| == count * |base|
    ensures 0 <= k * |base| + j < |Layout(base, dims, count)|
    ensures Layout(base, dims, count)[k * |base| + j] == Entry(base[j].disp + Offset(k, dims), base[j].basic)
  {
    SpreadLength(base, Offsets(dims, count));
    SpreadAt(base, Offsets(dims, count), k, j);
  }

  /** No dimensions: one element, at the base address. */
  lemma LayoutSingle(base: Typemap)
    ensures Layout(base, [], 1) == base
  {
    assert Offsets([], 1) == [0];
    assert Spread(base, [0]) == Spread(base, []) + Shift(base, 0);
    ShiftZero(base);
  }

  lemma {:induction false} SpreadConcat(base: Typemap, a: seq<int>, b: seq<int>)
    ensures Spread(base, a + b) == Spread(base, a) + Spread(base, b)
  {
    if b == [] {
      assert a + b == a;
    } else {
      var init, last := b[..|b| - 1], Shift(base, b[|b| - 1]);
      assert (a + b)[..|a + b| - 1] == a + init;
      SpreadConcat(base, a, init);
      assert (Spread(base, a) + Spread(base, init)) + last == Spread(base, a) + (Spread(base, init) + last);
    }
  }

  function Moved(places: seq<int>, step: int): seq<int> {
    seq(|places|, k requires 0 <= k < |places| => places[k] + step)
  }

  lemma {:induction false} SpreadMoved(base: Typemap, places: seq<int>, step: int)
    ensures Spread(base, Moved(places, step)) == Shift(Spread(base, places), step)
  {
    if places == [] {
    } else {
      var init, last := places[..|places| - 1], places[|places| - 1];
      SpreadMoved(base, init, step);
      assert Moved(places, step)[..|places| - 1] == Moved(init, step);
      ShiftConcat(Spread(base, init), Shift(base, last), step);
      ShiftShift(base, last, step);
    }
  }

  lemma OffsetOfReplica(pre: seq<Dim>, d: Dim, q: nat, r: nat)
    requires q < d.extent && r < Elements(pre)
    ensures Offset(q * Elements(pre) + r, pre + [d]) == Offset(r, pre) + q * d.sm
  {
    var p := Elements(pre);
    OffsetAppend(q * p + r, pre, [d]);
    DigitsUnique(q * p + r, p, q, r);
    assert [d][1..] == [];
    DigitsUnique(q, d.extent, 0, q);
  }

  /** Replica q of the layout below follows the replicas before it. */
  lemma LayoutReplica(base: Typemap, pre: seq<Dim>, d: Dim, q: nat, start: nat)
    requires q < d.extent && start == q * Elements(pre)
    ensures Layout(base, pre + [d], start + Elements(pre))
         == Layout(base, pre + [d], start) + Shift(Layout(base, pre, Elements(pre)), q * d.sm)
  {
    var inner, outer := Offsets(pre, Elements(pre)), Offsets(pre + [d], start);
    forall r: nat | r < Elements(pre)
      ensures Offset(start + r, pre + [d]) == Offset(r, pre) + q * d.sm
    {
      OffsetOfReplica(pre, d, q, r);
    }
    assert Offsets(pre + [d], start + Elements(pre)) == outer + Moved(inner, q * d.sm);
    SpreadConcat(base, outer, Moved(inner, q * d.sm));
    SpreadMoved(base, inner, q * d.sm);
  }

  lemma NextMultiple(n: nat, p: nat)
    requires n > 0
    ensures n * p == (n - 1) * p + p && (n - 1) * p >= 0
  {
  }

  /** One more dimension, wholly or partly covered, is the layout below it repeated at that dimension's stride. */
  lemma {:induction false} ReplicateLayout(base: Typemap, pre: seq<Dim>, d: Dim, n: nat)
    requires n <= d.extent
    ensures Replicate(Layout(base, pre, Elements(pre)), n, d.sm) == Layout(base, pre + [d], n * Elements(pre))
    decreases n
  {
    if n > 0 {
      ReplicateLayout(base, pre, d, n - 1);
      NextMultiple(n, Elements(pre));
      LayoutReplica(base, pre, d, n - 1, (n - 1) * Elements(pre));
    }
  }

  /** Dimensions beyond those that the elements reach do not matter. */
  lemma LayoutExtend(base: Typemap, pre: seq<Dim>, suf: seq<Dim>, count: nat)
    requires count <= Elements(pre)
    ensures Layout(base, pre + suf, count) == Layout(base, pre, count)
  {
    forall r: nat | r < count
      ensures Offset(r, pre + suf) == Offset(r, pre)
    {
      OffsetAppend(r, pre, suf);
      DigitsUnique(r, Elements(pre), 0, r);
      OffsetZero(suf);
    }
    assert Offsets(pre + suf, count) == Offsets(pre, count);
  }

  lemma {:induction false} OffsetZero(dims: seq<Dim>)
    ensures Offset(0, dims) == 0
  {
    if dims != [] {
      OffsetZero(dims[1..]);
      DigitsUnique(0, dims[0].extent, 0, 0);
    }
  }

  // ----- elements by their subscripts

  /** One subscript per dimension, each from 0 up to its extent. */
  ghost predicate Subscripts(idx: seq<nat>, dims: seq<Dim>) {
    |idx| == |dims| && forall d :: 0 <= d < |dims| ==> idx[d] < dims[d].extent
  }

  /** The position of an element in array element order: the first subscript varies fastest. */
  function Position(idx: seq<nat>, dims: seq<Dim>): nat
    requires |idx| == |dims|
  {
    if dims == [] then 0 else Position(idx[1..], dims[1..]) * dims[0].extent + idx[0]
  }

  /** Where a descriptor says that the element lies. */
  function ByteAddress(idx: seq<nat>, dims: seq<Dim>): int
    requires |idx| == |dims|
  {
    if dims == [] then 0 else idx[0] * dims[0].sm + ByteAddress(idx[1..], dims[1..])
  }

  /** The offset of the element at any subscripts is the sum of the subscripts times the strides. */
  lemma {:induction false} OffsetOfSubscripts(idx: seq<nat>, dims: seq<Dim>)
    requires Subscripts(idx, dims)
    ensures Position(idx, dims) < Elements(dims)
    ensures Offset(Position(idx, dims), dims) == ByteAddress(idx, dims)
    decreases |dims|
  {
    if dims != [] {
      assert forall d :: 0 <= d < |dims| - 1 ==> idx[1..][d] == idx[d + 1] && dims[1..][d] == dims[d + 1];
      OffsetOfSubscripts(idx[1..], dims[1..]);
      var high, e := Position(idx[1..], dims[1..]), dims[0].extent;
      TwoDigitsBound(high, e, Elements(dims[1..]), idx[0]);
      DigitsUnique(Position(idx, dims), e, high, idx[0]);
    }
  }
}
