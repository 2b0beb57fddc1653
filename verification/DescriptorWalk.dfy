/** The descriptor walk as a function on values: one constructor per dimension, innermost first, until the elements are
    accounted for. What it builds is the section's layout. */
module DescriptorWalk {
  import opened MpiDatatypes
  import opened Options
  import opened SectionLayout

  /** When a dimension may be wrapped with MPI_Type_contiguous: where everything below is dense (the walker), never
      (the plain form), or wherever the stride is the span below (the form the walker departs from). */
  datatype Policy = WhileDense | HvectorOnly | SpanOnly

  /** What the loop carries from one dimension to the next. */
  datatype Level = Level(cur: Datatype, elems: pos, bytes: int, dense: bool)

  predicate TakesContiguous(policy: Policy, l: Level, sm: int) {
    match policy
    case WhileDense => l.dense && sm == l.bytes
    case HvectorOnly => false
    case SpanOnly => sm == l.bytes
  }

  function Wrap(policy: Policy, l: Level, n: nat, sm: int): Datatype {
    if TakesContiguous(policy, l, sm) then Contiguous(n, l.cur) else Hvector(n, sm, l.cur)
  }

  /** A dimension that is covered wholly, with more elements to come. */
  function Next(policy: Policy, l: Level, d: Dim): Level {
    Level(Wrap(policy, l, d.extent, d.sm), MulPos(l.elems, d.extent), d.sm * d.extent,
          l.dense && TakesContiguous(policy, l, d.sm))
  }

  /** The walk from dimension i on; None where the source gives up with MPI_ERR_ARG. */
  function Walk(policy: Policy, dims: seq<Dim>, i: nat, count: nat, l: Level): Option<Datatype>
    requires i <= |dims|
    decreases |dims| - i
  {
    if i == |dims| || Digit(count, l.elems) != 0 then None
    else if Carry(count, l.elems) <= dims[i].extent then Some(Wrap(policy, l, Carry(count, l.elems), dims[i].sm))
    else Walk(policy, dims, i + 1, count, Next(policy, l, dims[i]))
  }

  /** The level from which the last dimension, the one that the count reaches, may be wrapped in part. */
  lemma WalkUnfolds(dims: seq<Dim>, i: nat, count: nat, l: Level)
    requires i < |dims| && Digit(count, l.elems) == 0
    ensures Carry(count, l.elems) <= dims[i].extent ==>
              Walk(WhileDense, dims, i, count, l) == Some(Wrap(WhileDense, l, Carry(count, l.elems), dims[i].sm))
    ensures Carry(count, l.elems) > dims[i].extent ==>
              Walk(WhileDense, dims, i, count, l) == Walk(WhileDense, dims, i + 1, count, Next(WhileDense, l, dims[i]))
  {
  }

  function Seed(base: Datatype, elemLen: nat): Level {
    Level(base, 1, elemLen, base.lb == 0 && base.Extent() == elemLen)
  }

  /** The level after i wholly covered dimensions. */
  function LevelAt(policy: Policy, dims: seq<Dim>, i: nat, seed: Level): Level
    requires i <= |dims|
  {
    if i == 0 then seed else Next(policy, LevelAt(policy, dims, i - 1, seed), dims[i - 1])
  }

  // ----- which counts can be described

  /** `count` elements fit in dimensions 0 to j. */
  predicate Reaches(dims: seq<Dim>, count: nat, j: nat)
    requires j < |dims|
  {
    count <= Elements(dims[..j + 1])
  }

  /** Some dimension is the first that `count` reaches, and `count` is a whole number of what lies below it. */
  ghost predicate DescribableFrom(dims: seq<Dim>, i: nat, count: nat) {
    exists j: nat ::
      && i <= j < |dims|
      && Reaches(dims, count, j)
      && (forall m: nat :: i <= m < j ==> !Reaches(dims, count, m))
      && Digit(count, Elements(dims[..j])) == 0
  }

  ghost predicate Describable(dims: seq<Dim>, count: nat) {
    DescribableFrom(dims, 0, count)
  }

  // ----- the walk builds the layout

  /** The level holds exactly the elements of the first i dimensions, and `dense` means no gap and no shift. */
  ghost predicate Holds(l: Level, base: Typemap, dims: seq<Dim>, i: nat)
    requires i <= |dims|
  {
    && l.elems == Elements(dims[..i])
    && l.cur.typemap == Layout(base, dims[..i], l.elems)
    && (l.dense ==> l.cur.lb == 0 && l.cur.Extent() == l.bytes >= 0)
  }

  lemma SeedHolds(base: Datatype, elemLen: nat, dims: seq<Dim>)
    ensures Holds(Seed(base, elemLen), base.typemap, dims, 0)
  {
    LayoutSingle(base.typemap);
  }

  /** Wrapping in one more dimension, wholly or partly, by either constructor. */
  lemma WrapLayout(policy: Policy, l: Level, base: Typemap, dims: seq<Dim>, i: nat, n: nat)
    requires i < |dims| && n <= dims[i].extent && policy != SpanOnly && Holds(l, base, dims, i)
    ensures Wrap(policy, l, n, dims[i].sm).typemap == Layout(base, dims[..i + 1], n * l.elems)
  {
    assert dims[..i + 1] == dims[..i] + [dims[i]];
    ReplicateLayout(base, dims[..i], dims[i], n);
  }

  lemma NextHolds(policy: Policy, l: Level, base: Typemap, dims: seq<Dim>, i: nat)
    requires i < |dims| && policy != SpanOnly && Holds(l, base, dims, i)
    ensures Holds(Next(policy, l, dims[i]), base, dims, i + 1)
  {
    var d := dims[i];
    assert dims[..i + 1] == dims[..i] + [d];
    ElementsAppend(dims[..i], d);
    WrapLayout(policy, l, base, dims, i, d.extent);
    assert d.extent * l.elems == MulPos(l.elems, d.extent);
    if l.dense && TakesContiguous(policy, l, d.sm) {
      ContiguousExtent(d.extent, l.cur);
    }
  }

  lemma {:induction false} ElementsDivide(dims: seq<Dim>, i: nat, j: nat, count: nat)
    requires i <= j <= |dims| && Digit(count, Elements(dims[..j])) == 0
    ensures Digit(count, Elements(dims[..i])) == 0
    decreases j - i
  {
    if i < j {
      assert dims[..j] == dims[..j - 1] + [dims[j - 1]];
      ElementsAppend(dims[..j - 1], dims[j - 1]);
      DigitSplit(count, Elements(dims[..j - 1]), dims[j - 1].extent);
      DigitsUnique(0, Elements(dims[..j - 1]), 0, 0);
      ElementsDivide(dims, i, j - 1, count);
    }
  }

  /** A whole number q of inner blocks reaches dimension i exactly when q is at most its extent. */
  lemma ReachesByCarry(dims: seq<Dim>, i: nat, count: nat)
    requires i < |dims| && Digit(count, Elements(dims[..i])) == 0
    ensures Reaches(dims, count, i) <==> Carry(count, Elements(dims[..i])) <= dims[i].extent
  {
    assert dims[..i + 1] == dims[..i] + [dims[i]];
    ElementsAppend(dims[..i], dims[i]);
    CarryBound(count, Elements(dims[..i]), dims[i].extent);
  }

  /** A count that stops inside what lies below dimension i is describable from no dimension on. */
  lemma WalkRefuses(dims: seq<Dim>, i: nat, count: nat)
    requires i <= |dims| && Digit(count, Elements(dims[..i])) != 0
    ensures !DescribableFrom(dims, i, count)
  {
    forall j: nat | i <= j < |dims|
      ensures Digit(count, Elements(dims[..j])) != 0
    {
      if Digit(count, Elements(dims[..j])) == 0 {
        ElementsDivide(dims, i, j, count);
      }
    }
  }

  /** The last dimension that the walk wraps. */
  lemma WalkEnds(policy: Policy, base: Typemap, dims: seq<Dim>, i: nat, count: nat, l: Level)
    requires i < |dims| && policy != SpanOnly && Holds(l, base, dims, i)
    requires Digit(count, l.elems) == 0 && Carry(count, l.elems) <= dims[i].extent
    ensures Wrap(policy, l, Carry(count, l.elems), dims[i].sm).typemap == Layout(base, dims, count)
    ensures Reaches(dims, count, i)
  {
    ReachesByCarry(dims, i, count);
    WrapLayout(policy, l, base, dims, i, Carry(count, l.elems));
    DigitsValue(count, l.elems);
    LayoutExtend(base, dims[..i + 1], dims[i + 1..], count);
    assert dims[..i + 1] + dims[i + 1..] == dims;
  }

  lemma DescribableStep(dims: seq<Dim>, i: nat, count: nat)
    requires i < |dims| && !Reaches(dims, count, i)
    ensures DescribableFrom(dims, i, count) <==> DescribableFrom(dims, i + 1, count)
  {
  }

  /** From any level that holds what it should, the walk succeeds exactly on the describable counts, and then what it
      builds is the section's first `count` elements in array element order. */
  lemma {:induction false} WalkFrom(policy: Policy, base: Typemap, dims: seq<Dim>, i: nat, count: nat, l: Level)
    requires i <= |dims| && policy != SpanOnly && Holds(l, base, dims, i)
    ensures Walk(policy, dims, i, count, l).Some? <==> DescribableFrom(dims, i, count)
    ensures Walk(policy, dims, i, count, l).Some?
        ==> Walk(policy, dims, i, count, l).value.typemap == Layout(base, dims, count)
    decreases |dims| - i
  {
    if i == |dims| {
    } else if Digit(count, l.elems) != 0 {
      WalkRefuses(dims, i, count);
    } else if Carry(count, l.elems) <= dims[i].extent {
      WalkEnds(policy, base, dims, i, count, l);
    } else {
      ReachesByCarry(dims, i, count);
      DescribableStep(dims, i, count);
      NextHolds(policy, l, base, dims, i);
      WalkFrom(policy, base, dims, i + 1, count, Next(policy, l, dims[i]));
    }
  }

  /** The walker's whole meaning, for every rank, extents, strides, base type and count. */
  lemma WalkBuildsLayout(policy: Policy, base: Datatype, elemLen: nat, dims: seq<Dim>, count: nat)
    requires policy != SpanOnly
    ensures var t := Walk(policy, dims, 0, count, Seed(base, elemLen));
            && (t.Some? <==> Describable(dims, count))
            && (t.Some? ==> t.value.typemap == Layout(base.typemap, dims, count))
  {
    SeedHolds(base, elemLen, dims);
    WalkFrom(policy, base.typemap, dims, 0, count, Seed(base, elemLen));
  }

  /** The contiguous shortcut changes nothing: both walks succeed together and build the same typemap. */
  lemma ShortcutRefinesHvectorWalk(base: Datatype, elemLen: nat, dims: seq<Dim>, count: nat)
    ensures var fast := Walk(WhileDense, dims, 0, count, Seed(base, elemLen));
            var plain := Walk(HvectorOnly, dims, 0, count, Seed(base, elemLen));
            && (fast.Some? <==> plain.Some?)
            && (fast.Some? ==> fast.value.typemap == plain.value.typemap)
  {
    WalkBuildsLayout(WhileDense, base, elemLen, dims, count);
    WalkBuildsLayout(HvectorOnly, base, elemLen, dims, count);
  }

  // ----- counting in units of the old type

  /** How many units of the old type one element is: a character(len=8) is eight MPI_CHARACTERs. An element smaller
      than that is taken as one unit, as the source does. */
  function Units(elemLen: nat, size: pos): pos {
    if Carry(elemLen, size) > 1 then Carry(elemLen, size) else 1
  }

  function BaseType(elemLen: nat, size: pos, orig: Datatype): Datatype {
    if Carry(elemLen, size) > 1 then Contiguous(Units(elemLen, size), orig) else orig
  }

  /** The type made for `oldcount` units of `orig` in a section; None where the source answers MPI_ERR_ARG. */
  function Compile(elemLen: nat, dims: seq<Dim>, oldcount: nat, orig: Datatype): Option<Datatype> {
    if Size(orig.typemap) == 0 || Digit(elemLen, Size(orig.typemap)) != 0 then None
    else
      var units := Units(elemLen, Size(orig.typemap));
      if Digit(oldcount, units) != 0 then None
      else Walk(WhileDense, dims, 0, Carry(oldcount, units), Seed(BaseType(elemLen, Size(orig.typemap), orig), elemLen))
  }

  /** How many elements the old count amounts to, in bytes over bytes; elements without bytes are one per unit. */
  function Count(elemLen: nat, oldcount: nat, size: pos): nat {
    if elemLen > 0 then (oldcount * size) / elemLen else oldcount
  }

  /** What the caller can check beforehand: the old type has bytes, an element is a whole number of it, the bytes are a
      whole number of elements, and the elements end at the end of a row of the first dimension that they reach. */
  ghost predicate Accepts(elemLen: nat, dims: seq<Dim>, oldcount: nat, orig: Datatype) {
    && Size(orig.typemap) > 0
    && elemLen % Size(orig.typemap) == 0
    && (elemLen > 0 ==> (oldcount * Size(orig.typemap)) % elemLen == 0)
    && Describable(dims, Count(elemLen, oldcount, Size(orig.typemap)))
  }

  /** An element's typemap: as many of the old type, in a row, as fill its bytes. */
  function ElementTypemap(elemLen: nat, orig: Datatype): Typemap
    requires Size(orig.typemap) > 0
  {
    Replicate(orig.typemap, if elemLen > 0 then elemLen / Size(orig.typemap) else 1, orig.Extent())
  }

  /** The typemap the buffer should have: element after element in array element order. */
  function SectionTypemap(elemLen: nat, dims: seq<Dim>, oldcount: nat, orig: Datatype): Typemap
    requires Size(orig.typemap) > 0
  {
    Layout(ElementTypemap(elemLen, orig), dims, Count(elemLen, oldcount, Size(orig.typemap)))
  }

  lemma {:induction false} SizeReplicate(m: Typemap, n: nat, step: int)
    ensures Size(Replicate(m, n, step)) == n * Size(m)
  {
    if n > 0 {
      SizeReplicate(m, n - 1, step);
      SizeConcat(Replicate(m, n - 1, step), Shift(m, (n - 1) * step));
      SizeShift(m, (n - 1) * step);
      NextMultiple(n, Size(m));
    }
  }

  lemma {:induction false} SizeConcat(a: Typemap, b: Typemap)
    ensures Size(a + b) == Size(a) + Size(b)
  {
    if b == [] {
      assert a + b == a;
    } else {
      assert (a + b)[..|a + b| - 1] == a + b[..|b| - 1];
      SizeConcat(a, b[..|b| - 1]);
    }
  }

  lemma {:induction false} SizeShift(m: Typemap, d: int)
    ensures Size(Shift(m, d)) == Size(m)
  {
    if m != [] {
      SizeShift(m[..|m| - 1], d);
      assert Shift(m, d)[..|m| - 1] == Shift(m[..|m| - 1], d);
    }
  }

  /** Nothing is lost and nothing made up: an element's typemap has the element's bytes, and the elements have the bytes
      of the old count of the old type. */
  lemma SectionKeepsBytes(elemLen: pos, dims: seq<Dim>, oldcount: nat, orig: Datatype)
    requires Accepts(elemLen, dims, oldcount, orig)
    ensures Size(ElementTypemap(elemLen, orig)) == elemLen
    ensures Count(elemLen, oldcount, Size(orig.typemap)) * elemLen == oldcount * Size(orig.typemap)
    ensures Size(SectionTypemap(elemLen, dims, oldcount, orig)) == oldcount * Size(orig.typemap)
  {
    var size: pos, count := Size(orig.typemap), Count(elemLen, oldcount, Size(orig.typemap));
    SizeReplicate(orig.typemap, elemLen / size, orig.Extent());
    DivExact(elemLen, size);
    DivExact(oldcount * size, elemLen);
    SizeSpread(ElementTypemap(elemLen, orig), Offsets(dims, count));
  }

  lemma DivExact(a: nat, b: pos)
    requires a % b == 0
    ensures a / b * b == a
  {
  }

  lemma {:induction false} SizeSpread(base: Typemap, places: seq<int>)
    ensures Size(Spread(base, places)) == |places| * Size(base)
  {
    if places != [] {
      var init, last := places[..|places| - 1], places[|places| - 1];
      SizeSpread(base, init);
      assert Spread(base, places) == Spread(base, init) + Shift(base, last);
      SizeConcat(Spread(base, init), Shift(base, last));
      SizeShift(base, last);
      NextMultiple(|places|, Size(base));
    }
  }

  /** Dividing bytes by bytes is dividing units by units. */
  lemma UnitsOrBytes(elemLen: pos, size: pos, oldcount: nat)
    requires elemLen % size == 0
    ensures Units(elemLen, size) == elemLen / size
    ensures Digit(oldcount, Units(elemLen, size)) == 0 <==> (oldcount * size) % elemLen == 0
    ensures Digit(oldcount, Units(elemLen, size)) == 0 ==>
              Carry(oldcount, Units(elemLen, size)) == (oldcount * size) / elemLen
  {
    DigitIsRemainder(elemLen, size);
    var units := elemLen / size;
    assert units * size == elemLen;
    assert units > 0;
    var a, b := Carry(oldcount, units), Digit(oldcount, units);
    DigitsValue(oldcount, units);
    BytesOfUnits(oldcount, units, size, a, b);
    DigitsUnique(oldcount * size, elemLen, a, b * size);
    DigitIsRemainder(oldcount * size, elemLen);
  }

  lemma BytesOfUnits(n: nat, units: pos, size: pos, a: nat, b: nat)
    requires n == a * units + b && b < units
    ensures n * size == a * (units * size) + b * size
    ensures 0 <= b * size < units * size && (b * size == 0 <==> b == 0)
  {
    assert (a * units + b) * size == (a * units) * size + b * size;
    assert (a * units) * size == a * (units * size);
    assert (units - b) * size > 0;
    assert units * size == b * size + (units - b) * size;
  }

  /** The walker's arithmetic accepts what it should. */
  lemma UnitsAccept(elemLen: nat, dims: seq<Dim>, oldcount: nat, orig: Datatype)
    requires Size(orig.typemap) > 0
    ensures var size := Size(orig.typemap);
            && (Accepts(elemLen, dims, oldcount, orig) <==>
                Digit(elemLen, size) == 0 && Digit(oldcount, Units(elemLen, size)) == 0
                && Describable(dims, Carry(oldcount, Units(elemLen, size))))
            && (Accepts(elemLen, dims, oldcount, orig) ==>
                Carry(oldcount, Units(elemLen, size)) == Count(elemLen, oldcount, size)
                && ElementTypemap(elemLen, orig) == Replicate(orig.typemap, Units(elemLen, size), orig.Extent()))
  {
    var size := Size(orig.typemap);
    DigitIsRemainder(elemLen, size);
    if elemLen == 0 {
      DigitsUnique(oldcount, 1, oldcount, 0);
      DigitsUnique(0, size, 0, 0);
    } else if elemLen % size == 0 {
      UnitsOrBytes(elemLen, size, oldcount);
    }
  }

  lemma BaseIsUnits(elemLen: nat, size: pos, orig: Datatype)
    ensures BaseType(elemLen, size, orig).typemap == Replicate(orig.typemap, Units(elemLen, size), orig.Extent())
  {
    if Carry(elemLen, size) <= 1 {
      assert Replicate(orig.typemap, 1, orig.Extent()) == Replicate(orig.typemap, 0, orig.Extent()) + Shift(orig.typemap, 0);
      ShiftZero(orig.typemap);
    }
  }

  lemma CompileIsSectionTypemap(elemLen: nat, dims: seq<Dim>, oldcount: nat, orig: Datatype)
    ensures Compile(elemLen, dims, oldcount, orig).Some? <==> Accepts(elemLen, dims, oldcount, orig)
    ensures Accepts(elemLen, dims, oldcount, orig)
        ==> Compile(elemLen, dims, oldcount, orig).value.typemap == SectionTypemap(elemLen, dims, oldcount, orig)
  {
    if Size(orig.typemap) > 0 {
      var size := Size(orig.typemap);
      UnitsAccept(elemLen, dims, oldcount, orig);
      BaseIsUnits(elemLen, size, orig);
      WalkBuildsLayout(WhileDense, BaseType(elemLen, size, orig), elemLen, dims, Carry(oldcount, Units(elemLen, size)));
    }
  }

  /** `count` elements are q times all that lies below dimension j, which has that many. */
  ghost predicate Fills(dims: seq<Dim>, count: nat, j: nat, q: nat) {
    j < |dims| && q <= dims[j].extent && count == q * Elements(dims[..j])
  }

  /** Which counts can be described, said plainly: those that are some whole number of what lies below a dimension, and
      no more of it than the dimension's extent. */
  lemma DescribableIff(dims: seq<Dim>, count: nat)
    ensures Describable(dims, count) <==>
              exists j: nat, q: nat :: Fills(dims, count, j, q)
  {
    if Describable(dims, count) {
      var j: nat :| j < |dims| && Reaches(dims, count, j) && Digit(count, Elements(dims[..j])) == 0;
      ReachesByCarry(dims, j, count);
      DigitsValue(count, Elements(dims[..j]));
      assert Fills(dims, count, j, Carry(count, Elements(dims[..j])));
    }
    if j: nat, q: nat :| Fills(dims, count, j, q) {
      DigitsUnique(count, Elements(dims[..j]), q, 0);
      ReachesByCarry(dims, j, count);
      FirstReached(dims, j, count);
    }
  }

  lemma FirstReached(dims: seq<Dim>, j: nat, count: nat)
    requires j < |dims| && Reaches(dims, count, j) && Digit(count, Elements(dims[..j])) == 0
    ensures Describable(dims, count)
  {
    var m := 0;
    while !Reaches(dims, count, m)
      invariant m <= j && forall i: nat :: i < m ==> !Reaches(dims, count, i)
      decreases j - m
    {
      m := m + 1;
    }
    ElementsDivide(dims, m, j, count);
  }

  // ----- the `dense` flag

  /** The bytes that the elements of the first j dimensions take when nothing lies between them. */
  function PackedBytes(elemLen: nat, dims: seq<Dim>, j: nat): nat
    requires j <= |dims|
  {
    elemLen * Elements(dims[..j])
  }

  ghost predicate Packed(elemLen: nat, dims: seq<Dim>, i: nat)
    requires i <= |dims|
  {
    forall j: nat :: j < i ==> dims[j].sm == PackedBytes(elemLen, dims, j)
  }

  lemma PackedBytesStep(elemLen: nat, dims: seq<Dim>, j: nat)
    requires j < |dims|
    ensures PackedBytes(elemLen, dims, j + 1) == PackedBytes(elemLen, dims, j) * dims[j].extent
  {
    assert dims[..j + 1] == dims[..j] + [dims[j]];
    ElementsAppend(dims[..j], dims[j]);
    var p, e := Elements(dims[..j]), dims[j].extent;
    assert (elemLen * p) * e == elemLen * (p * e);
  }

  /** `dense` after i dimensions, in closed form: the base fills an element, and every dimension so far steps by
      exactly the bytes of the elements below it. Once false it therefore stays false. */
  lemma {:induction false} DenseIffPacked(base: Datatype, elemLen: nat, dims: seq<Dim>, i: nat)
    requires i <= |dims|
    ensures var l := LevelAt(WhileDense, dims, i, Seed(base, elemLen));
            && (l.dense <==> base.lb == 0 && base.Extent() == elemLen && Packed(elemLen, dims, i))
            && (l.dense ==> l.cur.lb == 0 && l.cur.Extent() == l.bytes == PackedBytes(elemLen, dims, i))
  {
    if i > 0 {
      DenseIffPacked(base, elemLen, dims, i - 1);
      PackedBytesStep(elemLen, dims, i - 1);
      var below, d := LevelAt(WhileDense, dims, i - 1, Seed(base, elemLen)), dims[i - 1];
      if below.dense && d.sm == below.bytes {
        ContiguousExtent(d.extent, below.cur);
      }
    }
  }

  // ----- why the span alone will not do

  /** At any level, over whatever lies below: where the stride is the span below but the extent below is not, the
      contiguous constructor misplaces every entry of every replica but the first. */
  lemma SpanOnlyMisplacesReplica(l: Level, base: Typemap, dims: seq<Dim>, i: nat, n: nat, replica: nat, x: nat)
    requires i < |dims| && n <= dims[i].extent && Holds(l, base, dims, i)
    requires dims[i].sm == l.bytes != l.cur.Extent()
    requires 0 < replica < n && x < |l.cur.typemap|
    ensures var wrong := Wrap(SpanOnly, l, n, dims[i].sm).typemap;
            var right := Layout(base, dims[..i + 1], n * l.elems);
            var at := replica * |l.cur.typemap| + x;
            0 <= at < |wrong| == |right| && wrong[at].disp != right[at].disp
  {
    WrapLayout(HvectorOnly, l, base, dims, i, n);
    StepsMisplace(l.cur.typemap, n, l.cur.Extent(), dims[i].sm, replica, x);
  }

  /** Two dimensions, the outer one stepping by exactly what the inner one spans. */
  function Rows(n0: pos, s0: int, n1: pos): seq<Dim> {
    [Dim(n0, s0), Dim(n1, s0 * n0)]
  }

  /** Over a strided inner dimension, a walk that compares the stride with the span alone takes the contiguous
      constructor one level up. It is right only if the inner dimension is not strided after all. */
  lemma SpanOnlyRightIff(base: Datatype, elemLen: pos, n0: pos, s0: int, n1: pos, count: nat)
    requires base.typemap != [] && base.lb == 0 && base.ub == elemLen && n0 > 1 && n1 > 1 && count == n1 * n0
    ensures Walk(SpanOnly, Rows(n0, s0, n1), 0, count, Seed(base, elemLen)).Some?
    ensures Walk(SpanOnly, Rows(n0, s0, n1), 0, count, Seed(base, elemLen)).value.typemap
         == Layout(base.typemap, Rows(n0, s0, n1), count)
       <==> s0 == elemLen
  {
    var row := Hvector(n0, s0, base);
    SpanOnlyWalk(base, elemLen, n0, s0, n1, count);
    RowExtent(base, elemLen, n0, s0);
    RowsLayout(base, n0, s0, n1, count);
    ContiguousIsHvectorIff(n1, s0 * n0, row);
    ReplicateLength(base.typemap, n0, s0);
    assert n0 * |base.typemap| > 0;
  }

  /** And when it is wrong, every entry of every row but the first is in the wrong place. */
  lemma SpanOnlyMisplacesRow(base: Datatype, elemLen: pos, n0: pos, s0: int, n1: pos, count: nat, i: nat, x: nat)
    requires base.lb == 0 && base.ub == elemLen && n0 > 1 && n1 > 1 && count == n1 * n0
    requires s0 != elemLen && 0 < i < n1 && x < |Hvector(n0, s0, base).typemap|
    ensures var wrong := Walk(SpanOnly, Rows(n0, s0, n1), 0, count, Seed(base, elemLen));
            var right := Layout(base.typemap, Rows(n0, s0, n1), count);
            var at := i * |Hvector(n0, s0, base).typemap| + x;
            wrong.Some? && 0 <= at < |wrong.value.typemap| == |right| && wrong.value.typemap[at].disp != right[at].disp
  {
    var row := Hvector(n0, s0, base);
    SpanOnlyWalk(base, elemLen, n0, s0, n1, count);
    RowExtent(base, elemLen, n0, s0);
    RowsLayout(base, n0, s0, n1, count);
    StepsMisplace(row.typemap, n1, row.Extent(), s0 * n0, i, x);
  }

  lemma SpanOnlyWalk(base: Datatype, elemLen: pos, n0: pos, s0: int, n1: pos, count: nat)
    requires n0 > 1 && n1 > 1 && count == n1 * n0 && base.lb == 0 && base.ub == elemLen
    ensures Walk(SpanOnly, Rows(n0, s0, n1), 0, count, Seed(base, elemLen))
         == Some(Contiguous(n1, Hvector(n0, s0, base)))
  {
    var dims, seed := Rows(n0, s0, n1), Seed(base, elemLen);
    DigitsUnique(count, 1, count, 0);
    assert count > n0 by { assert n1 * n0 >= 2 * n0; }
    var l := Next(SpanOnly, seed, dims[0]);
    assert l.elems == n0 && l.cur == Hvector(n0, s0, base);
    DigitsUnique(count, n0, n1, 0);
    assert Walk(SpanOnly, dims, 1, count, l) == Some(Wrap(SpanOnly, l, n1, dims[1].sm));
  }

  /** The section itself, as rows at their proper distance. */
  lemma RowsLayout(base: Datatype, n0: pos, s0: int, n1: pos, count: nat)
    requires count == n1 * n0
    ensures Layout(base.typemap, Rows(n0, s0, n1), count)
         == Replicate(Hvector(n0, s0, base).typemap, n1, s0 * n0)
  {
    var dims := Rows(n0, s0, n1);
    ReplicateLayout(base.typemap, [], dims[0], n0);
    LayoutSingle(base.typemap);
    assert [] + [dims[0]] == [dims[0]] == dims[..1];
    assert Elements([dims[0]]) == n0 by { assert [dims[0]][1..] == []; }
    ReplicateLayout(base.typemap, [dims[0]], dims[1], n1);
    assert [dims[0]] + [dims[1]] == dims;
  }

  lemma RowExtent(base: Datatype, elemLen: pos, n0: pos, s0: int)
    requires base.lb == 0 && base.ub == elemLen && n0 > 1
    ensures Hvector(n0, s0, base).Extent() == s0 * n0 <==> s0 == elemLen
  {
  }
}
