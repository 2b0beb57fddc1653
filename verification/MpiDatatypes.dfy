/** MPI datatypes as typemaps with a lower and an upper bound (MPI-5.0, sections 5.1.1, 5.1.2, 5.1.6 and 5.1.7),
    and the two constructors that the descriptor walker uses. */
module MpiDatatypes {

  datatype Basic = Basic(id: nat, size: nat)

  datatype Entry = Entry(disp: int, basic: Basic)

  type Typemap = seq<Entry>

  datatype Datatype = Datatype(typemap: Typemap, lb: int, ub: int) {
    function Extent(): int {
      ub - lb
    }
  }

  /** What MPI_Type_size reports: the bytes the entries hold, gaps not counted. */
  function Size(m: Typemap): nat {
    if m == [] then 0 else Size(m[..|m| - 1]) + m[|m| - 1].basic.size
  }

  function Shift(m: Typemap, d: int): (r: Typemap)
    ensures |r| == |m|
    ensures forall j :: 0 <= j < |m| ==> r[j] == Entry(m[j].disp + d, m[j].basic)
  {
    seq(|m|, j requires 0 <= j < |m| => Entry(m[j].disp + d, m[j].basic))
  }

  /** `n` copies of `m`, copy i moved by i * step. */
  function Replicate(m: Typemap, n: nat, step: int): Typemap {
    if n == 0 then [] else Replicate(m, n - 1, step) + Shift(m, (n - 1) * step)
  }

  function Min(a: int, b: int): int {
    if a <= b then a else b
  }

  function Max(a: int, b: int): int {
    if a >= b then a else b
  }

  /** The bounds of `n` copies are those of the outermost copies; no copies have no extent. */
  function ReplicateType(t: Datatype, n: nat, step: int): Datatype {
    if n == 0 then Datatype([], 0, 0)
    else Datatype(Replicate(t.typemap, n, step), Min(t.lb, t.lb + (n - 1) * step), Max(t.ub, t.ub + (n - 1) * step))
  }

  /** MPI_Type_contiguous_c: copy i at i times the extent. */
  function Contiguous(n: nat, t: Datatype): Datatype {
    ReplicateType(t, n, t.Extent())
  }

  /** MPI_Type_create_hvector_c with a block length of one: copy i at i times the byte stride. */
  function Hvector(n: nat, stride: int, t: Datatype): Datatype {
    ReplicateType(t, n, stride)
  }

  lemma ShiftZero(m: Typemap)
    ensures Shift(m, 0) == m
  {
  }

  lemma ShiftShift(m: Typemap, a: int, b: int)
    ensures Shift(Shift(m, a), b) == Shift(m, a + b)
  {
  }

  lemma ShiftConcat(a: Typemap, b: Typemap, d: int)
    ensures Shift(a + b, d) == Shift(a, d) + Shift(b, d)
  {
  }

  lemma {:induction false} ReplicateLength(m: Typemap, n: nat, step: int)
    ensures |Replicate(m, n, step)| == n * |m|
  {
    if n > 0 {
      ReplicateLength(m, n - 1, step);
      assert n * |m| == (n - 1) * |m| + |m|;
    }
  }

  /** Entry j of copy i, wherever the copy stands. */
  lemma {:induction false} ReplicateAt(m: Typemap, n: nat, step: int, i: nat, j: nat)
    requires i < n && j < |m|
    ensures 0 <= i * |m| + j < |Replicate(m, n, step)|
    ensures Replicate(m, n, step)[i * |m| + j] == Entry(m[j].disp + i * step, m[j].basic)
  {
    ReplicateLength(m, n - 1, step);
    ReplicateLength(m, n, step);
    if i < n - 1 {
      ReplicateAt(m, n - 1, step, i, j);
    }
  }

  lemma {:induction false} MulStrict(i: nat, a: int, b: int)
    requires i > 0 && a < b
    ensures i * a < i * b
  {
  }

  /** Two different steps agree on no copy but the first. */
  lemma StepsMisplace(m: Typemap, n: nat, a: int, b: int, i: nat, x: nat)
    requires a != b && 0 < i < n && x < |m|
    ensures 0 <= i * |m| + x < |Replicate(m, n, a)| == |Replicate(m, n, b)|
    ensures Replicate(m, n, a)[i * |m| + x].disp != Replicate(m, n, b)[i * |m| + x].disp
  {
    ReplicateLength(m, n, a);
    ReplicateLength(m, n, b);
    ReplicateAt(m, n, a, i, x);
    ReplicateAt(m, n, b, i, x);
    if a < b {
      MulStrict(i, a, b);
    } else {
      MulStrict(i, b, a);
    }
  }

  /** The two constructors build the same typemap exactly when the step does not matter or is the extent. */
  lemma ContiguousIsHvectorIff(n: nat, stride: int, t: Datatype)
    ensures Contiguous(n, t).typemap == Hvector(n, stride, t).typemap
       <==> n <= 1 || t.typemap == [] || stride == t.Extent()
  {
    var c, h := Replicate(t.typemap, n, t.Extent()), Replicate(t.typemap, n, stride);
    if n <= 1 {
      assert Replicate(t.typemap, 0, stride) == Replicate(t.typemap, 0, t.Extent()) == [];
      if n == 1 {
        assert 0 * t.Extent() == 0 == 0 * stride;
      }
    } else if t.typemap == [] {
      ReplicateLength([], n, t.Extent());
      ReplicateLength([], n, stride);
    } else {
      if stride != t.Extent() {
        StepsMisplace(t.typemap, n, t.Extent(), stride, 1, 0);
      }
    }
  }

  /** A type that starts at 0 keeps doing so under Contiguous, and its extent grows with the count. */
  lemma ContiguousExtent(n: nat, t: Datatype)
    requires n > 0 && t.lb == 0 && t.Extent() >= 0
    ensures Contiguous(n, t).lb == 0 && Contiguous(n, t).Extent() == n * t.Extent()
  {
  }

  function Abs(x: int): int {
    if x >= 0 then x else -x
  }

  /** A strided level, forward or backward, falls short of the bytes it spans by the difference of stride and inner
      extent; and its extent is stride times count, as the walker reckons, only if the stride is the inner extent. */
  lemma HvectorExtent(n: nat, stride: int, t: Datatype)
    requires n > 0
    ensures Hvector(n, stride, t).Extent() == Abs(stride) * (n - 1) + t.Extent()
    ensures Hvector(n, stride, t).Extent() == Abs(stride) * n <==> Abs(stride) == t.Extent()
    ensures stride >= 0 || t.Extent() >= 0 ==> (Hvector(n, stride, t).Extent() == stride * n <==> stride == t.Extent())
  {
  }

  /** An hvector level can restore extent == span without being the contiguous case: three 4-byte elements 8 bytes apart
      have extent 20, and two of those at stride 20 have extent 40. */
  lemma HvectorRestoresExtent(b: Basic)
    ensures var base := Datatype([Entry(0, b)], 0, 4);
            var strided := Hvector(3, 8, base);
            var above := Hvector(2, 20, strided);
            && strided.Extent() != 8 * 3 && above.Extent() == 20 * 2 && above.lb == 0
  {
  }
}
