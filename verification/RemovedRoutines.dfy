/** src/mpif_removed.c: the MPI-1 routines whose addresses, displacements and extents are 32-bit integers, on top of
    replacements where they are 64-bit. */
module RemovedRoutines {
  import opened MpiConstants
  import opened MpiDatatypes

  const MODULUS := 0x1_0000_0000

  predicate InFint(x: int) {
    -0x8000_0000 <= x < 0x8000_0000
  }

  predicate InAint(x: int) {
    -0x8000_0000_0000_0000 <= x < 0x8000_0000_0000_0000
  }

  type Fint = x: int | InFint(x)

  type Aint = x: int | InAint(x)

  /** The conversion to MPI_Fint, and 32-bit arithmetic: the low 32 bits, read as two's complement. */
  function Wrap(x: int): (r: Fint)
    ensures (x - r) % MODULUS == 0
  {
    (x + 0x8000_0000) % MODULUS - 0x8000_0000
  }

  /** How often 2^32 was taken off. */
  function Wraps(x: int): (q: int)
    ensures x == Wrap(x) + MODULUS * q
  {
    (x + 0x8000_0000) / MODULUS
  }

  lemma WrapFrom(x: int, r: Fint, q: int)
    requires x == r + MODULUS * q
    ensures Wrap(x) == r
  {
    var k := Wraps(x) - q;
    assert r == Wrap(x) + 0x1_0000_0000 * k;
    assert InFint(r) && InFint(Wrap(x));
  }

  lemma WrapIsUnique(x: int, y: int)
    ensures Wrap(x) == Wrap(y) <==> (x - y) % MODULUS == 0
    ensures Wrap(x) == x <==> InFint(x)
  {
    if (x - y) % MODULUS == 0 {
      WrapFrom(x, Wrap(y), Wraps(y) + (x - y) / MODULUS);
    }
    if Wrap(x) == Wrap(y) {
      assert x - y == MODULUS * (Wraps(x) - Wraps(y));
    }
    if InFint(x) {
      WrapFrom(x, x, 0);
    }
  }

  lemma WrapDifference(a: int, b: int)
    ensures Wrap(Wrap(a) - Wrap(b)) == Wrap(a - b)
  {
    var d := Wrap(a) - Wrap(b);
    WrapFrom(a - b, Wrap(d), Wraps(d) + Wraps(a) - Wraps(b));
  }

  // ----- addresses and extents

  /** mpi_address_: whatever MPI answers, the local it was to fill is converted, and that starts as 0. */
  method Address(location: Aint, answer: int) returns (address: Fint, ierror: int)
    ensures ierror == answer
    ensures address == Wrap(if answer == MPI_SUCCESS then location else 0)
    ensures (address - if answer == MPI_SUCCESS then location else 0) % MODULUS == 0
  {
    var cAddress: Aint := 0;
    if answer == MPI_SUCCESS {
      cAddress := location;
    }
    return Wrap(cAddress), answer;
  }

  /** What MPI_Type_get_extent answers; on failure it writes neither bound. */
  datatype Reply = Reply(ierror: int, lb: Aint, extent: Aint) {
    function Lb(): int {
      if ierror == MPI_SUCCESS then lb else 0
    }

    function Extent(): int {
      if ierror == MPI_SUCCESS then extent else 0
    }
  }

  method GetExtent(reply: Reply, lb: Aint, extent: Aint) returns (lb': Aint, extent': Aint)
    ensures lb' == if reply.ierror == MPI_SUCCESS then reply.lb else lb
    ensures extent' == if reply.ierror == MPI_SUCCESS then reply.extent else extent
  {
    lb', extent' := lb, extent;
    if reply.ierror == MPI_SUCCESS {
      lb', extent' := reply.lb, reply.extent;
    }
  }

  method TypeExtent(reply: Reply) returns (extent: Fint, ierror: int)
    ensures ierror == reply.ierror && extent == Wrap(reply.Extent())
    ensures if ierror == MPI_SUCCESS then (extent - reply.extent) % MODULUS == 0 else extent == 0
  {
    var lb, cExtent := GetExtent(reply, 0, 0);
    return Wrap(cExtent), reply.ierror;
  }

  method TypeLb(reply: Reply) returns (displacement: Fint, ierror: int)
    ensures ierror == reply.ierror && displacement == Wrap(reply.Lb())
    ensures if ierror == MPI_SUCCESS then (displacement - reply.lb) % MODULUS == 0 else displacement == 0
  {
    var lb, extent := GetExtent(reply, 0, 0);
    return Wrap(lb), reply.ierror;
  }

  method TypeUb(reply: Reply) returns (displacement: Fint, ierror: int)
    requires InAint(reply.Lb() + reply.Extent())
    ensures ierror == reply.ierror && displacement == Wrap(reply.Lb() + reply.Extent())
    ensures if ierror == MPI_SUCCESS then (displacement - (reply.lb + reply.extent)) % MODULUS == 0 else displacement == 0
  {
    var lb, extent := GetExtent(reply, 0, 0);
    return Wrap(lb + extent), reply.ierror;
  }

  /** What the three routines answer about one type fits together in 32-bit arithmetic, whatever was cut off; and is the
      type's true extent exactly if that is a 32-bit integer. */
  lemma BoundsFit(reply: Reply)
    ensures var lb, ub, extent := Wrap(reply.Lb()), Wrap(reply.Lb() + reply.Extent()), Wrap(reply.Extent());
            && (ub - lb - extent) % MODULUS == 0
            && Wrap(ub - lb) == extent
            && (Wrap(ub - lb) == reply.Extent() <==> InFint(reply.Extent()))
  {
    WrapDifference(reply.Lb() + reply.Extent(), reply.Lb());
    WrapIsUnique(Wrap(reply.Lb() + reply.Extent()) - Wrap(reply.Lb()), Wrap(reply.Extent()));
    WrapIsUnique(reply.Extent(), 0);
  }

  // ----- displacements

  /** What a program computes from the answers of mpi_address_ for two objects. */
  function Displacement(address: Aint, base: Aint): Fint {
    Wrap(Wrap(address) - Wrap(base))
  }

  /** The difference of two truncated addresses is the true one exactly if the objects are less than 2 GiB apart. */
  lemma DisplacementIsExactIff(address: Aint, base: Aint)
    ensures Displacement(address, base) == address - base <==> InFint(address - base)
  {
  }

  function Displacements(addresses: seq<Aint>, base: Aint): (d: seq<Fint>)
    ensures |d| == |addresses|
    ensures forall i :: 0 <= i < |d| ==> d[i] == Displacement(addresses[i], base)
  {
    seq(|addresses|, i requires 0 <= i < |addresses| => Displacement(addresses[i], base))
  }

  /** An MPI_Datatype that an integer handle stands for. */
  datatype Handle = Handle(fromInt: Fint)

  datatype Request =
    | Hindexed(count: Fint, blocklengths: seq<Fint>, displacements: seq<Aint>, oldtype: Handle)
    | Struct(count: Fint, blocklengths: seq<Fint>, displacements: seq<Aint>, types: seq<Handle>)

  /** MPI_DATATYPE_NULL in the MPI ABI. */
  const DATATYPE_NULL: Fint := 0x200

  /** The MPI library: it answers as it likes, and makes a type if it answers success. */
  class Mpi {
    var requests: seq<Request>
    const answer: int
    const handle: Handle

    constructor (answer: int, handle: Handle)
      ensures requests == [] && this.answer == answer && this.handle == handle
    {
      requests := [];
      this.answer := answer;
      this.handle := handle;
    }

    method Create(request: Request) returns (ierror: int)
      modifies this
      ensures requests == old(requests) + [request] && ierror == answer
    {
      requests := requests + [request];
      ierror := answer;
    }
  }

  /** Only a successful call has a handle to convert. */
  function NewType(ierror: int, made: Handle): Fint {
    if ierror == MPI_SUCCESS then made.fromInt else DATATYPE_NULL
  }

  function Counted(count: Fint): nat {
    if count > 0 then count else 0
  }

  function Handles(types: seq<Fint>): (h: seq<Handle>)
    ensures |h| == |types| && forall i :: 0 <= i < |types| ==> h[i] == Handle(types[i])
  {
    seq(|types|, i requires 0 <= i < |types| => Handle(types[i]))
  }

  method TypeHindexed(mpi: Mpi, count: Fint, blocklengths: seq<Fint>, displacements: seq<Fint>, oldtype: Fint)
    returns (newType: Fint, ierror: int)
    requires Counted(count) <= |blocklengths| && Counted(count) <= |displacements|
    modifies mpi
    ensures var n := Counted(count);
            mpi.requests == old(mpi.requests) + [Hindexed(count, blocklengths[..n], displacements[..n], Handle(oldtype))]
    ensures ierror == mpi.answer && newType == NewType(ierror, mpi.handle)
    ensures if ierror == MPI_SUCCESS then Handle(newType) == mpi.handle else newType == DATATYPE_NULL
  {
    var n := Counted(count);
    var cDisplacements := new Aint[if count > 0 then count else 1];
    var i := 0;
    while i < count
      invariant 0 <= i <= n && mpi.requests == old(mpi.requests)
      invariant cDisplacements[..i] == displacements[..i]
    {
      cDisplacements[i] := displacements[i];
      i := i + 1;
    }
    ierror := mpi.Create(Hindexed(count, blocklengths[..n], cDisplacements[..n], Handle(oldtype)));
    newType := NewType(ierror, mpi.handle);
  }

  method TypeStruct(mpi: Mpi, count: Fint, blocklengths: seq<Fint>, displacements: seq<Fint>, types: seq<Fint>)
    returns (newType: Fint, ierror: int)
    requires Counted(count) <= |blocklengths| && Counted(count) <= |displacements| && Counted(count) <= |types|
    modifies mpi
    ensures var n := Counted(count);
            mpi.requests == old(mpi.requests) + [Struct(count, blocklengths[..n], displacements[..n], Handles(types[..n]))]
    ensures ierror == mpi.answer && newType == NewType(ierror, mpi.handle)
    ensures if ierror == MPI_SUCCESS then Handle(newType) == mpi.handle else newType == DATATYPE_NULL
  {
    var n := Counted(count);
    var cDisplacements := new Aint[if count > 0 then count else 1];
    var cTypes := new Handle[if count > 0 then count else 1](_ => Handle(0));
    var i := 0;
    while i < count
      invariant 0 <= i <= n && mpi.requests == old(mpi.requests)
      invariant cDisplacements[..i] == displacements[..i]
      invariant cTypes[..i] == Handles(types[..i])
    {
      cDisplacements[i] := displacements[i];
      cTypes[i] := Handle(types[i]);
      i := i + 1;
    }
    ierror := mpi.Create(Struct(count, blocklengths[..n], cDisplacements[..n], cTypes[..n]));
    newType := NewType(ierror, mpi.handle);
  }

  // ----- where the idiom puts the data

  /** The data of a hindexed or struct type: each block's, at its displacement. */
  function Placed(blocks: seq<Typemap>, displacements: seq<int>): Typemap
    requires |blocks| == |displacements|
  {
    if blocks == [] then []
    else
      var last := |blocks| - 1;
      Placed(blocks[..last], displacements[..last]) + Shift(blocks[last], displacements[last])
  }

  lemma {:induction false} PlacedLength(blocks: seq<Typemap>, d: seq<int>, e: seq<int>)
    requires |blocks| == |d| == |e|
    ensures |Placed(blocks, d)| == |Placed(blocks, e)|
  {
    if blocks != [] {
      var last := |blocks| - 1;
      PlacedLength(blocks[..last], d[..last], e[..last]);
    }
  }

  function Moved(d: seq<int>, base: int): (r: seq<int>)
    ensures |r| == |d| && forall i :: 0 <= i < |d| ==> r[i] == d[i] + base
  {
    seq(|d|, i requires 0 <= i < |d| => d[i] + base)
  }

  lemma {:induction false} PlacedShift(blocks: seq<Typemap>, d: seq<int>, base: int)
    requires |blocks| == |d|
    ensures Shift(Placed(blocks, d), base) == Placed(blocks, Moved(d, base))
  {
    if blocks == [] {
      assert Placed(blocks, d) == [] && Placed(blocks, Moved(d, base)) == [];
    } else {
      var last := |blocks| - 1;
      var init, block := Placed(blocks[..last], d[..last]), Shift(blocks[last], d[last]);
      PlacedShift(blocks[..last], d[..last], base);
      assert Moved(d, base)[..last] == Moved(d[..last], base);
      ShiftConcat(init, block, base);
      ShiftShift(blocks[last], d[last], base);
      assert Placed(blocks, d) == init + block;
    }
  }

  lemma ShiftInjective(m: Typemap, a: int, b: int)
    requires m != []
    ensures Shift(m, a) == Shift(m, b) <==> a == b
  {
    assert Shift(m, a)[0] == Entry(m[0].disp + a, m[0].basic);
    assert Shift(m, b)[0] == Entry(m[0].disp + b, m[0].basic);
  }

  lemma SameParts(a: Typemap, b: Typemap, c: Typemap, d: Typemap)
    requires |a| == |c|
    ensures a + b == c + d <==> a == c && b == d
  {
    assert (a + b)[..|a|] == a && (a + b)[|a|..] == b;
    assert (c + d)[..|c|] == c && (c + d)[|c|..] == d;
  }

  /** Two placements are the same exactly if every block that is not empty is in the same place. */
  lemma {:induction false} PlacedInjective(blocks: seq<Typemap>, d: seq<int>, e: seq<int>)
    requires |blocks| == |d| == |e|
    ensures Placed(blocks, d) == Placed(blocks, e) <==> forall i :: 0 <= i < |blocks| && blocks[i] != [] ==> d[i] == e[i]
  {
    if blocks != [] {
      var last := |blocks| - 1;
      PlacedInjective(blocks[..last], d[..last], e[..last]);
      PlacedLength(blocks[..last], d[..last], e[..last]);
      SameParts(Placed(blocks[..last], d[..last]), Shift(blocks[last], d[last]),
                Placed(blocks[..last], e[..last]), Shift(blocks[last], e[last]));
      if blocks[last] != [] {
        ShiftInjective(blocks[last], d[last], e[last]);
      }
      assert forall i :: 0 <= i < last ==> blocks[..last][i] == blocks[i] && d[..last][i] == d[i] && e[..last][i] == e[i];
    }
  }

  lemma PlacedAtAddressesIff(blocks: seq<Typemap>, addresses: seq<Aint>, base: Aint)
    requires |blocks| == |addresses|
    ensures Shift(Placed(blocks, Displacements(addresses, base)), base) == Placed(blocks, addresses)
       <==> forall i :: 0 <= i < |addresses| && blocks[i] != [] ==> InFint(addresses[i] - base)
  {
    var d := Displacements(addresses, base);
    var there := Moved(d, base);
    PlacedShift(blocks, d, base);
    PlacedInjective(blocks, there, addresses);
    forall i | 0 <= i < |addresses|
      ensures there[i] == addresses[i] <==> InFint(addresses[i] - base)
    {
      DisplacementIsExactIff(addresses[i], base);
    }
  }

  // ----- what is asked of MPI

  /** The type of each block. */
  function TypesOf(request: Request): seq<Handle> {
    match request
    case Hindexed(_, blocklengths, _, oldtype) => seq(|blocklengths|, _ => oldtype)
    case Struct(_, _, _, types) => types
  }

  predicate IsComplete(request: Request) {
    |request.blocklengths| == |request.displacements| == |TypesOf(request)| == Counted(request.count)
  }

  /** Block i of MPI_Type_create_hindexed and MPI_Type_create_struct (MPI-5.0, section 5.1.2): as many of its type, in a
      row, as its block length says. */
  function BlocksOf(request: Request, typeOf: Handle -> Datatype): (blocks: seq<Typemap>)
    requires IsComplete(request)
    ensures |blocks| == |request.displacements|
  {
    seq(|request.blocklengths|, i requires 0 <= i < |request.blocklengths| =>
      Contiguous(Counted(request.blocklengths[i]), typeOf(TypesOf(request)[i])).typemap)
  }

  /** The typemap that MPI makes: each block at its displacement. */
  function TypemapOf(request: Request, typeOf: Handle -> Datatype): Typemap
    requires IsComplete(request)
  {
    Placed(BlocksOf(request, typeOf), request.displacements)
  }

  /** What the members of a structure are, where they are. */
  function MembersAt(request: Request, typeOf: Handle -> Datatype, addresses: seq<Aint>): Typemap
    requires IsComplete(request) && |addresses| == Counted(request.count)
  {
    Placed(BlocksOf(request, typeOf), addresses)
  }

  lemma BlockEmptyIff(request: Request, typeOf: Handle -> Datatype, i: nat)
    requires IsComplete(request) && i < Counted(request.count)
    ensures BlocksOf(request, typeOf)[i] == [] <==>
              request.blocklengths[i] <= 0 || typeOf(TypesOf(request)[i]).typemap == []
  {
    var t := typeOf(TypesOf(request)[i]);
    var n := Counted(request.blocklengths[i]);
    if n > 0 {
      ReplicateLength(t.typemap, n, t.Extent());
      assert t.typemap != [] ==> n * |t.typemap| > 0;
    }
  }

  /** MPI-1's idiom for a structure in memory: take every member's address and the structure's by mpi_address_, subtract,
      and pass the differences on. The type that MPI is asked for, used at the structure's address, is the members' own
      data where they are, exactly if every member that has any data is less than 2 GiB away. */
  lemma IdiomDescribesMembersIff(request: Request, typeOf: Handle -> Datatype, addresses: seq<Aint>, base: Aint)
    requires IsComplete(request) && |addresses| == Counted(request.count)
    requires request.displacements == Displacements(addresses, base)
    ensures Shift(TypemapOf(request, typeOf), base) == MembersAt(request, typeOf, addresses) <==>
              forall i :: 0 <= i < |addresses| && request.blocklengths[i] > 0 && typeOf(TypesOf(request)[i]).typemap != [] ==>
                InFint(addresses[i] - base)
  {
    var blocks := BlocksOf(request, typeOf);
    PlacedAtAddressesIff(blocks, addresses, base);
    forall i | 0 <= i < |addresses|
      ensures blocks[i] == [] <==> request.blocklengths[i] <= 0 || typeOf(TypesOf(request)[i]).typemap == []
    {
      BlockEmptyIff(request, typeOf, i);
    }
  }

  /** The same, of the request that mpi_type_hindexed_ makes. */
  lemma HindexedDescribesMembersIff(count: Fint, blocklengths: seq<Fint>, addresses: seq<Aint>, base: Aint, oldtype: Fint,
                                    typeOf: Handle -> Datatype)
    requires |blocklengths| == |addresses| == Counted(count)
    ensures var request := Hindexed(count, blocklengths, Displacements(addresses, base), Handle(oldtype));
            && IsComplete(request)
            && (Shift(TypemapOf(request, typeOf), base) == MembersAt(request, typeOf, addresses) <==>
                typeOf(Handle(oldtype)).typemap == []
                || forall i :: 0 <= i < |addresses| && blocklengths[i] > 0 ==> InFint(addresses[i] - base))
  {
    var request := Hindexed(count, blocklengths, Displacements(addresses, base), Handle(oldtype));
    IdiomDescribesMembersIff(request, typeOf, addresses, base);
    assert forall i :: 0 <= i < |addresses| ==> TypesOf(request)[i] == Handle(oldtype);
  }

  /** And of the request that mpi_type_struct_ makes. */
  lemma StructDescribesMembersIff(count: Fint, blocklengths: seq<Fint>, addresses: seq<Aint>, base: Aint, types: seq<Fint>,
                                  typeOf: Handle -> Datatype)
    requires |blocklengths| == |addresses| == |types| == Counted(count)
    ensures var request := Struct(count, blocklengths, Displacements(addresses, base), Handles(types));
            && IsComplete(request)
            && (Shift(TypemapOf(request, typeOf), base) == MembersAt(request, typeOf, addresses) <==>
                forall i :: 0 <= i < |addresses| && blocklengths[i] > 0 && typeOf(Handle(types[i])).typemap != [] ==>
                  InFint(addresses[i] - base))
  {
    var request := Struct(count, blocklengths, Displacements(addresses, base), Handles(types));
    IdiomDescribesMembersIff(request, typeOf, addresses, base);
    assert forall i :: 0 <= i < |addresses| ==> TypesOf(request)[i] == Handle(types[i]);
  }
}
