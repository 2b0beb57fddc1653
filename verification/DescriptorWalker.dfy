/** The descriptor walker as the source writes it: a loop over the dimensions that makes and frees library datatypes,
    with a way out at every library call that can fail. */
module DescriptorWalker {
  import opened MpiConstants
  import opened MpiDatatypes
  import opened Options
  import opened SectionLayout
  import opened DescriptorWalk

  type Handle = nat

  /** from, from + 1, ..., to - 1 */
  function Range(from: nat, to: nat): seq<Handle>
    requires from <= to
  {
    seq(to - from, i requires 0 <= i < to - from => from + i)
  }

  lemma RangeNext(before: seq<Handle>, from: nat, to: nat)
    requires from <= to
    ensures (before + Range(from, to)) + [to] == before + Range(from, to + 1)
  {
  }

  /** The MPI library, as far as the walker sees it. Handles are never reused, so the log of freed handles tells
      whether anything was freed twice. Call number n answers outcome(n), whatever that is;
      `faults` counts the calls that answered an error. */
  class Library {
    var types: map<Handle, Datatype>
    var committed: set<Handle>
    var next: Handle
    var freed: seq<Handle>
    var calls: nat
    ghost var faults: nat
    const outcome: nat -> int

    constructor (outcome: nat -> int, types: map<Handle, Datatype>, next: Handle)
      requires forall h :: h in types ==> h < next
      ensures Valid()
      ensures this.types == types && this.next == next && this.outcome == outcome
      ensures committed == {} && freed == [] && calls == 0 && faults == 0
    {
      this.outcome := outcome;
      this.types, this.next := types, next;
      committed, freed, calls, faults := {}, [], 0, 0;
    }

    ghost predicate Valid()
      reads this
    {
      (forall h :: h in types ==> h < next) && committed <= types.Keys
    }

    function Answer(h: Handle): int
      reads this
    {
      if outcome(calls) != MPI_SUCCESS then outcome(calls) else if h !in types then MPI_ERR_TYPE else MPI_SUCCESS
    }

    function LastAnswer(): int
      reads this
    {
      if calls == 0 then MPI_SUCCESS else outcome(calls - 1)
    }

    twostate predicate Asked(h: Handle, err: int)
      reads this
    {
      && calls == old(calls) + 1 && err == old(Answer(h))
      && faults == old(faults) + if outcome(old(calls)) != MPI_SUCCESS then 1 else 0
    }

    method Ask(h: Handle) returns (err: int)
      modifies this`calls, this`faults
      ensures Asked(h, err)
    {
      err, calls := Answer(h), calls + 1;
      faults := faults + if outcome(calls - 1) != MPI_SUCCESS then 1 else 0;
    }

    method TypeSize(h: Handle) returns (err: int, size: nat)
      modifies this`calls, this`faults
      ensures Asked(h, err)
      ensures err == MPI_SUCCESS ==> h in types && size == Size(types[h].typemap)
    {
      size := 0;
      err := Ask(h);
      if err == MPI_SUCCESS {
        size := Size(types[h].typemap);
      }
    }

    method TypeGetExtent(h: Handle) returns (err: int, lb: int, extent: int)
      modifies this`calls, this`faults
      ensures Asked(h, err)
      ensures err == MPI_SUCCESS ==> h in types && lb == types[h].lb && extent == types[h].Extent()
    {
      lb, extent := 0, 0;
      err := Ask(h);
      if err == MPI_SUCCESS {
        lb, extent := types[h].lb, types[h].Extent();
      }
    }

    method TypeContiguous(n: nat, h: Handle) returns (err: int, made: Handle)
      requires Valid()
      modifies this`calls, this`faults, this`types, this`next
      ensures Valid() && Asked(h, err)
      ensures err != MPI_SUCCESS ==> types == old(types) && next == old(next)
      ensures err == MPI_SUCCESS ==> h in old(types) && made == old(next) && next == made + 1
                                     && types == old(types)[made := Contiguous(n, old(types)[h])]
    {
      made := 0;
      err := Ask(h);
      if err == MPI_SUCCESS {
        made, types, next := next, types[next := Contiguous(n, types[h])], next + 1;
      }
    }

    method TypeCreateHvector(n: nat, stride: int, h: Handle) returns (err: int, made: Handle)
      requires Valid()
      modifies this`calls, this`faults, this`types, this`next
      ensures Valid() && Asked(h, err)
      ensures err != MPI_SUCCESS ==> types == old(types) && next == old(next)
      ensures err == MPI_SUCCESS ==> h in old(types) && made == old(next) && next == made + 1
                                     && types == old(types)[made := Hvector(n, stride, old(types)[h])]
    {
      made := 0;
      err := Ask(h);
      if err == MPI_SUCCESS {
        made, types, next := next, types[next := Hvector(n, stride, types[h])], next + 1;
      }
    }

    method TypeCommit(h: Handle) returns (err: int)
      requires Valid()
      modifies this`calls, this`faults, this`committed
      ensures Valid() && Asked(h, err)
      ensures committed == if err == MPI_SUCCESS then old(committed) + {h} else old(committed)
    {
      err := Ask(h);
      if err == MPI_SUCCESS {
        committed := committed + {h};
      }
    }

    /** Freeing what is not a live type is the caller's error. */
    method TypeFree(h: Handle)
      requires Valid() && h in types
      modifies this`types, this`committed, this`freed
      ensures Valid() && types == old(types) - {h} && committed == old(committed) - {h} && freed == old(freed) + [h]
    {
      types, committed, freed := types - {h}, committed - {h}, freed + [h];
    }
  }

  /** What a library holds, to compare with later. */
  datatype Snapshot = Snapshot(types: map<Handle, Datatype>, committed: set<Handle>, freed: seq<Handle>, next: Handle)

  ghost predicate Coherent(s: Snapshot) {
    (forall h :: h in s.types ==> h < s.next) && s.committed <= s.types.Keys
  }

  ghost function Now(lib: Library): Snapshot
    reads lib
  {
    Snapshot(lib.types, lib.committed, lib.freed, lib.next)
  }

  /** Nothing lives that did not live in `s`; everything made since was freed, once and in order. */
  ghost predicate Restored(lib: Library, s: Snapshot)
    reads lib
  {
    && lib.Valid() && s.next <= lib.next
    && lib.types == s.types && lib.committed == s.committed
    && lib.freed == s.freed + Range(s.next, lib.next)
  }

  /** Besides what lived in `s`, only `cur` lives, the type made last; the others made since were freed. */
  ghost predicate Adds(lib: Library, s: Snapshot, cur: Handle)
    reads lib
  {
    && lib.Valid() && s.next <= cur && lib.next == cur + 1
    && cur in lib.types && lib.types == s.types[cur := lib.types[cur]]
    && lib.freed == s.freed + Range(s.next, cur)
  }

  /** The state between two steps of the walk: `cur` is either ours, or the old type with nothing made yet. */
  ghost predicate Walking(lib: Library, s: Snapshot, cur: Handle, owned: bool)
    reads lib
  {
    && cur in lib.types && lib.committed == s.committed
    && if owned then Adds(lib, s, cur) else lib.Valid() && Now(lib) == s
  }

  /** The caller's variable for the result. */
  class HandleRef {
    var value: Handle

    constructor (value: Handle)
      ensures this.value == value
    {
      this.value := value;
    }
  }

  /** The source's `fail` label. */
  method Fail(lib: Library, cur: Handle, owned: bool, ghost s: Snapshot)
    requires Walking(lib, s, cur, owned) && Coherent(s)
    modifies lib`types, lib`committed, lib`freed
    ensures Restored(lib, s)
  {
    if owned {
      assert cur !in s.types;
      lib.TypeFree(cur);
      assert lib.types == s.types && lib.committed == s.committed;
      RangeNext(s.freed, s.next, cur);
    } else {
      assert Range(s.next, lib.next) == [];
    }
  }

  /** One level: wrap `cur`, and let go of it if it was ours. */
  method WrapLevel(lib: Library, contiguous: bool, n: nat, sm: int, cur: Handle, owned: bool, ghost l: Level, ghost s: Snapshot)
    returns (err: int, next: Handle)
    requires Walking(lib, s, cur, owned) && Coherent(s)
    requires l.cur == lib.types[cur] && (contiguous <==> TakesContiguous(WhileDense, l, sm))
    modifies lib`calls, lib`faults, lib`types, lib`next, lib`committed, lib`freed
    ensures err == lib.LastAnswer()
    ensures err != MPI_SUCCESS ==> Restored(lib, s) && lib.faults > old(lib.faults)
    ensures err == MPI_SUCCESS ==> Walking(lib, s, next, true) && lib.types[next] == Wrap(WhileDense, l, n, sm)
                                   && lib.faults == old(lib.faults)
  {
    if contiguous {
      err, next := lib.TypeContiguous(n, cur);
    } else {
      err, next := lib.TypeCreateHvector(n, sm, cur);
    }
    if err != MPI_SUCCESS {
      Fail(lib, cur, owned, s);
      return;
    }
    if owned {
      lib.TypeFree(cur);
      RangeNext(s.freed, s.next, cur);
    } else {
      assert Range(s.next, next) == [];
    }
    assert lib.types == s.types[next := lib.types[next]];
  }

  /** Why an error is answered: a library call failed, and then it is the last one's, or there is nothing to build. */
  ghost predicate Explains(lib: Library, err: int, faults: nat, live: bool, goal: Option<Datatype>)
    reads lib
  {
    && err != MPI_SUCCESS
    && if lib.faults == faults
       then goal == None && err == (if live then MPI_ERR_ARG else MPI_ERR_TYPE)
       else err == lib.LastAnswer()
  }

  ghost function Goal(elemLen: nat, dims: seq<Dim>, oldcount: nat, oldType: Handle, s: Snapshot): Option<Datatype> {
    if oldType in s.types then Compile(elemLen, dims, oldcount, s.types[oldType]) else None
  }

  /** The source up to the base type: sizes compared, the factor folded in. */
  method FoldFactor(lib: Library, elemLen: nat, ghost dims: seq<Dim>, oldcount: nat, oldType: Handle, ghost s: Snapshot)
    returns (err: int, cur: Handle, owned: bool, count: nat)
    requires lib.Valid() && s == Now(lib)
    modifies lib
    ensures err == MPI_SUCCESS ==>
              && oldType in s.types && lib.faults == old(lib.faults)
              && Walking(lib, s, cur, owned)
              && Goal(elemLen, dims, oldcount, oldType, s) == Walk(WhileDense, dims, 0, count, Seed(lib.types[cur], elemLen))
    ensures err != MPI_SUCCESS ==>
              && Restored(lib, s)
              && Explains(lib, err, old(lib.faults), oldType in s.types, Goal(elemLen, dims, oldcount, oldType, s))
  {
    assert Range(s.next, s.next) == [];
    cur, owned, count := oldType, false, oldcount;
    var size: nat;
    err, size := lib.TypeSize(oldType);
    if err != MPI_SUCCESS {
      return;
    }
    if size > 0 {
      DigitIsRemainder(elemLen, size);
    }
    if size == 0 || elemLen % size != 0 {
      err := MPI_ERR_ARG;
      return;
    }
    var factor := elemLen / size;
    if factor > 1 {
      DigitIsRemainder(count, factor);
      if count % factor != 0 {
        err := MPI_ERR_ARG;
        return;
      }
      count := count / factor;
      err, cur := lib.TypeContiguous(factor, oldType);
      if err != MPI_SUCCESS {
        return;
      }
      owned := true;
      assert lib.types == s.types[cur := lib.types[cur]];
    } else {
      DigitsUnique(oldcount, 1, oldcount, 0);
    }
  }

  /** The source from the base type to the last dimension: `cur` wraps all that the count reaches, or has been let go. */
  method WalkDimensions(lib: Library, elemLen: nat, dims: seq<Dim>, count: nat, base: Handle, ours: bool, ghost s: Snapshot)
    returns (err: int, cur: Handle)
    requires Walking(lib, s, base, ours) && Coherent(s)
    modifies lib
    ensures err == MPI_SUCCESS ==>
              && lib.faults == old(lib.faults) && Walking(lib, s, cur, true)
              && Walk(WhileDense, dims, 0, count, Seed(old(lib.types[base]), elemLen)) == Some(lib.types[cur])
    ensures err != MPI_SUCCESS ==>
              && Restored(lib, s)
              && Explains(lib, err, old(lib.faults), true, Walk(WhileDense, dims, 0, count, Seed(old(lib.types[base]), elemLen)))
  {
    ghost var goal := Walk(WhileDense, dims, 0, count, Seed(lib.types[base], elemLen));
    cur := base;
    var lb, extent;
    err, lb, extent := lib.TypeGetExtent(cur);
    if err != MPI_SUCCESS {
      Fail(lib, cur, ours, s);
      return;
    }
    var owned, done, i := ours, false, 0;
    var elemsPerCur: pos, bytesPerCur: int, dense := 1, elemLen, lb == 0 && extent == elemLen;
    ghost var l := Seed(lib.types[cur], elemLen);
    while i < |dims| && !done
      invariant 0 <= i <= |dims|
      invariant lib.faults == old(lib.faults) && Walking(lib, s, cur, owned)
      invariant !done ==> l == Level(lib.types[cur], elemsPerCur, bytesPerCur, dense)
      invariant goal == if done then Some(lib.types[cur]) else Walk(WhileDense, dims, i, count, l)
      invariant done ==> owned
    {
      DigitIsRemainder(count, elemsPerCur);
      if count % elemsPerCur != 0 {
        Fail(lib, cur, owned, s);
        err := MPI_ERR_ARG;
        return;
      }
      WalkUnfolds(dims, i, count, l);
      var n := count / elemsPerCur;
      if n > dims[i].extent {
        n := dims[i].extent;
      } else {
        done := true;
      }
      var next: Handle;
      dense := dense && dims[i].sm == bytesPerCur;
      err, next := WrapLevel(lib, dense, n, dims[i].sm, cur, owned, l, s);
      if err != MPI_SUCCESS {
        return;
      }
      cur, owned := next, true;
      elemsPerCur, bytesPerCur := MulPos(elemsPerCur, dims[i].extent), dims[i].sm * dims[i].extent;
      l := Next(WhileDense, l, dims[i]);
      i := i + 1;
    }
    if !done {
      Fail(lib, cur, owned, s);
      err := MPI_ERR_ARG;
      return;
    }
    err := MPI_SUCCESS;
  }

  /** The source's last part: commit, and hand over or let go. */
  method Deliver(lib: Library, cur: Handle, newType: HandleRef, ghost s: Snapshot) returns (err: int)
    requires Walking(lib, s, cur, true) && Coherent(s)
    modifies lib, newType
    ensures err == lib.LastAnswer()
    ensures err == MPI_SUCCESS ==>
              && lib.faults == old(lib.faults) && newType.value == cur && Adds(lib, s, cur)
              && lib.types[cur] == old(lib.types[cur]) && lib.committed == s.committed + {cur}
    ensures err != MPI_SUCCESS ==>
              lib.faults > old(lib.faults) && newType.value == old(newType.value) && Restored(lib, s)
  {
    err := lib.TypeCommit(cur);
    if err != MPI_SUCCESS {
      Fail(lib, cur, true, s);
      return;
    }
    newType.value := cur;
  }

  /** mpif_cdesc_create_datatype.
      What is made: on success exactly one type more than before, committed, a new handle, with the section's typemap;
      on error nothing more than before and `newType` untouched.
      What is freed: every other type made on the way, once each and in the order made, and nothing else.
      When: exactly if the old type is live, the count is acceptable and no library call failed. Otherwise the error is
      that of the call that failed last, or MPI_ERR_ARG for an unacceptable count. */
  method CreateDatatype(lib: Library, elemLen: nat, dims: seq<Dim>, oldcount: nat, oldType: Handle, newType: HandleRef)
    returns (err: int)
    requires lib.Valid()
    modifies lib, newType
    ensures err == MPI_SUCCESS <==> oldType in old(lib.types) && Accepts(elemLen, dims, oldcount, old(lib.types)[oldType])
                                    && lib.faults == old(lib.faults)
    ensures err == MPI_SUCCESS ==>
              && Adds(lib, old(Now(lib)), newType.value)
              && lib.types[newType.value].typemap == SectionTypemap(elemLen, dims, oldcount, old(lib.types)[oldType])
              && lib.committed == old(lib.committed) + {newType.value}
    ensures err != MPI_SUCCESS ==>
              && Restored(lib, old(Now(lib))) && newType.value == old(newType.value)
              && (if lib.faults == old(lib.faults)
                  then err == (if oldType in old(lib.types) then MPI_ERR_ARG else MPI_ERR_TYPE)
                  else err == lib.LastAnswer())
  {
    ghost var s := Now(lib);
    if oldType in lib.types {
      CompileIsSectionTypemap(elemLen, dims, oldcount, lib.types[oldType]);
    }
    var cur: Handle, owned, count;
    err, cur, owned, count := FoldFactor(lib, elemLen, dims, oldcount, oldType, s);
    if err != MPI_SUCCESS {
      return;
    }
    err, cur := WalkDimensions(lib, elemLen, dims, count, cur, owned, s);
    if err != MPI_SUCCESS {
      return;
    }
    err := Deliver(lib, cur, newType, s);
  }
}
