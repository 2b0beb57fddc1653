/** One pool of callback slots as the source's functions change it, called one at a time; and the creation of an error
    handler on top of it, which either happens or leaves no trace. */
module CallbackPool {
  import opened MpiConstants
  import opened Options
  import opened Procedures

  datatype Kind = Comm | Win | File | Session

  /** The enumerators of mpif_errhandler_kind, in their order from 0. */
  predicate IsKind(k: Kind, kind: int) {
    (k.Comm? && kind == 0) || (k.Win? && kind == 1) || (k.File? && kind == 2) || (k.Session? && kind == 3)
  }

  /** What MPI is given: a pre-generated C function that knows its kind and its slot. */
  datatype Trampoline = Trampoline(kind: Kind, slot: nat)

  /** A pool's contents: per slot, None where free, and the procedure where in use. */
  type Contents = seq<Option<Proc>>

  /** The slot that a reserve takes: the first that is free. */
  ghost predicate FirstFree(c: Contents, i: nat) {
    i < |c| && c[i] == None && forall j :: 0 <= j < i ==> c[j] != None
  }

  ghost predicate Full(c: Contents) {
    forall j :: 0 <= j < |c| ==> c[j] != None
  }

  function FirstFreeSlot(c: Contents): (i: Option<nat>)
    ensures i.Some? ==> FirstFree(c, i.value)
    ensures i == None ==> Full(c)
  {
    if c == [] then None
    else
      var below := FirstFreeSlot(c[..|c| - 1]);
      assert below == None ==> forall j :: 0 <= j < |c| - 1 ==> c[j] == c[..|c| - 1][j];
      if below.Some? then below else if c[|c| - 1] == None then Some(|c| - 1) else None
  }

  class Pool {
    var inUse: array<bool>
    var fn: array<Option<Proc>>

    /** A slot has a procedure exactly while it is in use. */
    ghost predicate Valid()
      reads this, inUse, fn
    {
      && inUse.Length == fn.Length
      && forall i :: 0 <= i < fn.Length ==> (inUse[i] <==> fn[i] != None)
    }

    ghost function Contents(): Contents
      reads this, fn
    {
      fn[..]
    }

    constructor (n: nat)
      ensures Valid() && fresh(inUse) && fresh(fn) && Contents() == seq(n, _ => None)
    {
      inUse := new bool[n](_ => false);
      fn := new Option<Proc>[n](_ => None);
    }

    /** mpif_op_reserve, and the first half of mpif_errhandler_reserve: take the first free slot, or answer -1. */
    method Reserve(callback: Proc) returns (slot: int)
      requires Valid()
      modifies inUse, fn
      ensures Valid()
      ensures slot == -1 ==> Full(old(Contents())) && Contents() == old(Contents())
      ensures slot != -1 ==>
                slot >= 0 && FirstFree(old(Contents()), slot) && Contents() == old(Contents())[slot := Some(callback)]
    {
      var i := 0;
      while i < inUse.Length
        invariant 0 <= i <= inUse.Length && Valid() && Contents() == old(Contents())
        invariant forall j :: 0 <= j < i ==> fn[j] != None
      {
        if !inUse[i] {
          inUse[i] := true;
          fn[i] := Some(callback);
          return i;
        }
        i := i + 1;
      }
      return -1;
    }

    /** mpif_op_cancel and mpif_errhandler_cancel: give a slot back; a number that is no slot is ignored. */
    method Cancel(slot: int)
      requires Valid()
      modifies inUse, fn
      ensures Valid()
      ensures Contents() == if 0 <= slot < |old(Contents())| then old(Contents())[slot := None] else old(Contents())
    {
      if slot < 0 || slot >= fn.Length {
        return;
      }
      fn[slot] := None;
      inUse[slot] := false;
    }

    /** What a trampoline does when MPI calls it: the slot's procedure, or nothing. */
    method Call(trampoline: Trampoline) returns (called: Option<Proc>)
      requires Valid() && trampoline.slot < |Contents()|
      ensures called == Contents()[trampoline.slot]
    {
      called := fn[trampoline.slot];
    }

    /** mpif_errhandler_reserve. A kind that is none of the four gives the slot back at once. */
    method ReserveErrhandler(callback: Proc, kind: int) returns (trampoline: Option<Trampoline>, slot: int)
      requires Valid()
      modifies inUse, fn
      ensures Valid()
      ensures trampoline == None ==> Contents() == old(Contents())
      ensures trampoline == None <==> Full(old(Contents())) || !(0 <= kind <= 3)
      ensures trampoline.Some? ==>
                && slot >= 0 && trampoline == Some(Trampoline(KindOf(kind).value, slot))
                && IsKind(trampoline.value.kind, kind)
                && FirstFree(old(Contents()), slot) && Contents() == old(Contents())[slot := Some(callback)]
    {
      slot := Reserve(callback);
      if slot == -1 {
        return None, -1;
      }
      match KindOf(kind)
      case Some(k) =>
        trampoline := Some(Trampoline(k, slot));
      case None =>
        Cancel(slot);
        trampoline := None;
        assert Contents() == old(Contents());
    }
  }

  /** The values of enum mpif_errhandler_kind. */
  function KindOf(kind: int): Option<Kind> {
    if kind == 0 then Some(Comm) else if kind == 1 then Some(Win)
    else if kind == 2 then Some(File) else if kind == 3 then Some(Session) else None
  }

  /** MPI_Comm_create_errhandler as the creator sees it: it answers what it likes, and keeps the trampoline if it
      answers success. */
  class Mpi {
    var handlers: map<int, Trampoline>

    constructor ()
      ensures handlers == map[]
    {
      handlers := map[];
    }

    method CreateErrhandler(trampoline: Trampoline, answer: int, handle: int)
      modifies this
      ensures handlers == if answer == MPI_SUCCESS then old(handlers)[handle := trampoline] else old(handlers)
    {
      if answer == MPI_SUCCESS {
        handlers := handlers[handle := trampoline];
      }
    }
  }

  class IntRef {
    var value: int

    constructor (value: int)
      ensures this.value == value
    {
      this.value := value;
    }
  }

  /** A creation as the caller and MPI decide it. */
  datatype Creation = Creation(fn: Proc, kind: int, answer: int)

  predicate Succeeds(c: Contents, x: Creation) {
    FirstFreeSlot(c).Some? && KindOf(x.kind) != None && x.answer == MPI_SUCCESS
  }

  function AfterCreation(c: Contents, x: Creation): Contents {
    if Succeeds(c, x) then c[FirstFreeSlot(c).value := Some(x.fn)] else c
  }

  function AfterAll(c: Contents, xs: seq<Creation>): Contents {
    if xs == [] then c else AfterCreation(AfterAll(c, xs[..|xs| - 1]), xs[|xs| - 1])
  }

  /** mpi_errhandler_create_ and, kind apart, every creation over a pool: reserve, create, and cancel if MPI refuses.
      Unless it succeeds, the pool, MPI and the caller's handle are as they were. If it succeeds, one more slot is
      taken, and the trampoline that MPI keeps calls the given procedure. */
  method CreateErrhandler(pool: Pool, mpi: Mpi, function_: Proc, kind: int, answer: int, handle: int, errhandler: IntRef)
    returns (ierror: int)
    requires pool.Valid()
    modifies pool.inUse, pool.fn, mpi, errhandler
    ensures pool.Valid()
    ensures pool.Contents() == AfterCreation(old(pool.Contents()), Creation(function_, kind, answer))
    ensures ierror == MPI_SUCCESS <==> !Full(old(pool.Contents())) && 0 <= kind <= 3 && answer == MPI_SUCCESS
    ensures ierror != MPI_SUCCESS ==>
              && pool.Contents() == old(pool.Contents()) && mpi.handlers == old(mpi.handlers)
              && errhandler.value == old(errhandler.value)
              && ierror == if Full(old(pool.Contents())) || !(0 <= kind <= 3) then MPI_ERR_OTHER else answer
    ensures ierror == MPI_SUCCESS ==>
              && errhandler.value == handle && handle in mpi.handlers
              && var t := mpi.handlers[handle];
                 && mpi.handlers == old(mpi.handlers)[handle := t]
                 && FirstFree(old(pool.Contents()), t.slot) && IsKind(t.kind, kind)
                 && pool.Contents() == old(pool.Contents())[t.slot := Some(function_)]
  {
    var cFunction, slot := pool.ReserveErrhandler(function_, kind);
    if cFunction == None {
      return MPI_ERR_OTHER;
    }
    mpi.CreateErrhandler(cFunction.value, answer, handle);
    ierror := answer;
    if ierror == MPI_SUCCESS {
      errhandler.value := handle;
    } else {
      pool.Cancel(slot);
      assert pool.Contents() == old(pool.Contents());
    }
  }

  lemma {:induction false} SlotsStayTaken(c: Contents, later: seq<Creation>, slot: nat)
    requires slot < |c| && c[slot] != None
    ensures |AfterAll(c, later)| == |c| && AfterAll(c, later)[slot] == c[slot]
  {
    if later != [] {
      SlotsStayTaken(c, later[..|later| - 1], slot);
    }
  }

  /** The trampoline that MPI keeps for a handler is of the slot that its creation took. Whatever handlers are created
      later, with or without success, calling it reaches the procedure that it was created with. */
  lemma {:induction false} HandlerReachesItsProcedure(c: Contents, x: Creation, later: seq<Creation>)
    requires Succeeds(c, x)
    ensures var slot := FirstFreeSlot(c).value;
            && c[slot] == None && |AfterAll(AfterCreation(c, x), later)| == |c|
            && AfterAll(AfterCreation(c, x), later)[slot] == Some(x.fn)
  {
    SlotsStayTaken(AfterCreation(c, x), later, FirstFreeSlot(c).value);
  }

  function Used(c: Contents): nat {
    if c == [] then 0 else Used(c[..|c| - 1]) + if c[|c| - 1] == None then 0 else 1
  }

  lemma {:induction false} UsedUpdate(c: Contents, slot: nat, fn: Proc)
    requires slot < |c| && c[slot] == None
    ensures Used(c[slot := Some(fn)]) == Used(c) + 1
  {
    var last := |c| - 1;
    if slot < last {
      UsedUpdate(c[..last], slot, fn);
      assert c[slot := Some(fn)][..last] == c[..last][slot := Some(fn)];
    } else {
      assert c[slot := Some(fn)][..last] == c[..last];
    }
  }

  function Successes(c: Contents, xs: seq<Creation>): nat {
    if xs == [] then 0
    else
      var init, x := xs[..|xs| - 1], xs[|xs| - 1];
      Successes(c, init) + if Succeeds(AfterAll(c, init), x) then 1 else 0
  }

  /** Every slot in use is accounted for by a creation that succeeded. */
  lemma {:induction false} SlotsAreSuccesses(c: Contents, xs: seq<Creation>)
    ensures Used(AfterAll(c, xs)) == Used(c) + Successes(c, xs)
  {
    if xs != [] {
      var init, x := xs[..|xs| - 1], xs[|xs| - 1];
      SlotsAreSuccesses(c, init);
      var before := AfterAll(c, init);
      if Succeeds(before, x) {
        UsedUpdate(before, FirstFreeSlot(before).value, x.fn);
      }
    }
  }
}
