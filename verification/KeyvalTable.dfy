/** The keyval table as the source's functions change it, called one at a time, and what it answers after any history of
    registrations. */
module KeyvalTable {
  import opened Options
  import opened Procedures
  import opened Callbacks
  import opened MpiConstants

  /** enum mpif_attr_callback_kind */
  datatype Kind = CommCopy | CommDelete | TypeCopy | TypeDelete | WinCopy | WinDelete | CommCopy10 | CommDelete10

  /** The copy callbacks, of which there are four; the others are delete callbacks. */
  predicate ForCopying(kind: Kind) {
    kind in {CommCopy, TypeCopy, WinCopy, CommCopy10}
  }

  function RoleOf(kind: Kind): (role: Role)
    ensures role == Copy <==> ForCopying(kind)
  {
    match kind
    case CommCopy | TypeCopy | WinCopy | CommCopy10 => Copy
    case _ => Delete
  }

  /** One of Fortran's own callbacks, and the sentinel that MPI knows it by. */
  datatype Predefined = Predefined(fortran: Proc, abi: nat)

  ghost predicate IsPredefined(table: seq<Predefined>, cb: Proc) {
    exists i :: 0 <= i < |table| && table[i].fortran == cb
  }

  /** mpif_predefined_callback: the first entry with the address, if any. */
  method PredefinedCallback(table: seq<Predefined>, cb: Proc) returns (result: Option<nat>)
    ensures result.Some? <==> IsPredefined(table, cb)
    ensures result.Some? ==> Predefined(cb, result.value) in table
    ensures result.Some? ==> exists i :: 0 <= i < |table| && table[i] == Predefined(cb, result.value)
                                         && forall j :: 0 <= j < i ==> table[j].fortran != cb
  {
    for i := 0 to |table|
      invariant forall j :: 0 <= j < i ==> table[j].fortran != cb
    {
      if table[i].fortran == cb {
        return Some(table[i].abi);
      }
    }
    return None;
  }

  // ----- histories

  /** A registration: of a user's procedure, or of one of Fortran's own. */
  datatype Registration = Registration(keyval: int, role: Role, cb: Proc, user: bool)

  /** A table of n slots has no room for it. */
  predicate Refused(n: nat, r: Registry, c: Registration) {
    c.user && c.keyval !in r && |r| == n
  }

  function After(n: nat, r: Registry, c: Registration): Registry {
    if !c.user || Refused(n, r, c) then r else Register(r, c.keyval, c.role, c.cb)
  }

  function Replay(n: nat, history: seq<Registration>): Registry {
    if history == [] then map[] else After(n, Replay(n, history[..|history| - 1]), history[|history| - 1])
  }

  /** The user's procedure registered last for a keyval and role. */
  function LastUser(history: seq<Registration>, k: int, role: Role): Option<Proc> {
    if history == [] then None
    else
      var c := history[|history| - 1];
      if c.user && c.keyval == k && c.role == role then Some(c.cb) else LastUser(history[..|history| - 1], k, role)
  }

  /** The keyvals that a user's procedure was registered for, or tried to be. */
  function UserKeyvals(history: seq<Registration>): set<int> {
    set c | c in history && c.user :: c.keyval
  }

  lemma UserKeyvalsLast(history: seq<Registration>, c: Registration)
    ensures UserKeyvals(history + [c]) == UserKeyvals(history) + if c.user then {c.keyval} else {}
  {
  }

  lemma AfterKeys(n: nat, r: Registry, c: Registration)
    requires |r| <= n
    ensures var r' := After(n, r, c);
            && r'.Keys == r.Keys + (if c.user && !Refused(n, r, c) then {c.keyval} else {})
            && |r| <= |r'| <= n
  {
  }

  /** Only keyvals tried have a slot; all of them have, unless all n slots are taken. */
  lemma {:induction false} ReplayKeys(n: nat, history: seq<Registration>)
    ensures Replay(n, history).Keys <= UserKeyvals(history) && |Replay(n, history)| <= n
    ensures |Replay(n, history)| < n ==> Replay(n, history).Keys == UserKeyvals(history)
  {
    if history != [] {
      var init, c := history[..|history| - 1], history[|history| - 1];
      ReplayKeys(n, init);
      assert init + [c] == history;
      UserKeyvalsLast(init, c);
      AfterKeys(n, Replay(n, init), c);
    }
  }

  lemma {:induction false} LastUserIsUser(history: seq<Registration>, k: int, role: Role)
    ensures k !in UserKeyvals(history) ==> LastUser(history, k, role) == None
  {
    if history != [] {
      var init, c := history[..|history| - 1], history[|history| - 1];
      assert init + [c] == history;
      UserKeyvalsLast(init, c);
      LastUserIsUser(init, k, role);
    }
  }

  /** After any history, what is recorded for a keyval that has a slot is the procedure registered last, per role; a
      keyval without a slot has nothing recorded. */
  lemma {:induction false} ReplayRecordsLast(n: nat, history: seq<Registration>, k: int, role: Role)
    ensures Lookup(Replay(n, history), k).Get(role) == if k in Replay(n, history) then LastUser(history, k, role) else None
  {
    if history != [] {
      var init, c := history[..|history| - 1], history[|history| - 1];
      var r := Replay(n, init);
      ReplayRecordsLast(n, init, k, role);
      ReplayKeys(n, init);
      if c.user && c.keyval == k && !Refused(n, r, c) && k !in r {
        // A keyval that gets its slot only now was never tried before: there was room.
        LastUserIsUser(init, k, role);
      }
    }
  }

  // ----- the table

  /** How many slots are taken. */
  function Taken(keyvals: seq<int>): nat {
    if keyvals == [] then 0
    else Taken(keyvals[..|keyvals| - 1]) + if keyvals[|keyvals| - 1] == MPI_KEYVAL_INVALID then 0 else 1
  }

  ghost predicate Distinct(keyvals: seq<int>) {
    forall i, j :: 0 <= i < j < |keyvals| && keyvals[i] != MPI_KEYVAL_INVALID ==> keyvals[i] != keyvals[j]
  }

  /** As many slots are taken as there are keyvals in them; all are taken when there are as many keyvals as slots. */
  lemma {:induction false} TakenIsKeyvals(keyvals: seq<int>, ks: set<int>)
    requires Distinct(keyvals) && forall k :: k in ks <==> k in keyvals && k != MPI_KEYVAL_INVALID
    ensures |ks| == Taken(keyvals) <= |keyvals|
    ensures Taken(keyvals) == |keyvals| <==> MPI_KEYVAL_INVALID !in keyvals
  {
    if keyvals == [] {
      assert forall k :: k !in ks;
      assert ks == {};
    } else {
      var init, last := keyvals[..|keyvals| - 1], keyvals[|keyvals| - 1];
      assert keyvals == init + [last];
      if last == MPI_KEYVAL_INVALID {
        TakenIsKeyvals(init, ks);
      } else {
        assert last !in init;
        TakenIsKeyvals(init, ks - {last});
      }
    }
  }

  /** Putting a new keyval in a free slot, or leaving an old one, keeps the others listed and all distinct. */
  lemma StillListed(before: seq<int>, after: seq<int>, slot: nat, keyval: int, ks: set<int>)
    requires slot < |before| && after == before[slot := keyval] && Distinct(before)
    requires before[slot] == keyval || (before[slot] == MPI_KEYVAL_INVALID && keyval !in before)
    requires forall k :: k in ks ==> k in before && k != MPI_KEYVAL_INVALID
    ensures Distinct(after) && forall k :: k in ks || k == keyval ==> k in after
  {
    forall k | k in ks || k == keyval
      ensures k in after
    {
      if k == keyval {
        assert after[slot] == k;
      } else {
        var i :| 0 <= i < |before| && before[i] == k;
        assert after[i] == k;
      }
    }
  }

  class Table {
    const predefined: seq<Predefined>
    const keyvals: array<int>
    const fns: array<Pair>
    ghost var registry: Registry

    ghost predicate Valid()
      reads this, keyvals, fns
    {
      && keyvals.Length == fns.Length
      && (forall i :: 0 <= i < keyvals.Length ==> Holds(i))
      && Distinct(keyvals[..])
      && (forall k :: k in registry ==> IsKeyval(k) && k in keyvals[..])
    }

    /** Slot i is free, or has a registered keyval and its procedures. */
    ghost predicate Holds(i: nat)
      requires i < keyvals.Length == fns.Length
      reads this, keyvals, fns
    {
      keyvals[i] != MPI_KEYVAL_INVALID ==>
        IsKeyval(keyvals[i]) && keyvals[i] in registry && fns[i] == registry[keyvals[i]]
    }

    /** Occupied slots are the registered keyvals, counted. */
    lemma TakenIsRegistered()
      requires Valid()
      ensures Taken(keyvals[..]) == |registry|
      ensures |registry| == keyvals.Length <==> MPI_KEYVAL_INVALID !in keyvals[..]
    {
      forall k | k in keyvals[..] && k != MPI_KEYVAL_INVALID
        ensures k in registry
      {
        var i :| 0 <= i < keyvals.Length && keyvals[..][i] == k;
        assert Holds(i);
      }
      TakenIsKeyvals(keyvals[..], registry.Keys);
    }

    constructor (n: nat, predefined: seq<Predefined>)
      ensures Valid() && fresh(keyvals) && fresh(fns) && keyvals.Length == n
      ensures registry == map[] && this.predefined == predefined
    {
      this.predefined := predefined;
      keyvals := new int[n](_ => MPI_KEYVAL_INVALID);
      fns := new Pair[n](_ => NEITHER);
      registry := map[];
    }

    /** find_attr_entry: the first slot with the keyval, or -1. */
    method Find(keyval: int) returns (slot: int)
      ensures slot == -1 ==> keyval !in keyvals[..]
      ensures slot != -1 ==> 0 <= slot < keyvals.Length && keyvals[slot] == keyval && keyval !in keyvals[..slot]
    {
      for i := 0 to keyvals.Length
        invariant keyval !in keyvals[..i]
      {
        if keyvals[i] == keyval {
          return i;
        }
      }
      return -1;
    }

    /** The second half of a registration's search: reserve the first free slot for a new keyval and publish it there
        with no procedures yet. Answers -1 if no slot is free. */
    method Claim(keyval: int) returns (slot: int)
      requires Valid() && IsKeyval(keyval) && keyval !in keyvals[..]
      modifies this`registry, keyvals, fns
      ensures Valid()
      ensures slot == -1 ==> |registry| == keyvals.Length && registry == old(registry)
                             && keyvals[..] == old(keyvals[..]) && fns[..] == old(fns[..])
      ensures slot != -1 ==> 0 <= slot < keyvals.Length && keyvals[slot] == keyval
                             && |old(registry)| != keyvals.Length && registry == old(registry)[keyval := NEITHER]
    {
      TakenIsRegistered();
      slot := Find(MPI_KEYVAL_INVALID);
      if slot == -1 {
        return;
      }
      keyvals[slot] := KEYVAL_RESERVED;
      fns[slot] := NEITHER;
      keyvals[slot] := keyval;
      registry := registry[keyval := NEITHER];
      StillListed(old(keyvals[..]), keyvals[..], slot, keyval, old(registry).Keys);
      forall i | 0 <= i < keyvals.Length
        ensures Holds(i)
      {
        assert old(Holds(i));
      }
    }

    /** mpif_register_attr_callback. A predefined callback changes nothing; another one is recorded, unless its keyval
        is new and every slot is taken, and then nothing changes either. */
    method RegisterCallback(keyval: int, kind: Kind, callback: Proc) returns (err: int)
      requires Valid() && IsKeyval(keyval)
      modifies this`registry, keyvals, fns
      ensures Valid()
      ensures var c := Registration(keyval, RoleOf(kind), callback, !IsPredefined(predefined, callback));
              && registry == After(keyvals.Length, old(registry), c)
              && err == if Refused(keyvals.Length, old(registry), c) then MPI_ERR_OTHER else MPI_SUCCESS
      ensures err != MPI_SUCCESS ==> keyvals[..] == old(keyvals[..]) && fns[..] == old(fns[..])
      ensures err == MPI_SUCCESS || err == MPI_ERR_OTHER
      ensures err == MPI_ERR_OTHER <==> !IsPredefined(predefined, callback) && keyval !in old(registry)
                                        && |old(registry)| == keyvals.Length
      ensures IsPredefined(predefined, callback) || err != MPI_SUCCESS ==> registry == old(registry)
      ensures !IsPredefined(predefined, callback) && err == MPI_SUCCESS ==>
                && registry.Keys == old(registry).Keys + {keyval}
                && (forall k :: k in old(registry) && k != keyval ==> registry[k] == old(registry)[k])
                && var fns := if keyval in old(registry) then old(registry)[keyval] else Pair(None, None);
                   registry[keyval] == if ForCopying(kind) then Pair(Some(callback), fns.deleteFn)
                                       else Pair(fns.copyFn, Some(callback))
    {
      var sentinel := PredefinedCallback(predefined, callback);
      if sentinel.Some? {
        return MPI_SUCCESS;
      }
      var slot := Find(keyval);
      if slot == -1 {
        slot := Claim(keyval);
        if slot == -1 {
          return MPI_ERR_OTHER;
        }
      }
      Store(slot, RoleOf(kind), callback);
      err := MPI_SUCCESS;
    }

    /** The store that ends a registration. */
    method Store(slot: nat, role: Role, callback: Proc)
      requires Valid() && slot < keyvals.Length && IsKeyval(keyvals[slot])
      modifies this`registry, fns
      ensures Valid() && keyvals[slot] in old(registry)
      ensures registry == Register(old(registry), keyvals[slot], role, callback)
    {
      assert Holds(slot);
      fns[slot] := fns[slot].Set(role, callback);
      registry := Register(registry, keyvals[slot], role, callback);
      forall i | 0 <= i < keyvals.Length
        ensures Holds(i)
      {
        assert old(Holds(i));
        assert i != slot && keyvals[i] != MPI_KEYVAL_INVALID ==> keyvals[..][i] != keyvals[..][slot];
      }
    }

    /** What a trampoline of the given kind calls for a keyval; None is the answer MPI_ERR_OTHER. */
    method Dispatch(kind: Kind, keyval: int) returns (callee: Option<Proc>)
      requires Valid() && IsKeyval(keyval)
      ensures callee == Lookup(registry, keyval).Get(RoleOf(kind))
      ensures callee == if keyval !in registry then None
                        else if ForCopying(kind) then registry[keyval].copyFn else registry[keyval].deleteFn
    {
      var slot := Find(keyval);
      if slot == -1 {
        assert keyval !in registry;
        return None;
      }
      assert Holds(slot);
      return fns[slot].Get(RoleOf(kind));
    }
  }
}
