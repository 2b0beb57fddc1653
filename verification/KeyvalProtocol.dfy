/** The keyval table, with any number of threads registering callbacks and dispatching to them, interleaved one atomic
    step at a time. A slot goes from MPI_KEYVAL_INVALID to KEYVAL_RESERVED to a keyval, which it then keeps. */
module KeyvalProtocol {
  import opened Options
  import opened Procedures
  import opened Callbacks
  import opened MpiConstants

  datatype Entry = Entry(keyval: int, fns: Pair)

  /** Where a thread is: in a registration (the first six), or in a trampoline. `at` is history: the slot that the
      keyval was published in when the trampoline was called. */
  datatype Pc =
    | Idle
    | Finding(keyval: int, role: Role, cb: Proc, i: nat)        // find_attr_entry, about to look at slot i
    | Claiming(keyval: int, role: Role, cb: Proc, i: nat)       // about to try to reserve slot i
    | ClearingCopy(keyval: int, role: Role, cb: Proc, i: nat)   // has reserved slot i
    | ClearingDelete(keyval: int, role: Role, cb: Proc, i: nat)
    | Publishing(keyval: int, role: Role, cb: Proc, i: nat)
    | Storing(keyval: int, role: Role, cb: Proc, i: nat)        // has its entry, about to store the procedure
    | Looking(keyval: int, role: Role, i: nat, at: Option<nat>)
    | Reading(keyval: int, role: Role, i: nat, at: Option<nat>) // has found its entry, about to read the procedure
    | Missed(keyval: int, role: Role, at: Option<nat>)          // has found no entry
    | Calling(keyval: int, role: Role, fn: Option<Proc>)

  /** `registry` is history: what the completed registrations amount to. */
  datatype State = State(entries: seq<Entry>, pcs: seq<Pc>, registry: Registry)

  datatype Event =
    | BeginRegister(keyval: int, role: Role, cb: Proc)
    | BeginDispatch(keyval: int, role: Role)
    | Advance

  datatype Action = Action(t: nat, e: Event)

  const FREE := Entry(MPI_KEYVAL_INVALID, NEITHER)

  function Init(n: nat, threads: nat): State {
    State(seq(n, _ => FREE), seq(threads, _ => Idle), map[])
  }

  predicate Registering(pc: Pc) {
    pc.Finding? || pc.Claiming? || pc.ClearingCopy? || pc.ClearingDelete? || pc.Publishing? || pc.Storing?
  }

  predicate HasReserved(pc: Pc) {
    pc.ClearingCopy? || pc.ClearingDelete? || pc.Publishing?
  }

  /** What MPI guarantees: it hands a keyval to one creating call at a time. */
  predicate MayRegister(s: State, k: int) {
    IsKeyval(k) && forall t :: 0 <= t < |s.pcs| ==> !(Registering(s.pcs[t]) && s.pcs[t].keyval == k)
  }

  ghost predicate Published(entries: seq<Entry>, k: int, i: nat) {
    i < |entries| && entries[i].keyval == k
  }

  /** The slot that a keyval is published in, if any. */
  ghost function Where(entries: seq<Entry>, k: int): (r: Option<nat>)
    ensures r.Some? ==> Published(entries, k, r.value)
    ensures r == None ==> forall i: nat :: !Published(entries, k, i)
  {
    if exists i: nat :: Published(entries, k, i) then
      var i: nat :| Published(entries, k, i);
      Some(i)
    else None
  }

  function Go(s: State, t: nat, pc: Pc): State
    requires t < |s.pcs|
  {
    s.(pcs := s.pcs[t := pc])
  }

  function Write(s: State, t: nat, pc: Pc, i: nat, e: Entry): State
    requires t < |s.pcs| && i < |s.entries|
  {
    s.(pcs := s.pcs[t := pc], entries := s.entries[i := e])
  }

  /** One atomic step of thread t. An event that the thread is not ready for changes nothing. */
  ghost function Step(s: State, a: Action): State {
    if a.t >= |s.pcs| then s else
    match a.e
    case BeginRegister(k, role, cb) =>
      if s.pcs[a.t] == Idle && MayRegister(s, k) then Go(s, a.t, Finding(k, role, cb, 0)) else s
    case BeginDispatch(k, role) =>
      if s.pcs[a.t] == Idle && IsKeyval(k) then Go(s, a.t, Looking(k, role, 0, Where(s.entries, k))) else s
    case Advance => Advance(s, a.t)
  }

  function Advance(s: State, t: nat): State
    requires t < |s.pcs|
  {
    var n := |s.entries|;
    match s.pcs[t]
    case Finding(k, role, cb, i) =>
      if i >= n then Go(s, t, Claiming(k, role, cb, 0))
      else if s.entries[i].keyval == k then Go(s, t, Storing(k, role, cb, i))
      else Go(s, t, Finding(k, role, cb, i + 1))
    case Claiming(k, role, cb, i) =>
      if i >= n then Go(s, t, Idle)  // no room: MPI_ERR_OTHER
      else if s.entries[i].keyval == MPI_KEYVAL_INVALID
        then Write(s, t, ClearingCopy(k, role, cb, i), i, s.entries[i].(keyval := KEYVAL_RESERVED))
      else Go(s, t, Claiming(k, role, cb, i + 1))
    case ClearingCopy(k, role, cb, i) =>
      if i >= n then s
      else Write(s, t, ClearingDelete(k, role, cb, i), i, s.entries[i].(fns := s.entries[i].fns.(copyFn := None)))
    case ClearingDelete(k, role, cb, i) =>
      if i >= n then s
      else Write(s, t, Publishing(k, role, cb, i), i, s.entries[i].(fns := s.entries[i].fns.(deleteFn := None)))
    case Publishing(k, role, cb, i) =>
      if i >= n then s
      else Write(s, t, Storing(k, role, cb, i), i, s.entries[i].(keyval := k))
    case Storing(k, role, cb, i) =>
      if i >= n then s
      else Write(s, t, Idle, i, s.entries[i].(fns := s.entries[i].fns.Set(role, cb)))
             .(registry := Register(s.registry, k, role, cb))
    case Looking(k, role, i, at) =>
      if i >= n then Go(s, t, Missed(k, role, at))
      else if s.entries[i].keyval == k then Go(s, t, Reading(k, role, i, at))
      else Go(s, t, Looking(k, role, i + 1, at))
    case Reading(k, role, i, _) =>
      if i >= n then s else Go(s, t, Calling(k, role, s.entries[i].fns.Get(role)))
    case Missed(k, role, _) => Go(s, t, Calling(k, role, None))
    case Calling(_, _, _) => Go(s, t, Idle)
    case Idle => s
  }

  ghost function Run(s: State, schedule: seq<Action>): State {
    if schedule == [] then s
    else Step(Run(s, schedule[..|schedule| - 1]), schedule[|schedule| - 1])
  }

  // ----- the invariant

  /** Where a registering thread is tells what the table holds of its keyval. */
  ghost predicate RegistrationRight(entries: seq<Entry>, pc: Pc)
    requires Registering(pc)
  {
    && IsKeyval(pc.keyval)
    && (pc.Finding? ==> forall j: nat :: j < pc.i ==> !Published(entries, pc.keyval, j))
    && (pc.Claiming? || HasReserved(pc) ==> forall j: nat :: !Published(entries, pc.keyval, j))
    && (pc.Claiming? ==> forall j :: 0 <= j < pc.i && j < |entries| ==> entries[j].keyval != MPI_KEYVAL_INVALID)
    && (HasReserved(pc) ==> Published(entries, KEYVAL_RESERVED, pc.i))
    && (pc.ClearingDelete? ==> entries[pc.i].fns.copyFn == None)
    && (pc.Publishing? ==> entries[pc.i].fns == NEITHER)
    && (pc.Storing? ==> Published(entries, pc.keyval, pc.i))
  }

  /** A trampoline has not passed the slot that its keyval was published in when it was called. */
  ghost predicate DispatchRight(entries: seq<Entry>, pc: Pc) {
    && (pc.Looking? && pc.at.Some? ==> pc.i <= pc.at.value && Published(entries, pc.keyval, pc.at.value))
    && (pc.Looking? || pc.Reading? ==> IsKeyval(pc.keyval))
    && (pc.Reading? ==> Published(entries, pc.keyval, pc.i))
    && (pc.Missed? ==> pc.at == None)
  }

  ghost predicate ThreadRight(entries: seq<Entry>, pc: Pc) {
    (Registering(pc) ==> RegistrationRight(entries, pc)) && DispatchRight(entries, pc)
  }

  /** Two registrations are of different keyvals and have reserved different slots. */
  ghost predicate Apart(p: Pc, q: Pc) {
    && (Registering(p) && Registering(q) ==> p.keyval != q.keyval)
    && (HasReserved(p) && HasReserved(q) ==> p.i != q.i)
  }

  /** A published entry's procedures are those registered last for its keyval. */
  ghost predicate EntryRight(e: Entry, r: Registry) {
    IsKeyval(e.keyval) ==> e.fns == Lookup(r, e.keyval)
  }

  ghost predicate Inv(s: State) {
    && (forall t :: 0 <= t < |s.pcs| ==> ThreadRight(s.entries, s.pcs[t]))
    && (forall t, u :: 0 <= t < u < |s.pcs| ==> Apart(s.pcs[t], s.pcs[u]))
    && (forall i, j :: 0 <= i < j < |s.entries| && IsKeyval(s.entries[i].keyval) ==> s.entries[i].keyval != s.entries[j].keyval)
    && (forall i :: 0 <= i < |s.entries| ==> EntryRight(s.entries[i], s.registry))
    && (forall k :: k in s.registry ==> IsKeyval(k) && Where(s.entries, k).Some?)
  }

  lemma InitInv(n: nat, threads: nat)
    ensures Inv(Init(n, threads))
  {
  }

  /** How a slot may change: it is reserved, or the thread that reserved it writes it, or the thread that stores a
      procedure for its keyval does. */
  ghost predicate MayWrite(s: State, t: nat, i: nat, e: Entry)
    requires t < |s.pcs| && i < |s.entries|
  {
    var was, pc := s.entries[i], s.pcs[t];
    || (was.keyval == MPI_KEYVAL_INVALID && e == was.(keyval := KEYVAL_RESERVED))
    || (HasReserved(pc) && pc.i == i && was.keyval == KEYVAL_RESERVED && e.keyval in {KEYVAL_RESERVED, pc.keyval})
    || (pc.Storing? && pc.i == i && e.keyval == was.keyval == pc.keyval)
  }

  /** A write by one thread leaves every other thread right. */
  lemma OthersStayRight(s: State, t: nat, i: nat, e: Entry, u: nat)
    requires Inv(s) && t < |s.pcs| && u < |s.pcs| && t != u && i < |s.entries| && MayWrite(s, t, i, e)
    ensures ThreadRight(s.entries[i := e], s.pcs[u])
  {
    var pc, q := s.pcs[t], s.pcs[u];
    assert ThreadRight(s.entries, pc) && ThreadRight(s.entries, q);
    assert Apart(pc, q) by {
      if t < u { assert Apart(s.pcs[t], s.pcs[u]); } else { assert Apart(s.pcs[u], s.pcs[t]); }
    }
    var entries := s.entries[i := e];
    forall j: nat, k: int | IsKeyval(k) && Published(entries, k, j)
      ensures Published(s.entries, k, j) || (Registering(pc) && k == pc.keyval)
    {
    }
    forall j: nat, k: int | IsKeyval(k) && Published(s.entries, k, j)
      ensures Published(entries, k, j)
    {
    }
  }

  lemma ApartFrom(s: State, t: nat, u: nat)
    requires Inv(s) && t < |s.pcs| && u < |s.pcs| && t != u
    ensures Apart(s.pcs[t], s.pcs[u]) && Apart(s.pcs[u], s.pcs[t])
  {
  }

  /** Moving on without writing. */
  lemma GoKeepsInv(s: State, t: nat, pc: Pc)
    requires Inv(s) && t < |s.pcs| && ThreadRight(s.entries, pc)
    requires Registering(pc) ==> Registering(s.pcs[t]) && pc.keyval == s.pcs[t].keyval
    requires !HasReserved(pc)
    ensures Inv(Go(s, t, pc))
  {
  }

  /** Writing a slot and moving on. */
  lemma WriteKeepsInv(s: State, t: nat, pc: Pc, i: nat, e: Entry, r: Registry)
    requires Inv(s) && t < |s.pcs| && i < |s.entries| && MayWrite(s, t, i, e)
    requires ThreadRight(s.entries[i := e], pc)
    requires Registering(pc) ==> Registering(s.pcs[t]) && pc.keyval == s.pcs[t].keyval
    requires HasReserved(pc) ==> pc.i == i && (HasReserved(s.pcs[t]) || s.entries[i].keyval == MPI_KEYVAL_INVALID)
    requires EntryRight(e, r)
    requires forall k :: k != e.keyval ==> Lookup(r, k) == Lookup(s.registry, k)
    requires forall k :: k in r ==> k in s.registry || (k == e.keyval && IsKeyval(k))
    ensures Inv(Write(s, t, pc, i, e).(registry := r))
  {
    var s' := Write(s, t, pc, i, e).(registry := r);
    forall u: nat | u < |s.pcs| && u != t
      ensures ThreadRight(s'.entries, s'.pcs[u]) && Apart(pc, s.pcs[u]) && Apart(s.pcs[u], pc)
    {
      OthersStayRight(s, t, i, e, u);
      ApartFrom(s, t, u);
      assert ThreadRight(s.entries, s.pcs[u]);
    }
    WriteKeepsUnique(s, t, i, e);
    forall j: nat | j < |s.entries| && j != i
      ensures EntryRight(s'.entries[j], r)
    {
      assert EntryRight(s.entries[j], s.registry) && s'.entries[j] == s.entries[j];
      assert IsKeyval(s.entries[j].keyval) ==> s'.entries[j].keyval != s'.entries[i].keyval;
    }
    forall k | k in r
      ensures Where(s'.entries, k).Some?
    {
      if k == e.keyval {
        assert Published(s'.entries, k, i);
      } else {
        var j := Where(s.entries, k).value;
        assert Published(s.entries, k, j);
        assert Published(s'.entries, k, j);
      }
    }
  }

  /** No write publishes a keyval a second time. */
  lemma WriteKeepsUnique(s: State, t: nat, i: nat, e: Entry)
    requires Inv(s) && t < |s.pcs| && i < |s.entries| && MayWrite(s, t, i, e)
    ensures var entries := s.entries[i := e];
            forall j, m :: 0 <= j < m < |entries| && IsKeyval(entries[j].keyval) ==> entries[j].keyval != entries[m].keyval
  {
    var entries := s.entries[i := e];
    assert ThreadRight(s.entries, s.pcs[t]);
    forall j: nat, m: nat | j < m < |entries| && IsKeyval(entries[j].keyval)
      ensures entries[j].keyval != entries[m].keyval
    {
      assert !Published(s.entries, entries[j].keyval, m) || j == i || m == i;
      if e.keyval != s.entries[i].keyval && IsKeyval(e.keyval) {
        assert !Published(s.entries, e.keyval, j) && !Published(s.entries, e.keyval, m);
      }
    }
  }

  /** While a slot is reserved, its keyval is published nowhere. */
  lemma ReservedStaysRight(s: State, t: nat, pc: Pc, i: nat, e: Entry)
    requires t < |s.pcs| && i < |s.entries| && Registering(s.pcs[t]) && RegistrationRight(s.entries, s.pcs[t])
    requires s.pcs[t].Claiming? || HasReserved(s.pcs[t])
    requires HasReserved(pc) && pc.keyval == s.pcs[t].keyval && pc.i == i && e.keyval == KEYVAL_RESERVED
    requires (pc.ClearingDelete? ==> e.fns.copyFn == None) && (pc.Publishing? ==> e.fns == NEITHER)
    ensures ThreadRight(s.entries[i := e], pc)
  {
    var entries := s.entries[i := e];
    assert Published(entries, KEYVAL_RESERVED, i);
    forall j: nat
      ensures !Published(entries, pc.keyval, j)
    {
      assert !Published(s.entries, pc.keyval, j);
    }
  }

  lemma StepKeepsInv(s: State, a: Action)
    requires Inv(s)
    ensures Inv(Step(s, a)) && |Step(s, a).entries| == |s.entries| && |Step(s, a).pcs| == |s.pcs|
  {
    if a.t < |s.pcs| {
      match a.e
      case BeginRegister(k, role, cb) =>
        if s.pcs[a.t] == Idle && MayRegister(s, k) {
          BeginKeepsInv(s, a.t, k, role, cb);
        }
      case BeginDispatch(k, role) =>
        if s.pcs[a.t] == Idle && IsKeyval(k) {
          GoKeepsInv(s, a.t, Looking(k, role, 0, Where(s.entries, k)));
        }
      case Advance =>
        AdvanceKeepsInv(s, a.t);
    }
  }

  lemma BeginKeepsInv(s: State, t: nat, k: int, role: Role, cb: Proc)
    requires Inv(s) && t < |s.pcs| && s.pcs[t] == Idle && MayRegister(s, k)
    ensures Inv(Go(s, t, Finding(k, role, cb, 0)))
  {
  }

  lemma AdvanceKeepsInv(s: State, t: nat)
    requires Inv(s) && t < |s.pcs|
    ensures Inv(Advance(s, t)) && |Advance(s, t).entries| == |s.entries| && |Advance(s, t).pcs| == |s.pcs|
  {
    if HasReserved(s.pcs[t]) || s.pcs[t].Storing? {
      WritersKeepInv(s, t);
    } else {
      ReadersKeepInv(s, t);
    }
  }

  lemma WritersKeepInv(s: State, t: nat)
    requires Inv(s) && t < |s.pcs| && (HasReserved(s.pcs[t]) || s.pcs[t].Storing?)
    ensures Inv(Advance(s, t)) && |Advance(s, t).entries| == |s.entries| && |Advance(s, t).pcs| == |s.pcs|
  {
    assert ThreadRight(s.entries, s.pcs[t]);
    match s.pcs[t]
    case ClearingCopy(k, role, cb, i) =>
      assert Published(s.entries, KEYVAL_RESERVED, i);
      var e, pc' := s.entries[i].(fns := s.entries[i].fns.(copyFn := None)), ClearingDelete(k, role, cb, i);
      ReservedStaysRight(s, t, pc', i, e);
      WriteKeepsInv(s, t, pc', i, e, s.registry);
    case ClearingDelete(k, role, cb, i) =>
      assert Published(s.entries, KEYVAL_RESERVED, i);
      var e, pc' := s.entries[i].(fns := s.entries[i].fns.(deleteFn := None)), Publishing(k, role, cb, i);
      ReservedStaysRight(s, t, pc', i, e);
      WriteKeepsInv(s, t, pc', i, e, s.registry);
    case Publishing(k, role, cb, i) =>
      assert Published(s.entries, KEYVAL_RESERVED, i);
      var e := s.entries[i].(keyval := k);
      assert Published(s.entries[i := e], k, i);
      assert Where(s.entries, k) == None;
      WriteKeepsInv(s, t, Storing(k, role, cb, i), i, e, s.registry);
    case Storing(k, role, cb, i) =>
      assert Published(s.entries, k, i);
      assert EntryRight(s.entries[i], s.registry);
      WriteKeepsInv(s, t, Idle, i, s.entries[i].(fns := s.entries[i].fns.Set(role, cb)), Register(s.registry, k, role, cb));
  }

  lemma FindingKeepsInv(s: State, t: nat)
    requires Inv(s) && t < |s.pcs| && s.pcs[t].Finding?
    ensures Inv(Advance(s, t))
  {
    assert ThreadRight(s.entries, s.pcs[t]);
    var i := s.pcs[t].i;
    if i < |s.entries| && s.entries[i].keyval == s.pcs[t].keyval {
      assert Published(s.entries, s.pcs[t].keyval, i);
    }
    GoKeepsInv(s, t, Advance(s, t).pcs[t]);
  }

  lemma ClaimingKeepsInv(s: State, t: nat)
    requires Inv(s) && t < |s.pcs| && s.pcs[t].Claiming?
    ensures Inv(Advance(s, t))
  {
    assert ThreadRight(s.entries, s.pcs[t]);
    var pc := s.pcs[t];
    if pc.i < |s.entries| && s.entries[pc.i].keyval == MPI_KEYVAL_INVALID {
      var e, pc' := s.entries[pc.i].(keyval := KEYVAL_RESERVED), ClearingCopy(pc.keyval, pc.role, pc.cb, pc.i);
      ReservedStaysRight(s, t, pc', pc.i, e);
      WriteKeepsInv(s, t, pc', pc.i, e, s.registry);
    } else {
      GoKeepsInv(s, t, Advance(s, t).pcs[t]);
    }
  }

  lemma DispatchersKeepInv(s: State, t: nat)
    requires Inv(s) && t < |s.pcs| && (s.pcs[t].Looking? || s.pcs[t].Reading? || s.pcs[t].Missed? || s.pcs[t].Calling?)
    ensures Inv(Advance(s, t))
  {
    assert ThreadRight(s.entries, s.pcs[t]);
    if s.pcs[t].Looking? && s.pcs[t].i < |s.entries| && s.entries[s.pcs[t].i].keyval == s.pcs[t].keyval {
      assert Published(s.entries, s.pcs[t].keyval, s.pcs[t].i);
    }
    GoKeepsInv(s, t, Advance(s, t).pcs[t]);
  }

  lemma ReadersKeepInv(s: State, t: nat)
    requires Inv(s) && t < |s.pcs| && !HasReserved(s.pcs[t]) && !s.pcs[t].Storing?
    ensures Inv(Advance(s, t)) && |Advance(s, t).entries| == |s.entries| && |Advance(s, t).pcs| == |s.pcs|
  {
    match s.pcs[t]
    case Finding(_, _, _, _) => FindingKeepsInv(s, t);
    case Claiming(_, _, _, _) => ClaimingKeepsInv(s, t);
    case Idle =>
    case _ => DispatchersKeepInv(s, t);
  }

  // ----- every run

  lemma {:induction false} RunKeepsInv(s: State, schedule: seq<Action>)
    requires Inv(s)
    ensures Inv(Run(s, schedule))
    ensures |Run(s, schedule).entries| == |s.entries| && |Run(s, schedule).pcs| == |s.pcs|
  {
    if schedule != [] {
      RunKeepsInv(s, schedule[..|schedule| - 1]);
      StepKeepsInv(Run(s, schedule[..|schedule| - 1]), schedule[|schedule| - 1]);
    }
  }

  /** The ways a slot may have changed: it is as it was, or it was free, or it was reserved and now has a keyval. */
  predicate Advanced(from: int, to: int) {
    from == to || (from == MPI_KEYVAL_INVALID && (to == KEYVAL_RESERVED || IsKeyval(to))) ||
    (from == KEYVAL_RESERVED && IsKeyval(to))
  }

  /** One step takes a slot from free to reserved, or from reserved to a keyval, or leaves it. */
  lemma StepAdvancesSlot(s: State, a: Action, i: nat)
    requires Inv(s) && i < |s.entries|
    ensures i < |Step(s, a).entries|
    ensures var from, to := s.entries[i].keyval, Step(s, a).entries[i].keyval;
            from == to || (from == MPI_KEYVAL_INVALID && to == KEYVAL_RESERVED) || (from == KEYVAL_RESERVED && IsKeyval(to))
  {
    if a.t < |s.pcs| {
      assert ThreadRight(s.entries, s.pcs[a.t]);
    }
  }

  /** A slot's life: free, then reserved, then a keyval, for good. */
  lemma {:induction false} SlotAdvances(s: State, schedule: seq<Action>, i: nat)
    requires Inv(s) && i < |s.entries|
    ensures i < |Run(s, schedule).entries|
    ensures Advanced(s.entries[i].keyval, Run(s, schedule).entries[i].keyval)
  {
    if schedule != [] {
      SlotAdvances(s, schedule[..|schedule| - 1], i);
      RunKeepsInv(s, schedule[..|schedule| - 1]);
      StepAdvancesSlot(Run(s, schedule[..|schedule| - 1]), schedule[|schedule| - 1], i);
    }
  }

  /** However registrations and dispatches interleave: no keyval has two slots; each keyval's slot holds what was
      registered last for it; what a lookup has found is its own keyval's slot, never a reserved one, and it has missed
      no keyval that had a slot when it began; and a registration gives up only when no slot is free. */
  lemma TableIsRight(n: nat, threads: nat, schedule: seq<Action>)
    ensures var s := Run(Init(n, threads), schedule);
            && (forall i, j :: 0 <= i < j < |s.entries| && IsKeyval(s.entries[i].keyval) ==>
                  s.entries[i].keyval != s.entries[j].keyval)
            && (forall i :: 0 <= i < |s.entries| && IsKeyval(s.entries[i].keyval) ==>
                  s.entries[i].fns == Lookup(s.registry, s.entries[i].keyval))
            && (forall k :: k in s.registry ==> exists i: nat :: Published(s.entries, k, i))
            && (forall t :: 0 <= t < |s.pcs| && s.pcs[t].Reading? ==>
                  IsKeyval(s.pcs[t].keyval) && Published(s.entries, s.pcs[t].keyval, s.pcs[t].i))
            && (forall t :: 0 <= t < |s.pcs| && s.pcs[t].Missed? ==> s.pcs[t].at == None)
            && (forall t :: 0 <= t < |s.pcs| && s.pcs[t].Claiming? && s.pcs[t].i >= |s.entries| ==>
                  forall i :: 0 <= i < |s.entries| ==> s.entries[i].keyval != MPI_KEYVAL_INVALID)
  {
    InitInv(n, threads);
    RunKeepsInv(Init(n, threads), schedule);
    var s := Run(Init(n, threads), schedule);
    forall i | 0 <= i < |s.entries| && IsKeyval(s.entries[i].keyval)
      ensures s.entries[i].fns == Lookup(s.registry, s.entries[i].keyval)
    {
      assert EntryRight(s.entries[i], s.registry);
    }
    forall k | k in s.registry
      ensures exists i: nat :: Published(s.entries, k, i)
    {
      assert Published(s.entries, k, Where(s.entries, k).value);
    }
    forall t | 0 <= t < |s.pcs|
      ensures ThreadRight(s.entries, s.pcs[t])
    {
    }
  }

  /** Thread t dispatches to keyval k, which nobody is registering, and for which `fns` are registered. */
  ghost predicate Dispatching(s: State, t: nat, k: int, fns: Pair)
    requires t < |s.pcs|
  {
    && Lookup(s.registry, k) == fns && MayRegister(s, k)
    && match s.pcs[t]
       case Looking(k', _, _, at) => k' == k ==> (at == None ==> fns == NEITHER)
       case Reading(_, _, _, _) => true
       case Missed(k', _, _) => k' == k ==> fns == NEITHER
       case Calling(k', role, fn) => k' == k ==> fn == fns.Get(role)
       case _ => true
  }

  lemma StepKeepsDispatching(s: State, a: Action, t: nat, k: int, fns: Pair)
    requires Inv(s) && t < |s.pcs| && Dispatching(s, t, k, fns)
    requires !(a.e.BeginRegister? && a.e.keyval == k)
    ensures t < |Step(s, a).pcs| && Dispatching(Step(s, a), t, k, fns)
  {
    if a.t < |s.pcs| {
      StepKeepsQuiet(s, a, k);
      assert ThreadRight(s.entries, s.pcs[t]);
      if a.t == t && s.pcs[t].Reading? {
        assert EntryRight(s.entries[s.pcs[t].i], s.registry);
      }
      if a.t == t && s.pcs[t] == Idle && k !in s.registry {
        assert fns == NEITHER;
      }
    }
  }

  lemma StepKeepsQuiet(s: State, a: Action, k: int)
    requires Inv(s) && MayRegister(s, k) && !(a.e.BeginRegister? && a.e.keyval == k)
    ensures MayRegister(Step(s, a), k) && Lookup(Step(s, a).registry, k) == Lookup(s.registry, k)
  {
  }

  /** Whatever else thread t does before and after, and whatever other keyvals are registered meanwhile, each call that
      it makes for the keyval is of what is registered for the keyval and the role that it calls in. */
  lemma {:induction false} DispatchesStayRight(s: State, t: nat, k: int, role: Role, schedule: seq<Action>)
    requires Inv(s) && t < |s.pcs| && s.pcs[t] == Idle && MayRegister(s, k)
    requires NoRegistration(schedule, k)
    ensures var s' := Run(s, [Action(t, BeginDispatch(k, role))] + schedule);
            && t < |s'.pcs| && Dispatching(s', t, k, Lookup(s.registry, k))
            && (forall r, fn :: s'.pcs[t] == Calling(k, r, fn) ==> fn == Lookup(s.registry, k).Get(r))
  {
    var whole := [Action(t, BeginDispatch(k, role))] + schedule;
    var init, last := whole[..|whole| - 1], whole[|whole| - 1];
    if schedule == [] {
      assert init == [];
      StepKeepsDispatching(s, last, t, k, Lookup(s.registry, k));
    } else {
      assert init == [Action(t, BeginDispatch(k, role))] + schedule[..|schedule| - 1];
      DispatchesStayRight(s, t, k, role, schedule[..|schedule| - 1]);
      RunKeepsInv(s, init);
      StepKeepsDispatching(Run(s, init), last, t, k, Lookup(s.registry, k));
    }
  }

  ghost predicate NoRegistration(schedule: seq<Action>, k: int) {
    forall j :: 0 <= j < |schedule| ==> !(schedule[j].e.BeginRegister? && schedule[j].e.keyval == k)
  }

  /** Thread t begins nothing. */
  ghost predicate NothingBegun(schedule: seq<Action>, t: nat) {
    forall j :: 0 <= j < |schedule| && schedule[j].t == t ==> schedule[j].e.Advance?
  }

  /** The procedure that a trampoline of the role is to call. */
  function Wanted(fns: Pair, role: Role): Option<Proc> {
    match role
    case Copy => fns.copyFn
    case Delete => fns.deleteFn
  }

  /** Thread t is on its way to the call that it was asked for, or in it; or it is through. */
  ghost predicate OnTheCall(pc: Pc, k: int, role: Role, fns: Pair) {
    match pc
    case Looking(k', r, _, at) => k' == k && r == role && (at == None ==> fns == NEITHER)
    case Reading(k', r, _, _) => k' == k && r == role
    case Missed(k', r, _) => k' == k && r == role && fns == NEITHER
    case Calling(k', r, fn) => k' == k && r == role && fn == Wanted(fns, role)
    case Idle => true
    case _ => false
  }

  lemma StepKeepsOnTheCall(s: State, a: Action, t: nat, k: int, role: Role, fns: Pair)
    requires Inv(s) && t < |s.pcs| && OnTheCall(s.pcs[t], k, role, fns)
    requires Lookup(s.registry, k) == fns && (a.t == t ==> a.e.Advance?)
    ensures t < |Step(s, a).pcs| && OnTheCall(Step(s, a).pcs[t], k, role, fns)
    ensures Step(s, a).pcs[t] == Idle ==> s.pcs[t] == Idle || s.pcs[t] == Calling(k, role, Wanted(fns, role))
  {
    assert ThreadRight(s.entries, s.pcs[t]);
    if a.t == t && s.pcs[t].Reading? {
      assert EntryRight(s.entries[s.pcs[t].i], s.registry);
    }
  }

  /** After the j first steps, thread t is in the call. */
  ghost predicate InCallAfter(s: State, begin: Action, schedule: seq<Action>, j: nat, call: Pc) {
    j <= |schedule| && begin.t < |Run(s, [begin] + schedule[..j]).pcs| && Run(s, [begin] + schedule[..j]).pcs[begin.t] == call
  }

  lemma FirstStep(s: State, a: Action)
    ensures Run(s, [a]) == Step(s, a)
  {
    assert [a][..0] == [];
    assert Run(s, []) == s;
  }

  lemma NextStep(s: State, schedule: seq<Action>, a: Action)
    ensures Run(s, schedule + [a]) == Step(Run(s, schedule), a)
  {
    assert (schedule + [a])[..|schedule|] == schedule;
  }

  lemma {:induction false} RunKeepsQuiet(s: State, schedule: seq<Action>, k: int)
    requires Inv(s) && MayRegister(s, k) && NoRegistration(schedule, k)
    ensures MayRegister(Run(s, schedule), k) && Lookup(Run(s, schedule).registry, k) == Lookup(s.registry, k)
  {
    if schedule != [] {
      var init := schedule[..|schedule| - 1];
      RunKeepsQuiet(s, init, k);
      RunKeepsInv(s, init);
      StepKeepsQuiet(Run(s, init), schedule[|schedule| - 1], k);
    }
  }

  /** What had happened by then has happened by now; and what was so then had. */
  lemma CallHappened(s: State, begin: Action, init: seq<Action>, a: Action, call: Pc)
    ensures forall j :: InCallAfter(s, begin, init, j, call) ==> InCallAfter(s, begin, init + [a], j, call)
    ensures begin.t < |Run(s, [begin] + init).pcs| && Run(s, [begin] + init).pcs[begin.t] == call ==>
              InCallAfter(s, begin, init + [a], |init|, call)
  {
    forall j: nat | InCallAfter(s, begin, init, j, call)
      ensures InCallAfter(s, begin, init + [a], j, call)
    {
      assert (init + [a])[..j] == init[..j];
    }
    assert (init + [a])[..|init|] == init;
  }

  lemma DispatchBegins(s: State, t: nat, k: int, role: Role)
    requires Inv(s) && t < |s.pcs| && s.pcs[t] == Idle && MayRegister(s, k)
    ensures var s' := Step(s, Action(t, BeginDispatch(k, role)));
            t < |s'.pcs| && OnTheCall(s'.pcs[t], k, role, Lookup(s.registry, k)) && s'.pcs[t].Looking?
  {
    if k in s.registry {
      assert Where(s.entries, k).Some?;
    }
  }

  /** Having begun and then run through the schedule, thread t is on the call or has made it. */
  ghost predicate CallsOrCalled(s: State, begin: Action, schedule: seq<Action>, k: int, role: Role, fns: Pair) {
    var s' := Run(s, [begin] + schedule);
    && begin.t < |s'.pcs| && OnTheCall(s'.pcs[begin.t], k, role, fns)
    && (s'.pcs[begin.t] == Idle ==>
          exists j: nat :: InCallAfter(s, begin, schedule, j, Calling(k, role, Wanted(fns, role))))
  }

  lemma CallGoesOn(s: State, begin: Action, init: seq<Action>, a: Action, k: int, role: Role, fns: Pair)
    requires CallsOrCalled(s, begin, init, k, role, fns) && (a.t == begin.t ==> a.e.Advance?)
    requires Inv(Run(s, [begin] + init)) && Lookup(Run(s, [begin] + init).registry, k) == fns
    ensures CallsOrCalled(s, begin, init + [a], k, role, fns)
  {
    assert [begin] + (init + [a]) == ([begin] + init) + [a];
    NextStep(s, [begin] + init, a);
    StepKeepsOnTheCall(Run(s, [begin] + init), a, begin.t, k, role, fns);
    CallHappened(s, begin, init, a, Calling(k, role, Wanted(fns, role)));
  }

  lemma {:induction false} CallsInTheEnd(s: State, t: nat, k: int, role: Role, schedule: seq<Action>)
    requires Inv(s) && t < |s.pcs| && s.pcs[t] == Idle && MayRegister(s, k)
    requires NoRegistration(schedule, k) && NothingBegun(schedule, t)
    ensures CallsOrCalled(s, Action(t, BeginDispatch(k, role)), schedule, k, role, Lookup(s.registry, k))
  {
    var begin := Action(t, BeginDispatch(k, role));
    if schedule == [] {
      DispatchBegins(s, t, k, role);
      FirstStep(s, begin);
      assert [begin] + [] == [begin];
    } else {
      var init, a := schedule[..|schedule| - 1], schedule[|schedule| - 1];
      CallsInTheEnd(s, t, k, role, init);
      RunKeepsInv(s, [begin] + init);
      RunKeepsQuiet(s, [begin] + init, k);
      CallGoesOn(s, begin, init, a, k, role, Lookup(s.registry, k));
      assert init + [a] == schedule;
    }
  }

  /** A trampoline called for a keyval that nobody is registering meanwhile, in a role, calls the procedure registered
      last for that keyval in that role, or answers MPI_ERR_OTHER if there is none, whatever other keyvals are
      registered while it looks; and it does not return without. */
  lemma DispatchCallsRegistered(s: State, t: nat, k: int, role: Role, schedule: seq<Action>)
    requires Inv(s) && t < |s.pcs| && s.pcs[t] == Idle && MayRegister(s, k)
    requires NoRegistration(schedule, k) && NothingBegun(schedule, t)
    ensures var begin, fn := Action(t, BeginDispatch(k, role)), Wanted(Lookup(s.registry, k), role);
            var s' := Run(s, [begin] + schedule);
            && t < |s'.pcs|
            && (forall r, f :: s'.pcs[t] == Calling(k, r, f) ==> r == role && f == fn)
            && (s'.pcs[t] == Idle ==> exists j: nat :: InCallAfter(s, begin, schedule, j, Calling(k, role, fn)))
  {
    CallsInTheEnd(s, t, k, role, schedule);
  }

  // ----- registrations

  /** The procedures of a keyval once one is registered in a role. */
  function With(fns: Pair, role: Role, cb: Proc): Pair {
    match role
    case Copy => Pair(Some(cb), fns.deleteFn)
    case Delete => Pair(fns.copyFn, Some(cb))
  }

  /** No slot is free, and none has the keyval. */
  ghost predicate NoRoomFor(entries: seq<Entry>, k: int) {
    forall i :: 0 <= i < |entries| ==> entries[i].keyval != MPI_KEYVAL_INVALID && entries[i].keyval != k
  }

  /** Thread t is registering what it was asked to; or it is through, and has registered it, or found no room. */
  ghost predicate OnTheRegistration(s: State, t: nat, k: int, role: Role, cb: Proc, fns: Pair)
    requires t < |s.pcs|
  {
    var pc, now := s.pcs[t], Lookup(s.registry, k);
    if Registering(pc) then pc.keyval == k && pc.role == role && pc.cb == cb && now == fns
    else
      && pc == Idle && MayRegister(s, k)
      && ((now == With(fns, role, cb) && Where(s.entries, k).Some?) || (now == fns && NoRoomFor(s.entries, k)))
  }

  lemma OwnStepKeepsRegistration(s: State, t: nat, k: int, role: Role, cb: Proc, fns: Pair)
    requires Inv(s) && t < |s.pcs| && OnTheRegistration(s, t, k, role, cb, fns)
    ensures t < |Advance(s, t).pcs| && OnTheRegistration(Advance(s, t), t, k, role, cb, fns)
  {
    var s' := Advance(s, t);
    assert ThreadRight(s.entries, s.pcs[t]);
    if Registering(s.pcs[t]) {
      forall u: nat | u < |s.pcs| && u != t
        ensures !(Registering(s.pcs[u]) && s.pcs[u].keyval == k)
      {
        ApartFrom(s, t, u);
      }
      if s.pcs[t].Storing? {
        assert Published(s'.entries, k, s.pcs[t].i);
      }
      if s.pcs[t].Claiming? && s.pcs[t].i >= |s.entries| {
        forall i | 0 <= i < |s.entries|
          ensures s.entries[i].keyval != k
        {
          assert !Published(s.entries, k, i);
        }
      }
    }
  }

  lemma OtherKeepsLookup(s: State, a: Action, k: int)
    requires Inv(s) && a.t < |s.pcs| && !(Registering(s.pcs[a.t]) && s.pcs[a.t].keyval == k)
    ensures Lookup(Step(s, a).registry, k) == Lookup(s.registry, k)
    ensures forall u :: 0 <= u < |s.pcs| && u != a.t ==> u < |Step(s, a).pcs| && Step(s, a).pcs[u] == s.pcs[u]
  {
  }

  lemma WhereStays(s: State, a: Action, k: int)
    requires Inv(s) && IsKeyval(k) && Where(s.entries, k).Some?
    ensures Where(Step(s, a).entries, k).Some?
  {
    var i := Where(s.entries, k).value;
    StepAdvancesSlot(s, a, i);
    assert Published(Step(s, a).entries, k, i);
  }

  /** Another thread's step leaves the keyval alone. */
  lemma OtherStepKeepsRegistration(s: State, a: Action, t: nat, k: int, role: Role, cb: Proc, fns: Pair)
    requires Inv(s) && t < |s.pcs| && OnTheRegistration(s, t, k, role, cb, fns) && a.t != t
    requires !(a.e.BeginRegister? && a.e.keyval == k)
    ensures t < |Step(s, a).pcs| && OnTheRegistration(Step(s, a), t, k, role, cb, fns)
  {
    if a.t < |s.pcs| {
      if Registering(s.pcs[t]) {
        ApartFrom(s, t, a.t);
        OtherKeepsLookup(s, a, k);
      } else {
        StepKeepsQuiet(s, a, k);
        OtherKeepsLookup(s, a, k);
        if Where(s.entries, k).Some? {
          WhereStays(s, a, k);
        }
        if NoRoomFor(s.entries, k) {
          NoRoomStays(s, a, k);
        }
      }
    }
  }

  lemma NoRoomStays(s: State, a: Action, k: int)
    requires Inv(s) && NoRoomFor(s.entries, k) && MayRegister(s, k)
    ensures NoRoomFor(Step(s, a).entries, k)
  {
    if a.t < |s.pcs| {
      assert ThreadRight(s.entries, s.pcs[a.t]);
    }
  }

  /** A registration of a keyval by the one thread that registers it records the procedure it was given, in the role it
      was given, and leaves the other role; or it finds no slot free and none with the keyval, and records nothing.
      Nothing else ends it, whatever other keyvals are registered meanwhile. */
  lemma {:induction false} RegistrationRecords(s: State, t: nat, k: int, role: Role, cb: Proc, schedule: seq<Action>)
    requires Inv(s) && t < |s.pcs| && s.pcs[t] == Idle && MayRegister(s, k)
    requires NoRegistration(schedule, k) && NothingBegun(schedule, t)
    ensures var s' := Run(s, [Action(t, BeginRegister(k, role, cb))] + schedule);
            t < |s'.pcs| && OnTheRegistration(s', t, k, role, cb, Lookup(s.registry, k))
  {
    var begin, fns := Action(t, BeginRegister(k, role, cb)), Lookup(s.registry, k);
    FirstStep(s, begin);
    if schedule == [] {
      assert [begin] + [] == [begin];
    } else {
      var init, a := schedule[..|schedule| - 1], schedule[|schedule| - 1];
      assert [begin] + schedule == ([begin] + init) + [a];
      NextStep(s, [begin] + init, a);
      RegistrationRecords(s, t, k, role, cb, init);
      RunKeepsInv(s, [begin] + init);
      if a.t == t {
        OwnStepKeepsRegistration(Run(s, [begin] + init), t, k, role, cb, fns);
      } else {
        OtherStepKeepsRegistration(Run(s, [begin] + init), a, t, k, role, cb, fns);
      }
    }
  }

  // ----- both come to their end

  /** How many steps a thread has before it at most. */
  function StepsLeft(n: nat, pc: Pc): nat {
    match pc
    case Finding(_, _, _, i) => 6 + n + if i < n then n - i else 0
    case Claiming(_, _, _, i) => 5 + if i < n then n - i else 0
    case ClearingCopy(_, _, _, _) => 4
    case ClearingDelete(_, _, _, _) => 3
    case Publishing(_, _, _, _) => 2
    case Storing(_, _, _, _) => 1
    case Looking(_, _, i, _) => 3 + if i < n then n - i else 0
    case Reading(_, _, _, _) => 2
    case Missed(_, _, _) => 2
    case Calling(_, _, _) => 1
    case Idle => 0
  }

  lemma AdvanceNearsEnd(s: State, t: nat)
    requires Inv(s) && t < |s.pcs| && s.pcs[t] != Idle
    ensures t < |Advance(s, t).pcs|
    ensures StepsLeft(|s.entries|, Advance(s, t).pcs[t]) < StepsLeft(|s.entries|, s.pcs[t])
  {
    assert ThreadRight(s.entries, s.pcs[t]);
  }

  /** From every reachable state, a thread by itself gets to the end of what it is doing, within twice as many steps as
      there are slots and a few. */
  lemma {:induction false} ComesToItsEnd(s: State, t: nat) returns (schedule: seq<Action>)
    requires Inv(s) && t < |s.pcs|
    ensures |schedule| <= StepsLeft(|s.entries|, s.pcs[t])
    ensures forall j :: 0 <= j < |schedule| ==> schedule[j] == Action(t, Event.Advance)
    ensures var s' := Run(s, schedule);
            t < |s'.pcs| && s'.pcs[t] == Idle
    decreases StepsLeft(|s.entries|, s.pcs[t])
  {
    if s.pcs[t] == Idle {
      schedule := [];
    } else {
      var a := Action(t, Event.Advance);
      AdvanceNearsEnd(s, t);
      StepKeepsInv(s, a);
      var rest := ComesToItsEnd(Step(s, a), t);
      schedule := [a] + rest;
      RunFirst(s, a, rest);
    }
  }

  lemma {:induction false} RunFirst(s: State, a: Action, rest: seq<Action>)
    ensures Run(s, [a] + rest) == Run(Step(s, a), rest)
  {
    if rest == [] {
      FirstStep(s, a);
      assert [a] + rest == [a];
    } else {
      var init, last := rest[..|rest| - 1], rest[|rest| - 1];
      RunFirst(s, a, init);
      assert [a] + rest == ([a] + init) + [last];
      NextStep(s, [a] + init, last);
    }
  }
}
