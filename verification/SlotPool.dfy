/** The pools of callback slots behind reduction operators and error handlers, with any number of threads interleaved
    one atomic step at a time. A thread that creates an operator reserves a slot, hands its trampoline to MPI, and then
    either retires the slot for good or, MPI having refused, cancels it. */
module SlotPool {
  import opened Options
  import opened Procedures

  /** Where a thread is. */
  datatype Pc =
    | Idle
    | Scanning(cb: Proc, i: nat)  // about to try slot i, or, past the last one, to give up
    | Claimed(cb: Proc, i: nat)   // has won slot i, has not stored its procedure yet
    | Holding(cb: Proc, i: nat)   // reserve has returned; MPI is creating the object
    | Clearing(i: nat)            // in cancel, about to clear the procedure
    | Releasing(i: nat)           // in cancel, about to clear in_use

  /** Who has a slot: the thread that is reserving, holding or cancelling it, or the object that MPI made, which keeps
      the procedure that it was made with. */
  datatype Owner = Nobody | Thread(t: nat) | Object(cb: Proc)

  /** in_use and fn are the source's fields; `owner` is history, which no step looks at. */
  datatype Slot = Slot(inUse: bool, fn: Option<Proc>, owner: Owner)

  datatype State = State(slots: seq<Slot>, pcs: seq<Pc>)

  datatype Event = Reserve(cb: Proc) | TrySlot | StoreFn | GiveUp | Created | Refused | ClearFn | Release

  datatype Action = Action(t: nat, e: Event)

  /** What cancel does first. The source clears the procedure first; the other order is here for comparison. */
  datatype CancelOrder = ClearFirst | ReleaseFirst

  const FREE := Slot(false, None, Nobody)

  function Init(n: nat, threads: nat): State {
    State(seq(n, _ => FREE), seq(threads, _ => Idle))
  }

  function Go(s: State, t: nat, pc: Pc): State
    requires t < |s.pcs|
  {
    s.(pcs := s.pcs[t := pc])
  }

  function Write(s: State, t: nat, pc: Pc, i: nat, slot: Slot): State
    requires t < |s.pcs| && i < |s.slots|
  {
    State(s.slots[i := slot], s.pcs[t := pc])
  }

  /** One atomic step of thread t. An event that the thread is not ready for changes nothing. */
  function Step(order: CancelOrder, s: State, a: Action): State {
    if a.t >= |s.pcs| then s else
    var t, pc := a.t, s.pcs[a.t];
    match (pc, a.e)
    case (Idle, Reserve(cb)) => Go(s, t, Scanning(cb, 0))
    case (Scanning(_, _), TrySlot) => if pc.i < |s.slots| then TryStep(s, t) else s
    case (Scanning(_, i), GiveUp) => if i < |s.slots| then s else Go(s, t, Idle)
    case (Holding(_, i), Refused) => Go(s, t, if order == ClearFirst then Clearing(i) else Releasing(i))
    case (Claimed(_, _), StoreFn) => if pc.i < |s.slots| then StoreStep(s, t) else s
    case (Holding(_, _), Created) => if pc.i < |s.slots| then CreatedStep(s, t) else s
    case (Clearing(_), ClearFn) => if pc.i < |s.slots| then ClearStep(order, s, t) else s
    case (Releasing(_), Release) => if pc.i < |s.slots| then ReleaseStep(order, s, t) else s
    case _ => s
  }

  /** The compare-and-swap on in_use. */
  function TryStep(s: State, t: nat): State
    requires t < |s.pcs| && s.pcs[t].Scanning? && s.pcs[t].i < |s.slots|
  {
    var cb, i := s.pcs[t].cb, s.pcs[t].i;
    if s.slots[i].inUse then Go(s, t, Scanning(cb, i + 1))
    else Write(s, t, Claimed(cb, i), i, s.slots[i].(inUse := true, owner := Thread(t)))
  }

  function StoreStep(s: State, t: nat): State
    requires t < |s.pcs| && s.pcs[t].Claimed? && s.pcs[t].i < |s.slots|
  {
    var cb, i := s.pcs[t].cb, s.pcs[t].i;
    Write(s, t, Holding(cb, i), i, s.slots[i].(fn := Some(cb)))
  }

  function CreatedStep(s: State, t: nat): State
    requires t < |s.pcs| && s.pcs[t].Holding? && s.pcs[t].i < |s.slots|
  {
    Write(s, t, Idle, s.pcs[t].i, s.slots[s.pcs[t].i].(owner := Object(s.pcs[t].cb)))
  }

  function ClearStep(order: CancelOrder, s: State, t: nat): State
    requires t < |s.pcs| && s.pcs[t].Clearing? && s.pcs[t].i < |s.slots|
  {
    var i := s.pcs[t].i;
    Write(s, t, if order == ClearFirst then Releasing(i) else Idle, i, s.slots[i].(fn := None))
  }

  function ReleaseStep(order: CancelOrder, s: State, t: nat): State
    requires t < |s.pcs| && s.pcs[t].Releasing? && s.pcs[t].i < |s.slots|
  {
    var i := s.pcs[t].i;
    Write(s, t, if order == ClearFirst then Idle else Clearing(i), i, s.slots[i].(inUse := false, owner := Nobody))
  }

  function Run(order: CancelOrder, s: State, schedule: seq<Action>): State {
    if schedule == [] then s
    else Step(order, Run(order, s, schedule[..|schedule| - 1]), schedule[|schedule| - 1])
  }

  // ----- who owns a slot

  /** The thread has won slot i and not given it up. */
  predicate Has(pc: Pc, i: nat) {
    (pc.Claimed? || pc.Holding? || pc.Clearing? || pc.Releasing?) && pc.i == i
  }

  predicate WithinPool(pc: Pc, n: nat) {
    pc.Claimed? || pc.Holding? || pc.Clearing? || pc.Releasing? ==> pc.i < n
  }

  /** In use means owned; a free slot has no procedure; an object's slot has the object's procedure. */
  ghost predicate SlotRight(slot: Slot) {
    && (slot.inUse <==> slot.owner != Nobody)
    && (slot.owner == Nobody ==> slot.fn == None)
    && (slot.owner.Object? ==> slot.fn == Some(slot.owner.cb))
  }

  /** A thread has slot i exactly if it is the recorded owner; a holder's slot has the holder's procedure, and a slot
      about to be released has none. */
  ghost predicate ThreadRight(t: nat, pc: Pc, i: nat, slot: Slot) {
    && (Has(pc, i) <==> slot.owner == Thread(t))
    && (Has(pc, i) && pc.Holding? ==> slot.fn == Some(pc.cb))
    && (Has(pc, i) && pc.Releasing? ==> slot.fn == None)
  }

  ghost predicate Inv(s: State) {
    && (forall i :: 0 <= i < |s.slots| ==> SlotRight(s.slots[i]))
    && (forall t, i :: 0 <= t < |s.pcs| && 0 <= i < |s.slots| ==> ThreadRight(t, s.pcs[t], i, s.slots[i]))
    && (forall i :: 0 <= i < |s.slots| && s.slots[i].owner.Thread? ==> s.slots[i].owner.t < |s.pcs|)
    && (forall t :: 0 <= t < |s.pcs| ==> WithinPool(s.pcs[t], |s.slots|))
  }

  lemma InitInv(n: nat, threads: nat)
    ensures Inv(Init(n, threads))
  {
  }

  /** What makes a write right: it is to a slot that is the thread's own, or free, and it leaves slot and thread right. */
  lemma WriteKeepsInv(s: State, t: nat, pc: Pc, i: nat, slot: Slot)
    requires Inv(s) && t < |s.pcs| && i < |s.slots|
    requires s.slots[i].owner in {Nobody, Thread(t)} && forall j: nat :: j != i ==> !Has(s.pcs[t], j)
    requires SlotRight(slot) && ThreadRight(t, pc, i, slot) && (slot.owner.Thread? ==> slot.owner.t == t)
    requires forall j: nat :: j != i ==> !Has(pc, j)
    requires WithinPool(pc, |s.slots|)
    ensures Inv(Write(s, t, pc, i, slot))
  {
    var s' := Write(s, t, pc, i, slot);
    forall u, j | 0 <= u < |s.pcs| && 0 <= j < |s.slots|
      ensures ThreadRight(u, s'.pcs[u], j, s'.slots[j])
    {
      assert ThreadRight(u, s.pcs[u], j, s.slots[j]);
      assert u == t && j != i ==> !Has(s.pcs[t], j) && !Has(pc, j);
    }
    assert forall j :: 0 <= j < |s.slots| && j != i ==> s'.slots[j] == s.slots[j];
  }

  lemma ReserveStepKeepsInv(s: State, t: nat)
    requires Inv(s) && t < |s.pcs| && s.pcs[t].Scanning? && s.pcs[t].i < |s.slots|
    ensures Inv(TryStep(s, t))
  {
    var cb, i := s.pcs[t].cb, s.pcs[t].i;
    if !s.slots[i].inUse {
      WriteKeepsInv(s, t, Claimed(cb, i), i, s.slots[i].(inUse := true, owner := Thread(t)));
    }
  }

  lemma CreateStepsKeepInv(s: State, t: nat)
    requires Inv(s) && t < |s.pcs| && (s.pcs[t].Claimed? || s.pcs[t].Holding?) && s.pcs[t].i < |s.slots|
    ensures s.pcs[t].Claimed? ==> Inv(StoreStep(s, t))
    ensures s.pcs[t].Holding? ==> Inv(CreatedStep(s, t)) && Inv(Go(s, t, Clearing(s.pcs[t].i)))
  {
    var cb, i := s.pcs[t].cb, s.pcs[t].i;
    assert Has(s.pcs[t], i);
    if s.pcs[t].Claimed? {
      WriteKeepsInv(s, t, Holding(cb, i), i, s.slots[i].(fn := Some(cb)));
    } else {
      WriteKeepsInv(s, t, Idle, i, s.slots[i].(owner := Object(cb)));
      WriteKeepsInv(s, t, Clearing(i), i, s.slots[i]);
      assert Write(s, t, Clearing(i), i, s.slots[i]) == Go(s, t, Clearing(i));
    }
  }

  lemma CancelStepsKeepInv(s: State, t: nat)
    requires Inv(s) && t < |s.pcs| && (s.pcs[t].Clearing? || s.pcs[t].Releasing?) && s.pcs[t].i < |s.slots|
    ensures s.pcs[t].Clearing? ==> Inv(ClearStep(ClearFirst, s, t))
    ensures s.pcs[t].Releasing? ==> Inv(ReleaseStep(ClearFirst, s, t))
  {
    var i := s.pcs[t].i;
    assert Has(s.pcs[t], i);
    if s.pcs[t].Clearing? {
      WriteKeepsInv(s, t, Releasing(i), i, s.slots[i].(fn := None));
    } else {
      WriteKeepsInv(s, t, Idle, i, s.slots[i].(inUse := false, owner := Nobody));
    }
  }

  /** Going where nobody has a slot writes nothing. */
  lemma GoKeepsInv(s: State, t: nat, pc: Pc)
    requires Inv(s) && t < |s.pcs| && (s.pcs[t].Idle? || s.pcs[t].Scanning?) && (pc.Idle? || pc.Scanning?)
    ensures Inv(Go(s, t, pc))
  {
  }

  lemma StepKeepsInv(s: State, a: Action)
    requires Inv(s)
    ensures Inv(Step(ClearFirst, s, a)) && |Step(ClearFirst, s, a).slots| == |s.slots|
  {
    if a.t < |s.pcs| {
      var t, pc := a.t, s.pcs[a.t];
      match (pc, a.e)
      case (Idle, Reserve(cb)) => GoKeepsInv(s, t, Scanning(cb, 0));
      case (Scanning(_, i), GiveUp) => GoKeepsInv(s, t, Idle);
      case (Scanning(_, i), TrySlot) => if i < |s.slots| { ReserveStepKeepsInv(s, t); }
      case (Claimed(_, _), StoreFn) => CreateStepsKeepInv(s, t);
      case (Holding(_, _), Created) => CreateStepsKeepInv(s, t);
      case (Holding(_, _), Refused) => CreateStepsKeepInv(s, t);
      case (Clearing(_), ClearFn) => CancelStepsKeepInv(s, t);
      case (Releasing(_), Release) => CancelStepsKeepInv(s, t);
      case _ =>
    }
  }

  // ----- every run

  lemma {:induction false} RunKeepsInv(s: State, schedule: seq<Action>)
    requires Inv(s)
    ensures Inv(Run(ClearFirst, s, schedule)) && |Run(ClearFirst, s, schedule).slots| == |s.slots|
  {
    if schedule != [] {
      RunKeepsInv(s, schedule[..|schedule| - 1]);
      StepKeepsInv(Run(ClearFirst, s, schedule[..|schedule| - 1]), schedule[|schedule| - 1]);
    }
  }

  lemma {:induction false} RunConcat(order: CancelOrder, s: State, a: seq<Action>, b: seq<Action>)
    ensures Run(order, s, a + b) == Run(order, Run(order, s, a), b)
  {
    if b == [] {
      assert a + b == a;
    } else {
      assert (a + b)[..|a + b| - 1] == a + b[..|b| - 1];
      RunConcat(order, s, a, b[..|b| - 1]);
    }
  }

  ghost predicate OwnedBy(s: State, o: Owner, i: nat)
    requires i < |s.slots|
  {
    match o
    case Nobody => false
    case Thread(t) => t < |s.pcs| && Has(s.pcs[t], i)
    case Object(_) => s.slots[i].owner == o
  }

  /** However the threads interleave, a slot is in use exactly while it has an owner, it never has two, and whoever is
      creating an object with it finds there the procedure that the slot was reserved for. */
  lemma ExactlyOneOwner(n: nat, threads: nat, schedule: seq<Action>, i: nat)
    requires i < n
    ensures var s := Run(ClearFirst, Init(n, threads), schedule);
            && i < |s.slots|
            && (s.slots[i].inUse <==> exists o :: OwnedBy(s, o, i))
            && (forall o, o' :: OwnedBy(s, o, i) && OwnedBy(s, o', i) ==> o == o')
            && (forall t: nat, cb: nat :: t < |s.pcs| && s.pcs[t] == Holding(cb, i) ==> s.slots[i].fn == Some(cb))
            && (!s.slots[i].inUse ==> s.slots[i].fn == None)
  {
    InitInv(n, threads);
    RunKeepsInv(Init(n, threads), schedule);
    var s := Run(ClearFirst, Init(n, threads), schedule);
    if s.slots[i].inUse {
      assert OwnedBy(s, s.slots[i].owner, i);
    }
    forall t: nat, cb: nat | t < |s.pcs| && s.pcs[t] == Holding(cb, i)
      ensures s.slots[i].fn == Some(cb)
    {
      assert Has(s.pcs[t], i);
    }
  }

  /** The thread is in a reserve for this procedure, or past it. */
  predicate ReservesFor(pc: Pc, cb: Proc) {
    pc.Scanning? || pc.Claimed? || pc.Holding? ==> pc.cb == cb
  }

  /** What a thread reserves a slot for is what the slot has, when the reserve has returned: from any state in which t
      calls reserve, until it calls it again, and whatever the other threads do. */
  lemma {:induction false} HolderHasItsProcedure(s: State, t: nat, cb: Proc, schedule: seq<Action>)
    requires Inv(s) && t < |s.pcs| && s.pcs[t] == Idle
    requires forall k :: 0 <= k < |schedule| ==> !(schedule[k].t == t && schedule[k].e.Reserve?)
    ensures var s' := Run(ClearFirst, s, [Action(t, Reserve(cb))] + schedule);
            && Inv(s') && t < |s'.pcs| && ReservesFor(s'.pcs[t], cb)
            && (s'.pcs[t].Holding? ==> s'.pcs[t].i < |s'.slots| && s'.slots[s'.pcs[t].i].fn == Some(cb))
  {
    var begin := [Action(t, Reserve(cb))];
    if schedule == [] {
      assert begin[..0] == [] && begin + [] == begin;
      StepKeepsInv(s, begin[0]);
      assert Run(ClearFirst, s, begin) == Step(ClearFirst, Run(ClearFirst, s, []), begin[0]);
    } else {
      var init, a := schedule[..|schedule| - 1], schedule[|schedule| - 1];
      HolderHasItsProcedure(s, t, cb, init);
      assert begin + schedule == (begin + init) + [a];
      RunLast(ClearFirst, s, begin + init, a);
      var before := Run(ClearFirst, s, begin + init);
      StepKeepsInv(before, a);
      StepKeepsReserving(before, a, t, cb);
      HoldingHasProcedure(Step(ClearFirst, before, a), t);
    }
  }

  lemma StepKeepsReserving(s: State, a: Action, t: nat, cb: Proc)
    requires t < |s.pcs| && ReservesFor(s.pcs[t], cb) && !(a.t == t && a.e.Reserve?)
    ensures t < |Step(ClearFirst, s, a).pcs| && ReservesFor(Step(ClearFirst, s, a).pcs[t], cb)
  {
  }

  lemma HoldingHasProcedure(s: State, t: nat)
    requires Inv(s) && t < |s.pcs|
    ensures s.pcs[t].Holding? ==> s.pcs[t].i < |s.slots| && s.slots[s.pcs[t].i].fn == Some(s.pcs[t].cb)
  {
    if s.pcs[t].Holding? {
      assert Has(s.pcs[t], s.pcs[t].i);
    }
  }

  lemma StepKeepsObject(s: State, a: Action, i: nat)
    requires Inv(s) && i < |s.slots| && s.slots[i].owner.Object?
    ensures i < |Step(ClearFirst, s, a).slots| && Step(ClearFirst, s, a).slots[i] == s.slots[i]
  {
  }

  lemma {:induction false} ObjectIsForever(s: State, schedule: seq<Action>, i: nat)
    requires Inv(s) && i < |s.slots| && s.slots[i].owner.Object?
    ensures i < |Run(ClearFirst, s, schedule).slots| && Run(ClearFirst, s, schedule).slots[i] == s.slots[i]
  {
    if schedule != [] {
      ObjectIsForever(s, schedule[..|schedule| - 1], i);
      RunKeepsInv(s, schedule[..|schedule| - 1]);
      StepKeepsObject(Run(ClearFirst, s, schedule[..|schedule| - 1]), schedule[|schedule| - 1], i);
    }
  }

  /** Once MPI has made an object with a trampoline, the trampoline calls that object's procedure in every later state,
      whatever is reserved, created and cancelled before and after. */
  lemma TrampolineIsForever(n: nat, threads: nat, before: seq<Action>, t: nat, cb: Proc, i: nat, after: seq<Action>)
    requires t < |Run(ClearFirst, Init(n, threads), before).pcs|
    requires Run(ClearFirst, Init(n, threads), before).pcs[t] == Holding(cb, i)
    ensures var s := Run(ClearFirst, Init(n, threads), before + [Action(t, Created)] + after);
            i < |s.slots| && s.slots[i].fn == Some(cb)
  {
    var s0 := Run(ClearFirst, Init(n, threads), before);
    var s1 := Step(ClearFirst, s0, Action(t, Created));
    InitInv(n, threads);
    RunKeepsInv(Init(n, threads), before);
    StepKeepsInv(s0, Action(t, Created));
    assert s1.slots[i].owner == Object(cb);
    assert Run(ClearFirst, s0, [Action(t, Created)]) == s1 by {
      assert Run(ClearFirst, s0, []) == s0;
      assert [Action(t, Created)][..0] == [];
    }
    RunConcat(ClearFirst, Init(n, threads), before, [Action(t, Created)]);
    RunConcat(ClearFirst, Init(n, threads), before + [Action(t, Created)], after);
    ObjectIsForever(s1, after, i);
  }

  /** The slots that objects keep. */
  ghost function Kept(s: State): set<int> {
    set i | 0 <= i < |s.slots| && s.slots[i].owner.Object?
  }

  ghost predicate Creates(s: State, a: Action) {
    a.t < |s.pcs| && s.pcs[a.t].Holding? && a.e == Created
  }

  /** How many objects were made in a run: the steps in which a holder's creation succeeded. */
  ghost function Creations(s: State, schedule: seq<Action>): nat {
    if schedule == [] then 0
    else
      var init, a := Run(ClearFirst, s, schedule[..|schedule| - 1]), schedule[|schedule| - 1];
      Creations(s, schedule[..|schedule| - 1])
        + if Creates(init, a) then 1 else 0
  }

  /** A slot becomes an object's only when its holder's creation succeeds, and never stops being one. */
  lemma StepMakesObject(s: State, a: Action, i: nat)
    requires Inv(s) && i < |s.slots|
    ensures i < |Step(ClearFirst, s, a).slots|
    ensures Step(ClearFirst, s, a).slots[i].owner.Object?
       <==> s.slots[i].owner.Object? || (Creates(s, a) && s.pcs[a.t].i == i)
  {
  }

  lemma StepKeepsKept(s: State, a: Action)
    requires Inv(s)
    ensures |Kept(Step(ClearFirst, s, a))| == |Kept(s)| + if Creates(s, a) then 1 else 0
  {
    var s' := Step(ClearFirst, s, a);
    StepKeepsInv(s, a);
    forall i: nat | i < |s.slots|
      ensures i in Kept(s') <==> i in Kept(s) || (Creates(s, a) && s.pcs[a.t].i == i)
    {
      StepMakesObject(s, a, i);
    }
    if Creates(s, a) {
      var i := s.pcs[a.t].i;
      assert Has(s.pcs[a.t], i) && ThreadRight(a.t, s.pcs[a.t], i, s.slots[i]);
      assert Kept(s') == Kept(s) + {i};
    } else {
      assert Kept(s') == Kept(s);
    }
  }

  lemma {:induction false} CreationsAreKept(s: State, schedule: seq<Action>)
    requires Inv(s)
    ensures |Kept(Run(ClearFirst, s, schedule))| == |Kept(s)| + Creations(s, schedule)
  {
    if schedule != [] {
      CreationsAreKept(s, schedule[..|schedule| - 1]);
      RunKeepsInv(s, schedule[..|schedule| - 1]);
      StepKeepsKept(Run(ClearFirst, s, schedule[..|schedule| - 1]), schedule[|schedule| - 1]);
    }
  }

  lemma {:induction false} BoundedSet(k: set<int>, n: nat)
    requires forall i :: i in k ==> 0 <= i < n
    ensures |k| <= n
  {
    if n == 0 {
      assert forall i :: i !in k;
      assert k == {};
    } else {
      BoundedSet(k - {n - 1}, n - 1);
    }
  }

  /** No run makes more objects than there are slots, freed objects and all. */
  lemma AtMostOneObjectPerSlot(n: nat, threads: nat, schedule: seq<Action>)
    ensures Creations(Init(n, threads), schedule) <= n
  {
    InitInv(n, threads);
    RunKeepsInv(Init(n, threads), schedule);
    CreationsAreKept(Init(n, threads), schedule);
    BoundedSet(Kept(Run(ClearFirst, Init(n, threads), schedule)), n);
  }

  // ----- when reserve finds nothing

  /** Every slot that a scanning thread has passed is in use. */
  ghost predicate PassedInUse(s: State, t: nat) {
    t < |s.pcs| && s.pcs[t].Scanning? ==>
      s.pcs[t].i <= |s.slots| && forall j :: 0 <= j < s.pcs[t].i ==> s.slots[j].inUse
  }

  ghost predicate NoRelease(schedule: seq<Action>) {
    forall k :: 0 <= k < |schedule| ==> schedule[k].e != Release
  }

  lemma StepKeepsPassed(s: State, a: Action, t: nat)
    requires PassedInUse(s, t) && a.e != Release
    ensures PassedInUse(Step(ClearFirst, s, a), t)
  {
  }

  lemma {:induction false} RunKeepsPassed(s: State, schedule: seq<Action>, t: nat)
    requires t < |s.pcs| && !s.pcs[t].Scanning? && NoRelease(schedule)
    ensures PassedInUse(Run(ClearFirst, s, schedule), t)
  {
    if schedule != [] {
      RunKeepsPassed(s, schedule[..|schedule| - 1], t);
      StepKeepsPassed(Run(ClearFirst, s, schedule[..|schedule| - 1]), schedule[|schedule| - 1], t);
    }
  }

  /** This step of t ends its reserve with nothing: it was looking, and is idle. */
  ghost predicate AnswersNothing(s: State, t: nat, e: Event) {
    && t < |s.pcs| && s.pcs[t].Scanning?
    && t < |Step(ClearFirst, s, Action(t, e)).pcs| && Step(ClearFirst, s, Action(t, e)).pcs[t] == Idle
  }

  ghost predicate Full(s: State) {
    forall i :: 0 <= i < |s.slots| ==> s.slots[i].inUse
  }

  /** A reserve that answers nothing, while no cancel has come to its end since it began to look, has found the pool
      full: from any state in which t is not looking, whatever the other threads do, and by whatever step. Only giving
      up is such a step, and it changes nothing else. */
  lemma NothingFoundMeansFull(s: State, schedule: seq<Action>, t: nat, e: Event)
    requires t < |s.pcs| && !s.pcs[t].Scanning? && NoRelease(schedule)
    ensures var s' := Run(ClearFirst, s, schedule);
            && (AnswersNothing(s', t, e) ==> Full(s') && e == GiveUp)
            && (Step(ClearFirst, s', Action(t, GiveUp)) != s' ==>
                  Full(s') && AnswersNothing(s', t, GiveUp) && Step(ClearFirst, s', Action(t, GiveUp)) == Go(s', t, Idle))
  {
    RunKeepsPassed(s, schedule, t);
  }

  /** t tries n slots in a row. */
  function Tries(t: nat, n: nat): seq<Action> {
    seq(n, _ => Action(t, TrySlot))
  }

  lemma {:induction false} TriesPassFullSlots(s: State, t: nat, cb: Proc, n: nat)
    requires t < |s.pcs| && s.pcs[t] == Scanning(cb, 0) && n <= |s.slots|
    requires forall j :: 0 <= j < n ==> s.slots[j].inUse
    ensures Run(ClearFirst, s, Tries(t, n)) == Go(s, t, Scanning(cb, n))
  {
    if n > 0 {
      TriesPassFullSlots(s, t, cb, n - 1);
      assert Tries(t, n)[..n - 1] == Tries(t, n - 1);
    }
  }

  lemma RunLast(order: CancelOrder, s: State, schedule: seq<Action>, a: Action)
    ensures Run(order, s, schedule + [a]) == Step(order, Run(order, s, schedule), a)
  {
  }

  lemma RunFirst(order: CancelOrder, s: State, a: Action, rest: seq<Action>)
    ensures Run(order, s, [a] + rest) == Run(order, Step(order, s, a), rest)
  {
    assert [a][..0] == [];
    assert Run(order, s, [a]) == Step(order, Run(order, s, []), a);
    RunConcat(order, s, [a], rest);
  }

  /** The next step of thread b can end its reserve with nothing, although a slot is free. */
  ghost predicate FindsNothingThoughFree(s: State, b: nat) {
    (exists e :: AnswersNothing(s, b, e)) && !Full(s)
  }

  ghost predicate NotAllRetired(s: State) {
    exists i :: 0 <= i < |s.slots| && !s.slots[i].owner.Object?
  }

  /** What thread a alone leads to. */
  ghost predicate OnlyMoved(s: State, s': State, a: nat) {
    && Inv(s') && |s'.slots| == |s.slots| && |s'.pcs| == |s.pcs|
    && forall t :: 0 <= t < |s.pcs| && t != a ==> s'.pcs[t] == s.pcs[t]
  }

  function StepsLeft(pc: Pc): nat {
    match pc
    case Claimed(_, _) => 4
    case Holding(_, _) => 3
    case Clearing(_) => 2
    case Releasing(_) => 1
    case _ => 0
  }

  function OnTheWayOut(pc: Pc): Event {
    match pc
    case Claimed(_, _) => StoreFn
    case Holding(_, _) => Refused
    case Clearing(_) => ClearFn
    case _ => Release
  }

  /** A thread that has a slot gives it up. */
  lemma {:induction false} GivesUp(s: State, a: nat, i: nat) returns (schedule: seq<Action>)
    requires Inv(s) && a < |s.pcs| && Has(s.pcs[a], i)
    ensures var s' := Run(ClearFirst, s, schedule);
            OnlyMoved(s, s', a) && i < |s'.slots| && !s'.slots[i].inUse
    decreases StepsLeft(s.pcs[a])
  {
    var act := Action(a, OnTheWayOut(s.pcs[a]));
    var next := Step(ClearFirst, s, act);
    StepKeepsInv(s, act);
    if s.pcs[a].Releasing? {
      schedule := [act] + [];
      RunFirst(ClearFirst, s, act, []);
    } else {
      var rest := GivesUp(next, a, i);
      schedule := [act] + rest;
      RunFirst(ClearFirst, s, act, rest);
    }
  }

  /** While the pool is full, b looks in vain; then another thread gives up the slot that it has. */
  lemma FullPoolFails(s: State, b: nat, cb: Proc) returns (schedule: seq<Action>)
    requires Inv(s) && Full(s) && NotAllRetired(s) && b < |s.pcs| && s.pcs[b] == Idle
    ensures FindsNothingThoughFree(Run(ClearFirst, s, schedule), b)
  {
    var i :| 0 <= i < |s.slots| && !s.slots[i].owner.Object?;
    var a := s.slots[i].owner.t;
    assert ThreadRight(a, s.pcs[a], i, s.slots[i]);
    var looking := LooksInVain(s, b, cb);
    var s' := Run(ClearFirst, s, looking);
    RunKeepsInv(s, looking);
    assert a != b;
    var rest := GivesUp(s', a, i);
    RunConcat(ClearFirst, s, looking, rest);
    schedule := looking + rest;
    LookedAtAll(Run(ClearFirst, s, schedule), b);
  }

  lemma LooksInVain(s: State, b: nat, cb: Proc) returns (schedule: seq<Action>)
    requires Full(s) && b < |s.pcs| && s.pcs[b] == Idle
    ensures Run(ClearFirst, s, schedule) == Go(s, b, Scanning(cb, |s.slots|))
  {
    var begin := Action(b, Reserve(cb));
    RunFirst(ClearFirst, s, begin, Tries(b, |s.slots|));
    TriesPassFullSlots(Go(s, b, Scanning(cb, 0)), b, cb, |s.slots|);
    schedule := [begin] + Tries(b, |s.slots|);
  }

  lemma LookedAtAll(s: State, b: nat)
    requires b < |s.pcs| && s.pcs[b].Scanning? && s.pcs[b].i == |s.slots|
    ensures AnswersNothing(s, b, GiveUp)
  {
  }

  ghost function Free(s: State): set<int> {
    set i | 0 <= i < |s.slots| && !s.slots[i].inUse
  }

  /** An idle thread takes the first free slot. */
  lemma TakesFree(s: State, a: nat, cb: Proc) returns (schedule: seq<Action>, f: nat)
    requires Inv(s) && !Full(s) && a < |s.pcs| && s.pcs[a] == Idle
    ensures f < |s.slots| && !s.slots[f].inUse
    ensures Run(ClearFirst, s, schedule)
         == Write(s, a, Claimed(cb, f), f, s.slots[f].(inUse := true, owner := Thread(a)))
    ensures Inv(Run(ClearFirst, s, schedule))
  {
    f := 0;
    while s.slots[f].inUse
      invariant f < |s.slots| && forall j :: 0 <= j < f ==> s.slots[j].inUse
      decreases |s.slots| - f
    {
      f := f + 1;
    }
    var begin := Action(a, Reserve(cb));
    RunFirst(ClearFirst, s, begin, Tries(a, f));
    TriesPassFullSlots(Go(s, a, Scanning(cb, 0)), a, cb, f);
    RunLast(ClearFirst, s, [begin] + Tries(a, f), Action(a, TrySlot));
    schedule := [begin] + Tries(a, f) + [Action(a, TrySlot)];
    RunKeepsInv(s, schedule);
  }

  /** A thread that has a slot makes an object with it. */
  lemma Creating(s: State, a: nat) returns (schedule: seq<Action>)
    requires Inv(s) && a < |s.pcs| && (s.pcs[a].Claimed? || s.pcs[a].Holding?)
    ensures var s' := Run(ClearFirst, s, schedule);
            OnlyMoved(s, s', a) && s'.pcs[a] == Idle && Free(s') == Free(s)
  {
    if s.pcs[a].Claimed? {
      RunFirst(ClearFirst, s, Action(a, StoreFn), [Action(a, Created)]);
      RunFirst(ClearFirst, Step(ClearFirst, s, Action(a, StoreFn)), Action(a, Created), []);
      assert [Action(a, Created)] == [Action(a, Created)] + [];
      schedule := [Action(a, StoreFn)] + [Action(a, Created)];
    } else {
      RunFirst(ClearFirst, s, Action(a, Created), []);
      schedule := [Action(a, Created)] + [];
    }
    RunKeepsInv(s, schedule);
    assert forall i :: 0 <= i < |s.slots| ==> (i in Free(Run(ClearFirst, s, schedule)) <==> i in Free(s));
  }

  /** An idle thread takes a slot, and if another is free it makes an object with the one it took. */
  lemma FillsOne(s: State, a: nat) returns (schedule: seq<Action>)
    requires Inv(s) && !Full(s) && a < |s.pcs| && s.pcs[a] == Idle
    ensures var s' := Run(ClearFirst, s, schedule);
            && OnlyMoved(s, s', a) && |Free(s')| < |Free(s)|
            && if Full(s') then NotAllRetired(s') else s'.pcs[a] == Idle
  {
    var taking, f := TakesFree(s, a, 0);
    var s1 := Run(ClearFirst, s, taking);
    assert Free(s1) == Free(s) - {f} && f in Free(s);
    assert s1.slots[f].owner == Thread(a);
    schedule := taking;
    if !Full(s1) {
      var creating := Creating(s1, a);
      RunConcat(ClearFirst, s, taking, creating);
      schedule := taking + creating;
      var i :| 0 <= i < |s1.slots| && !s1.slots[i].inUse;
      assert i in Free(Run(ClearFirst, s1, creating));
    }
  }

  /** An idle thread fills the pool, with objects in all slots that it takes but the last. */
  lemma {:induction false} FillsFromIdle(s: State, a: nat) returns (schedule: seq<Action>)
    requires Inv(s) && !Full(s) && a < |s.pcs| && s.pcs[a] == Idle
    ensures var s' := Run(ClearFirst, s, schedule);
            OnlyMoved(s, s', a) && Full(s') && NotAllRetired(s')
    decreases |Free(s)|
  {
    var one := FillsOne(s, a);
    var s1 := Run(ClearFirst, s, one);
    schedule := one;
    if !Full(s1) {
      var rest := FillsFromIdle(s1, a);
      RunConcat(ClearFirst, s, one, rest);
      schedule := one + rest;
    }
  }

  function Rank(s: State, a: nat): nat
    requires a < |s.pcs|
  {
    match s.pcs[a]
    case Scanning(_, i) => if i < |s.slots| then 6 + |s.slots| - i else 5
    case pc => StepsLeft(pc)
  }

  /** No step but a creation retires a slot. */
  lemma FreeOrOwned(s: State, act: Action)
    requires Inv(s) && NotAllRetired(s) && act.e != Created
    ensures NotAllRetired(Step(ClearFirst, s, act))
  {
    var i :| 0 <= i < |s.slots| && !s.slots[i].owner.Object?;
    StepMakesObject(s, act, i);
  }

  lemma FillsFromHolding(s: State, a: nat) returns (schedule: seq<Action>)
    requires Inv(s) && !Full(s) && a < |s.pcs| && (s.pcs[a].Claimed? || s.pcs[a].Holding?)
    ensures var s' := Run(ClearFirst, s, schedule);
            OnlyMoved(s, s', a) && Full(s') && NotAllRetired(s')
  {
    var creating := Creating(s, a);
    var s1 := Run(ClearFirst, s, creating);
    var i :| 0 <= i < |s.slots| && !s.slots[i].inUse;
    assert i in Free(s1);
    var rest := FillsFromIdle(s1, a);
    RunConcat(ClearFirst, s, creating, rest);
    schedule := creating + rest;
  }

  /** The next step of a thread that looks for a slot or is giving one up. */
  lemma GoesOn(s: State, a: nat) returns (act: Action)
    requires Inv(s) && a < |s.pcs| && NotAllRetired(s)
    requires s.pcs[a].Scanning? || s.pcs[a].Clearing? || s.pcs[a].Releasing?
    ensures var s' := Step(ClearFirst, s, act);
            OnlyMoved(s, s', a) && NotAllRetired(s') && Rank(s', a) < Rank(s, a)
  {
    act := Action(a, if !s.pcs[a].Scanning? then OnTheWayOut(s.pcs[a])
                     else if s.pcs[a].i < |s.slots| then TrySlot else GiveUp);
    StepKeepsInv(s, act);
    FreeOrOwned(s, act);
  }

  /** From wherever it is, a thread fills the pool. */
  lemma {:induction false} Fills(s: State, a: nat) returns (schedule: seq<Action>)
    requires Inv(s) && a < |s.pcs| && NotAllRetired(s)
    ensures var s' := Run(ClearFirst, s, schedule);
            OnlyMoved(s, s', a) && Full(s') && NotAllRetired(s')
    decreases Rank(s, a)
  {
    if Full(s) {
      schedule := [];
    } else if s.pcs[a] == Idle {
      schedule := FillsFromIdle(s, a);
    } else if s.pcs[a].Claimed? || s.pcs[a].Holding? {
      schedule := FillsFromHolding(s, a);
    } else {
      var act := GoesOn(s, a);
      var rest := Fills(Step(ClearFirst, s, act), a);
      RunFirst(ClearFirst, s, act, rest);
      schedule := [act] + rest;
    }
  }

  lemma StepAloneKeepsPassed(s: State, a: Action)
    requires |s.pcs| == 1 && PassedInUse(s, 0)
    ensures PassedInUse(Step(ClearFirst, s, a), 0) && |Step(ClearFirst, s, a).pcs| == 1
  {
  }

  lemma {:induction false} AloneMeansFull(s: State, schedule: seq<Action>)
    requires |s.pcs| == 1 && PassedInUse(s, 0)
    ensures PassedInUse(Run(ClearFirst, s, schedule), 0) && |Run(ClearFirst, s, schedule).pcs| == 1
  {
    if schedule != [] {
      AloneMeansFull(s, schedule[..|schedule| - 1]);
      StepAloneKeepsPassed(Run(ClearFirst, s, schedule[..|schedule| - 1]), schedule[|schedule| - 1]);
    }
  }

  lemma RetiredStaysFull(s: State, schedule: seq<Action>)
    requires Inv(s) && !NotAllRetired(s)
    ensures Full(Run(ClearFirst, s, schedule))
  {
    var s' := Run(ClearFirst, s, schedule);
    RunKeepsInv(s, schedule);
    forall i | 0 <= i < |s'.slots|
      ensures s'.slots[i].inUse
    {
      ObjectIsForever(s, schedule, i);
      assert SlotRight(s'.slots[i]);
    }
  }

  lemma CanFindNothing(s: State, b: nat) returns (schedule: seq<Action>)
    requires Inv(s) && b < |s.pcs| && s.pcs[b] == Idle && |s.pcs| > 1 && NotAllRetired(s)
    ensures FindsNothingThoughFree(Run(ClearFirst, s, schedule), b)
  {
    var filling := Fills(s, if b == 0 then 1 else 0);
    var rest := FullPoolFails(Run(ClearFirst, s, filling), b, 0);
    RunConcat(ClearFirst, s, filling, rest);
    schedule := filling + rest;
  }

  lemma PassedMeansFull(s: State, b: nat)
    requires PassedInUse(s, b)
    ensures !FindsNothingThoughFree(s, b)
  {
  }

  lemma CannotFindNothing(s: State, b: nat, schedule: seq<Action>)
    requires Inv(s) && b < |s.pcs| && s.pcs[b] == Idle && !(|s.pcs| > 1 && NotAllRetired(s))
    ensures !FindsNothingThoughFree(Run(ClearFirst, s, schedule), b)
  {
    if |s.pcs| == 1 {
      AloneMeansFull(s, schedule);
      PassedMeansFull(Run(ClearFirst, s, schedule), b);
    } else {
      RetiredStaysFull(s, schedule);
    }
  }

  /** The schedule leads to where b's reserve can end with nothing, although a slot is free. */
  ghost predicate LeadsAstray(s: State, b: nat, schedule: seq<Action>) {
    FindsNothingThoughFree(Run(ClearFirst, s, schedule), b)
  }

  /** When a reserve that answers nothing means that the pool is full, exactly: from a state in which b is about to
      reserve, it can find nothing although a slot is free if and only if there is another thread and some slot is not
      yet retired. */
  lemma NothingFoundThoughFreeIff(s: State, b: nat)
    requires Inv(s) && b < |s.pcs| && s.pcs[b] == Idle
    ensures (exists schedule :: LeadsAstray(s, b, schedule)) <==> |s.pcs| > 1 && NotAllRetired(s)
  {
    if |s.pcs| > 1 && NotAllRetired(s) {
      var schedule := CanFindNothing(s, b);
      assert LeadsAstray(s, b, schedule);
    } else {
      forall schedule
        ensures !LeadsAstray(s, b, schedule)
      {
        CannotFindNothing(s, b, schedule);
      }
    }
  }

  // ----- why cancel clears the procedure first

  /** With the two stores of cancel swapped, the procedure of a thread that has just reserved the slot is lost: it
      holds the slot, and its trampoline calls nothing. */
  lemma ReleaseFirstLosesProcedure(n: nat, mine: Proc, other: Proc) returns (schedule: seq<Action>)
    requires n > 0
    ensures var s := Run(ReleaseFirst, Init(n, 2), schedule);
            |s.slots| == n && |s.pcs| == 2 && s.pcs[1] == Holding(mine, 0) && s.slots[0].fn == None
  {
    var first := ReserveAlone(Init(n, 2), 0, other);
    var s1 := Run(ReleaseFirst, Init(n, 2), first);
    RunLast(ReleaseFirst, Init(n, 2), first, Action(0, Refused));
    RunLast(ReleaseFirst, Init(n, 2), first + [Action(0, Refused)], Action(0, Release));
    var prefix := first + [Action(0, Refused)] + [Action(0, Release)];
    var s2 := Run(ReleaseFirst, Init(n, 2), prefix);
    assert s2.pcs == [Clearing(0), Idle] && !s2.slots[0].inUse;
    var second := ReserveAlone(s2, 1, mine);
    RunConcat(ReleaseFirst, Init(n, 2), prefix, second);
    RunLast(ReleaseFirst, Init(n, 2), prefix + second, Action(0, ClearFn));
    schedule := prefix + second + [Action(0, ClearFn)];
  }

  /** A reserve that runs undisturbed takes slot 0 if it is free. */
  lemma ReserveAlone(s: State, t: nat, cb: Proc) returns (schedule: seq<Action>)
    requires t < |s.pcs| && s.pcs[t] == Idle && |s.slots| > 0 && !s.slots[0].inUse
    ensures Run(ReleaseFirst, s, schedule) == Write(s, t, Holding(cb, 0), 0, Slot(true, Some(cb), Thread(t)))
  {
    RunLast(ReleaseFirst, s, [], Action(t, Reserve(cb)));
    schedule := [] + [Action(t, Reserve(cb))];
    RunLast(ReleaseFirst, s, schedule, Action(t, TrySlot));
    schedule := schedule + [Action(t, TrySlot)];
    RunLast(ReleaseFirst, s, schedule, Action(t, StoreFn));
    schedule := schedule + [Action(t, StoreFn)];
    assert Run(ReleaseFirst, s, schedule).slots == s.slots[0 := Slot(true, Some(cb), Thread(t))];
  }
}
