/** The heap boxes behind generalized requests and data representations: MPI carries a box's address as `extra_state`,
    and each trampoline finds in the box which Fortran procedure to call, and passes it the extra state in the box by
    reference. Any number of requests and data representations, with callbacks that overlap as MPI permits; addresses
    are reused once freed. */
module CallbackBoxes {
  import opened Options
  import opened Procedures

  type Addr = nat

  datatype Fns =
    | GrequestFns(query: Proc, free: Proc, cancel: Proc)
    | DatarepFns(read: Proc, write: Proc, extent: Proc)

  datatype Callback = Query | Free | Cancel | Read | Write | Extent

  /** The procedure that a trampoline picks from a box; None if the box is not of its family. */
  function Callee(fns: Fns, cb: Callback): Option<Proc> {
    match (fns, cb)
    case (GrequestFns(query, _, _), Query) => Some(query)
    case (GrequestFns(_, free, _), Free) => Some(free)
    case (GrequestFns(_, _, cancel), Cancel) => Some(cancel)
    case (DatarepFns(read, _, _), Read) => Some(read)
    case (DatarepFns(_, write, _), Write) => Some(write)
    case (DatarepFns(_, _, extent), Extent) => Some(extent)
    case _ => None
  }

  datatype Box = Box(fns: Fns, extraState: int)

  /** Reserved: MPI is being asked to start it. Started: MPI has the box's address. Gone: freed, or refused by MPI. */
  datatype Phase = Reserved | Started | Gone

  /** A request or data representation. `fns` and `initial` are history: what it was started with. */
  datatype Object = Object(phase: Phase, addr: Addr, fns: Fns, initial: int)

  /** One call of a trampoline, with the address it was given, the procedure it called and the extra state that the
      procedure found; `at` is how many assignments to extra states came before. It is open till it returns. */
  datatype Call = Call(id: nat, cb: Callback, addr: Addr, callee: Proc, before: int, at: nat, open: bool)

  /** A procedure's assignment to its extra state. */
  datatype Assignment = Assignment(id: nat, value: int)

  /** `vars` are the caller's variables, from which extra states are taken; `calls` and `written` are all calls and all
      assignments so far; `fault` records the use of a box that is not there, or not of the right family. */
  datatype State = State(heap: map<Addr, Box>, objects: seq<Object>, vars: seq<int>, calls: seq<Call>,
                         written: seq<Assignment>, fault: bool)

  datatype Event =
    | Assign(v: nat, value: int)            // the caller assigns to a variable
    | Reserve(fns: Fns, v: nat, addr: Addr) // a box is allocated, its extra state copied from variable v
    | StartOk(id: nat)
    | StartFail(id: nat)                    // the box is released again
    | Enter(id: nat, cb: Callback)          // MPI calls a trampoline, which calls the procedure
    | SetExtra(k: nat, value: int)          // the procedure of call k assigns to its extra state
    | Leave(k: nat)                         // the procedure of call k returns, and so does the trampoline

  function Init(vars: seq<int>): State {
    State(map[], [], vars, [], [], false)
  }

  function SetPhase(s: State, id: nat, phase: Phase): State
    requires id < |s.objects|
  {
    s.(objects := s.objects[id := s.objects[id].(phase := phase)])
  }

  function Release(s: State, addr: Addr): State {
    if addr in s.heap then s.(heap := s.heap - {addr}) else s.(fault := true)
  }

  /** A trampoline looks into the box that it is given the address of. */
  function EnterBox(s: State, id: nat, addr: Addr, cb: Callback): State {
    if addr !in s.heap || Callee(s.heap[addr].fns, cb) == None then s.(fault := true)
    else
      var box := s.heap[addr];
      s.(calls := s.calls + [Call(id, cb, addr, Callee(box.fns, cb).value, box.extraState, |s.written|, true)])
  }

  /** The procedure has the address of the extra state in the box. */
  function WriteBox(s: State, c: Call, value: int): State {
    if c.addr !in s.heap then s.(fault := true)
    else
      s.(heap := s.heap[c.addr := s.heap[c.addr].(extraState := value)],
         written := s.written + [Assignment(c.id, value)])
  }

  /** The trampoline returns; that of the free callback releases the box first. */
  function LeaveBox(s: State, k: nat): State
    requires k < |s.calls| && s.calls[k].id < |s.objects|
  {
    var c := s.calls[k];
    var closed := s.(calls := s.calls[k := c.(open := false)]);
    if c.cb == Free then SetPhase(Release(closed, c.addr), c.id, Gone) else closed
  }

  /** No callback of a request is running. */
  predicate Quiet(s: State, id: nat) {
    forall k :: 0 <= k < |s.calls| && s.calls[k].id == id ==> !s.calls[k].open
  }

  /** What MPI may do (MPI-5.0, section 13.2): call back only for what has been started, only the callbacks of its
      family, those of one request one at a time, and none after the free callback. An event that is not possible
      changes nothing. */
  predicate MayEnter(s: State, id: nat, cb: Callback) {
    && id < |s.objects| && s.objects[id].phase == Started && Callee(s.objects[id].fns, cb) != None
    && (s.objects[id].fns.GrequestFns? ==> Quiet(s, id))
  }

  predicate Running(s: State, k: nat) {
    k < |s.calls| && s.calls[k].open && s.calls[k].id < |s.objects|
  }

  function Step(s: State, e: Event): State {
    match e
    case Assign(v, value) => if v < |s.vars| then s.(vars := s.vars[v := value]) else s
    case Reserve(fns, v, addr) =>
      if v < |s.vars| && addr !in s.heap
      then s.(heap := s.heap[addr := Box(fns, s.vars[v])], objects := s.objects + [Object(Reserved, addr, fns, s.vars[v])])
      else s
    case StartOk(id) =>
      if id < |s.objects| && s.objects[id].phase == Reserved then SetPhase(s, id, Started) else s
    case StartFail(id) =>
      if id < |s.objects| && s.objects[id].phase == Reserved
      then SetPhase(Release(s, s.objects[id].addr), id, Gone) else s
    case Enter(id, cb) => if MayEnter(s, id, cb) then EnterBox(s, id, s.objects[id].addr, cb) else s
    case SetExtra(k, value) => if Running(s, k) then WriteBox(s, s.calls[k], value) else s
    case Leave(k) => if Running(s, k) then LeaveBox(s, k) else s
  }

  function Run(s: State, events: seq<Event>): State {
    if events == [] then s else Step(Run(s, events[..|events| - 1]), events[|events| - 1])
  }

  // ----- what is kept of the heap

  /** The extra state of an object after the given assignments: the last of its own, or else what it started with. */
  function ExtraAfter(written: seq<Assignment>, id: nat, initial: int): int {
    if written == [] then initial
    else if written[|written| - 1].id == id then written[|written| - 1].value
    else ExtraAfter(written[..|written| - 1], id, initial)
  }

  predicate Live(o: Object) {
    o.phase != Gone
  }

  /** A live object's box is there, is its own, and carries its extra state. */
  ghost predicate ObjectRight(s: State, id: nat)
    requires id < |s.objects|
  {
    var o := s.objects[id];
    Live(o) ==> o.addr in s.heap && s.heap[o.addr] == Box(o.fns, ExtraAfter(s.written, id, o.initial))
  }

  ghost predicate HasOwner(s: State, a: Addr) {
    exists id :: 0 <= id < |s.objects| && Live(s.objects[id]) && s.objects[id].addr == a
  }

  ghost predicate Apart(objects: seq<Object>) {
    forall i, j :: 0 <= i < j < |objects| && Live(objects[i]) && Live(objects[j]) ==> objects[i].addr != objects[j].addr
  }

  ghost predicate HeapInv(s: State) {
    && !s.fault
    && (forall id :: 0 <= id < |s.objects| ==> ObjectRight(s, id))
    && Apart(s.objects)
    && (forall a :: a in s.heap ==> HasOwner(s, a))
    && (forall j :: 0 <= j < |s.written| ==> s.written[j].id < |s.objects|)
  }

  lemma {:induction false} NothingWrittenYet(written: seq<Assignment>, n: nat, initial: int)
    requires forall j :: 0 <= j < |written| ==> written[j].id < n
    ensures ExtraAfter(written, n, initial) == initial
  {
    if written != [] {
      NothingWrittenYet(written[..|written| - 1], n, initial);
    }
  }

  lemma ReserveKeepsObjects(s: State, fns: Fns, v: nat, addr: Addr, id: nat)
    requires HeapInv(s) && v < |s.vars| && addr !in s.heap && id <= |s.objects|
    ensures var s' := Step(s, Reserve(fns, v, addr));
            && |s'.objects| == |s.objects| + 1 && ObjectRight(s', id)
            && (id < |s.objects| ==> s'.objects[id] == s.objects[id] && (Live(s.objects[id]) ==> s.objects[id].addr != addr))
  {
    if id < |s.objects| {
      assert ObjectRight(s, id);
    } else {
      NothingWrittenYet(s.written, id, s.vars[v]);
    }
  }

  lemma ReserveKeepsHeap(s: State, fns: Fns, v: nat, addr: Addr)
    requires HeapInv(s) && v < |s.vars| && addr !in s.heap
    ensures HeapInv(Step(s, Reserve(fns, v, addr)))
  {
    var s', n := Step(s, Reserve(fns, v, addr)), |s.objects|;
    forall id | 0 <= id <= n
      ensures ObjectRight(s', id)
      ensures id < n ==> s'.objects[id] == s.objects[id] && (Live(s.objects[id]) ==> s.objects[id].addr != addr)
    {
      ReserveKeepsObjects(s, fns, v, addr, id);
    }
    forall a | a in s'.heap
      ensures HasOwner(s', a)
    {
      if a == addr {
        assert Live(s'.objects[n]) && s'.objects[n].addr == a;
      } else {
        OwnerStays(s, s', a);
      }
    }
  }

  /** An owner that is there still, and still live, still owns. */
  lemma OwnerStays(s: State, s': State, a: Addr)
    requires HasOwner(s, a)
    requires forall i :: 0 <= i < |s.objects| && s.objects[i].addr == a && Live(s.objects[i]) ==>
               i < |s'.objects| && Live(s'.objects[i]) && s'.objects[i].addr == a
    ensures HasOwner(s', a)
  {
  }

  lemma StartOkKeepsHeap(s: State, id: nat)
    requires HeapInv(s) && id < |s.objects| && s.objects[id].phase == Reserved
    ensures HeapInv(SetPhase(s, id, Started))
  {
    var s' := SetPhase(s, id, Started);
    forall i | 0 <= i < |s.objects|
      ensures ObjectRight(s', i)
    {
      assert ObjectRight(s, i);
    }
    forall a | a in s.heap
      ensures HasOwner(s', a)
    {
      OwnerStays(s, s', a);
    }
  }

  /** An object that dies takes its box along, and no other. */
  lemma DeathKeepsHeap(s: State, id: nat)
    requires HeapInv(s) && id < |s.objects| && Live(s.objects[id])
    ensures HeapInv(SetPhase(Release(s, s.objects[id].addr), id, Gone))
  {
    var s' := SetPhase(Release(s, s.objects[id].addr), id, Gone);
    assert ObjectRight(s, id);
    forall i | 0 <= i < |s.objects|
      ensures ObjectRight(s', i)
    {
      assert ObjectRight(s, i);
    }
    forall a | a in s'.heap
      ensures HasOwner(s', a)
    {
      OwnerStays(s, s', a);
    }
  }

  /** Assigning to an object's extra state changes its box, and no other. */
  lemma WriteKeepsObjects(s: State, c: Call, value: int, i: nat)
    requires HeapInv(s) && c.id < |s.objects| && Live(s.objects[c.id]) && c.addr == s.objects[c.id].addr
    requires i < |s.objects|
    ensures ObjectRight(WriteBox(s, c, value), i)
  {
    assert ObjectRight(s, c.id) && ObjectRight(s, i);
    assert WriteBox(s, c, value).written[..|s.written|] == s.written;
    if i < c.id {
      assert Live(s.objects[i]) ==> s.objects[i].addr != c.addr;
    } else if c.id < i {
      assert Live(s.objects[i]) ==> s.objects[i].addr != c.addr;
    }
  }

  lemma WriteKeepsHeap(s: State, c: Call, value: int)
    requires HeapInv(s) && c.id < |s.objects| && Live(s.objects[c.id]) && c.addr == s.objects[c.id].addr
    ensures c.addr in s.heap && HeapInv(WriteBox(s, c, value))
  {
    var s' := WriteBox(s, c, value);
    assert ObjectRight(s, c.id);
    forall i | 0 <= i < |s.objects|
      ensures ObjectRight(s', i)
    {
      WriteKeepsObjects(s, c, value, i);
    }
    forall a | a in s'.heap
      ensures HasOwner(s', a)
    {
      OwnerStays(s, s', a);
    }
  }

  /** The heap does not depend on the calls or the caller's variables. */
  lemma SameHeapInv(s: State, s': State)
    requires HeapInv(s) && s' == s.(calls := s'.calls, vars := s'.vars)
    ensures HeapInv(s')
  {
    forall i | 0 <= i < |s.objects|
      ensures ObjectRight(s', i)
    {
      assert ObjectRight(s, i);
    }
    forall a | a in s.heap
      ensures HasOwner(s', a)
    {
      OwnerStays(s, s', a);
    }
  }

  // ----- what is kept of the calls

  /** A call was to its own object's procedure, which found the extra state as the object's callbacks had left it. While
      it is open, its object is there. It is the object's last if it is the free callback, which the object does not
      outlive; and when it began, no other call of its request was open. */
  ghost predicate CallRight(s: State, j: nat)
    requires j < |s.calls|
  {
    var c := s.calls[j];
    && c.id < |s.objects| && c.at <= |s.written|
    && var o := s.objects[c.id];
       && Callee(o.fns, c.cb) == Some(c.callee) && c.addr == o.addr
       && c.before == ExtraAfter(s.written[..c.at], c.id, o.initial)
       && (c.open ==> o.phase == Started)
       && (c.cb == Free && !c.open ==> o.phase == Gone)
       && (c.cb == Free ==> forall k :: j < k < |s.calls| ==> s.calls[k].id != c.id)
       && (o.fns.GrequestFns? ==> forall i :: 0 <= i < j && s.calls[i].id == c.id ==> !s.calls[i].open)
  }

  ghost predicate CallsInv(s: State) {
    forall j :: 0 <= j < |s.calls| ==> CallRight(s, j)
  }

  ghost predicate Inv(s: State) {
    HeapInv(s) && CallsInv(s)
  }

  /** Objects may be added, and may move on in their phase if no call of theirs is open or was the last. */
  lemma PhaseKeepsCalls(s: State, s': State)
    requires CallsInv(s) && s'.calls == s.calls && s'.written == s.written && |s.objects| <= |s'.objects|
    requires forall i :: 0 <= i < |s.objects| ==>
               s'.objects[i] == s.objects[i]
               || (s.objects[i].phase == Reserved && s'.objects[i] == s.objects[i].(phase := s'.objects[i].phase))
    ensures CallsInv(s')
  {
    forall j | 0 <= j < |s.calls|
      ensures CallRight(s', j)
    {
      assert CallRight(s, j);
      var i := s.calls[j].id;
      assert s'.objects[i] == s.objects[i] || s.objects[i].phase == Reserved;
    }
  }

  lemma EnterKeepsCalls(s: State, id: nat, cb: Callback)
    requires Inv(s) && MayEnter(s, id, cb)
    ensures var s' := EnterBox(s, id, s.objects[id].addr, cb);
            !s'.fault && CallsInv(s') && s' == s.(calls := s'.calls)
  {
    var s', n := EnterBox(s, id, s.objects[id].addr, cb), |s.calls|;
    assert ObjectRight(s, id);
    forall j | 0 <= j < n
      ensures CallRight(s', j)
    {
      assert CallRight(s, j);
      assert s'.calls[j] == s.calls[j];
    }
    assert s'.written[..|s.written|] == s.written;
    assert CallRight(s', n);
  }

  lemma WriteKeepsCalls(s: State, c: Call, value: int)
    requires CallsInv(s) && c.addr in s.heap
    ensures CallsInv(WriteBox(s, c, value))
  {
    var s' := WriteBox(s, c, value);
    forall j | 0 <= j < |s.calls|
      ensures CallRight(s', j)
    {
      assert CallRight(s, j);
      assert s'.written[..s.calls[j].at] == s.written[..s.calls[j].at];
    }
  }

  function Closed(s: State, k: nat): State
    requires k < |s.calls|
  {
    s.(calls := s.calls[k := s.calls[k].(open := false)])
  }

  lemma LeaveKeepsCalls(s: State, k: nat)
    requires Inv(s) && Running(s, k)
    ensures CallsInv(LeaveBox(s, k))
  {
    var s', c := LeaveBox(s, k), s.calls[k];
    assert CallRight(s, k) && ObjectRight(s, c.id);
    forall j | 0 <= j < |s.calls|
      ensures CallRight(s', j)
    {
      assert CallRight(s, j);
      if c.cb == Free && j != k && s.calls[j].id == c.id {
        assert j < k;
      }
    }
  }

  lemma LeaveKeepsHeap(s: State, k: nat)
    requires Inv(s) && Running(s, k)
    ensures HeapInv(LeaveBox(s, k))
  {
    var c := s.calls[k];
    assert CallRight(s, k);
    SameHeapInv(s, Closed(s, k));
    if c.cb == Free {
      DeathKeepsHeap(Closed(s, k), c.id);
    }
  }

  // ----- every run

  lemma StepKeepsInv(s: State, e: Event)
    requires Inv(s)
    ensures Inv(Step(s, e))
  {
    match e
    case Assign(v, value) =>
      SameHeapInv(s, Step(s, e));
      PhaseKeepsCalls(s, Step(s, e));
    case Reserve(fns, v, addr) =>
      if v < |s.vars| && addr !in s.heap {
        ReserveKeepsHeap(s, fns, v, addr);
        PhaseKeepsCalls(s, Step(s, e));
      }
    case StartOk(id) =>
      if id < |s.objects| && s.objects[id].phase == Reserved {
        StartOkKeepsHeap(s, id);
        PhaseKeepsCalls(s, Step(s, e));
      }
    case StartFail(id) =>
      if id < |s.objects| && s.objects[id].phase == Reserved {
        DeathKeepsHeap(s, id);
        assert ObjectRight(s, id);
        PhaseKeepsCalls(s, Step(s, e));
      }
    case Enter(id, cb) =>
      if MayEnter(s, id, cb) {
        EnterKeepsCalls(s, id, cb);
        SameHeapInv(s, Step(s, e));
      }
    case SetExtra(k, value) =>
      if Running(s, k) {
        assert CallRight(s, k);
        WriteKeepsHeap(s, s.calls[k], value);
        WriteKeepsCalls(s, s.calls[k], value);
      }
    case Leave(k) =>
      if Running(s, k) {
        LeaveKeepsHeap(s, k);
        LeaveKeepsCalls(s, k);
      }
  }

  lemma {:induction false} RunKeepsInv(vars: seq<int>, events: seq<Event>)
    ensures Inv(Run(Init(vars), events))
  {
    if events != [] {
      RunKeepsInv(vars, events[..|events| - 1]);
      StepKeepsInv(Run(Init(vars), events[..|events| - 1]), events[|events| - 1]);
    }
  }

  /** The addresses of the boxes that should be there: of what is reserved or started and not gone. */
  ghost function LiveAddrs(s: State): set<Addr> {
    set id | 0 <= id < |s.objects| && Live(s.objects[id]) :: s.objects[id].addr
  }

  /** Which procedure is called in which role: a request's own query, free or cancel procedure, a data representation's
      own read, write or extent procedure, and neither in the other's roles. */
  predicate IsCalledFor(fns: Fns, cb: Callback, callee: Proc) {
    match cb
    case Query => fns.GrequestFns? && callee == fns.query
    case Free => fns.GrequestFns? && callee == fns.free
    case Cancel => fns.GrequestFns? && callee == fns.cancel
    case Read => fns.DatarepFns? && callee == fns.read
    case Write => fns.DatarepFns? && callee == fns.write
    case Extent => fns.DatarepFns? && callee == fns.extent
  }

  lemma CalleeIsCalledFor(fns: Fns, cb: Callback, callee: Proc)
    ensures Callee(fns, cb) == Some(callee) <==> IsCalledFor(fns, cb, callee)
  {
  }

  /** Over every run: no trampoline, no procedure and no release touches a box that is not there; the boxes that are
      there are exactly those of live requests and data representations, one each; and each call, open or not, is
      right. */
  lemma BoxesAreRight(vars: seq<int>, events: seq<Event>)
    ensures var s := Run(Init(vars), events);
            && !s.fault
            && s.heap.Keys == LiveAddrs(s)
            && (forall i, j :: 0 <= i < j < |s.objects| && Live(s.objects[i]) && Live(s.objects[j]) ==>
                  s.objects[i].addr != s.objects[j].addr)
            && (forall j :: 0 <= j < |s.calls| ==> CallRight(s, j))
            && (forall j :: 0 <= j < |s.calls| ==>
                  s.calls[j].id < |s.objects| && IsCalledFor(s.objects[s.calls[j].id].fns, s.calls[j].cb, s.calls[j].callee))
            && (forall j :: 0 <= j < |s.calls| && s.calls[j].open ==> s.calls[j].addr in s.heap)
  {
    RunKeepsInv(vars, events);
    var s := Run(Init(vars), events);
    forall a
      ensures a in s.heap <==> a in LiveAddrs(s)
    {
      if a in s.heap {
        assert HasOwner(s, a);
      }
      if a in LiveAddrs(s) {
        var id :| 0 <= id < |s.objects| && Live(s.objects[id]) && s.objects[id].addr == a;
        assert ObjectRight(s, id);
      }
    }
    forall j | 0 <= j < |s.calls|
      ensures s.calls[j].id < |s.objects| && IsCalledFor(s.objects[s.calls[j].id].fns, s.calls[j].cb, s.calls[j].callee)
      ensures s.calls[j].open ==> s.calls[j].addr in s.heap
    {
      assert CallRight(s, j);
      assert ObjectRight(s, s.calls[j].id);
      CalleeIsCalledFor(s.objects[s.calls[j].id].fns, s.calls[j].cb, s.calls[j].callee);
    }
  }

  // ----- what each event brings about

  predicate InFamily(fns: Fns, cb: Callback) {
    if fns.GrequestFns? then cb in {Query, Free, Cancel} else cb in {Read, Write, Extent}
  }

  /** A callback that MPI may make is made: of the object it is for, in the role it is for, to the object's procedure for
      that role, which finds what is in the box; and nothing else changes. */
  lemma EnterCalls(s: State, id: nat, cb: Callback)
    requires Inv(s) && id < |s.objects| && s.objects[id].phase == Started && InFamily(s.objects[id].fns, cb)
    requires s.objects[id].fns.GrequestFns? ==> forall k :: 0 <= k < |s.calls| && s.calls[k].open ==> s.calls[k].id != id
    ensures var s', o := Step(s, Enter(id, cb)), s.objects[id];
            && o.addr in s.heap && |s'.calls| == |s.calls| + 1 && s' == s.(calls := s'.calls) && s.calls <= s'.calls
            && var c := s'.calls[|s.calls|];
               c.id == id && c.cb == cb && c.addr == o.addr && c.open
               && IsCalledFor(o.fns, cb, c.callee) && c.before == s.heap[o.addr].extraState
  {
    assert ObjectRight(s, id);
    assert Callee(s.objects[id].fns, cb) != None;
    CalleeIsCalledFor(s.objects[id].fns, cb, Callee(s.objects[id].fns, cb).value);
  }

  /** What a running procedure assigns to its extra state is in its own object's box, and in no other. */
  lemma SetExtraReachesBox(s: State, k: nat, value: int)
    requires Inv(s) && k < |s.calls| && s.calls[k].open
    ensures var s', a := Step(s, SetExtra(k, value)), s.calls[k].addr;
            && s.calls[k].id < |s.objects| && a == s.objects[s.calls[k].id].addr && a in s.heap
            && s'.heap == s.heap[a := s.heap[a].(extraState := value)]
            && s'.objects == s.objects && s'.calls == s.calls && s'.vars == s.vars
  {
    assert CallRight(s, k);
    assert ObjectRight(s, s.calls[k].id);
  }

  /** A call that returns is over; and if it is the free callback, its object and the box are gone. */
  lemma LeaveReleases(s: State, k: nat)
    requires Inv(s) && k < |s.calls| && s.calls[k].open
    ensures var s', c := Step(s, Leave(k)), s.calls[k];
            && c.id < |s.objects| && s'.calls == s.calls[k := c.(open := false)]
            && if c.cb == Free
               then s'.heap == s.heap - {c.addr} && s'.objects == s.objects[c.id := s.objects[c.id].(phase := Gone)]
               else s'.heap == s.heap && s'.objects == s.objects
  {
    assert CallRight(s, k);
    assert ObjectRight(s, s.calls[k].id);
  }

  /** What MPI answers to a start decides: the object is started, or it and its box are gone. */
  lemma StartDecides(s: State, id: nat)
    requires Inv(s) && id < |s.objects| && s.objects[id].phase == Reserved
    ensures Step(s, StartOk(id)) == s.(objects := s.objects[id := s.objects[id].(phase := Started)])
    ensures Step(s, StartFail(id))
         == s.(heap := s.heap - {s.objects[id].addr}, objects := s.objects[id := s.objects[id].(phase := Gone)])
  {
    assert ObjectRight(s, id);
  }

  /** Between assignments by an object's own procedures, its extra state stays, whatever else happens. */
  lemma ExtraStateStays(s: State, e: Event, id: nat)
    requires Inv(s) && id < |s.objects| && Live(s.objects[id])
    requires id < |Step(s, e).objects| && Live(Step(s, e).objects[id])
    requires !(e.SetExtra? && Running(s, e.k) && s.calls[e.k].id == id)
    ensures var a := s.objects[id].addr;
            a in s.heap && a in Step(s, e).heap && Step(s, e).heap[a].extraState == s.heap[a].extraState
  {
    StepKeepsInv(s, e);
    StepKeepsStart(s, e, id);
    assert ObjectRight(s, id) && ObjectRight(Step(s, e), id);
    if e.SetExtra? && Running(s, e.k) {
      assert CallRight(s, e.k);
      var value := e.value;
      assert (s.written + [Assignment(s.calls[e.k].id, value)])[..|s.written|] == s.written;
    }
  }

  /** The procedures that an object is started with, and the value that the caller's variable has then, are those of all
      its calls, ever after. */
  lemma StartedWith(vars: seq<int>, earlier: seq<Event>, fns: Fns, v: nat, addr: Addr, later: seq<Event>)
    requires v < |vars| && addr !in Run(Init(vars), earlier).heap
    ensures var id := |Run(Init(vars), earlier).objects|;
            var s := Run(Init(vars), earlier + [Reserve(fns, v, addr)] + later);
            && id < |s.objects| && s.objects[id].fns == fns && s.objects[id].initial == Assigned(vars, earlier, v)
            && forall j :: 0 <= j < |s.calls| && s.calls[j].id == id ==> IsCalledFor(fns, s.calls[j].cb, s.calls[j].callee)
  {
    var s0, e := Run(Init(vars), earlier), Reserve(fns, v, addr);
    VariablesAreTheCallers(vars, earlier, v);
    RunNext(Init(vars), earlier, e);
    RunConcat(Init(vars), earlier + [e], later);
    InitialIsFixed(Step(s0, e), later, |s0.objects|);
    BoxesAreRight(vars, earlier + [e] + later);
  }

  lemma RunNext(s: State, events: seq<Event>, e: Event)
    ensures Run(s, events + [e]) == Step(Run(s, events), e)
  {
    assert (events + [e])[..|events|] == events;
  }

  lemma {:induction false} RunConcat(s: State, a: seq<Event>, b: seq<Event>)
    ensures Run(s, a + b) == Run(Run(s, a), b)
  {
    if b == [] {
      assert a + b == a;
    } else {
      assert (a + b)[..|a + b| - 1] == a + b[..|b| - 1];
      RunConcat(s, a, b[..|b| - 1]);
    }
  }

  lemma StepKeepsStart(s: State, e: Event, id: nat)
    requires id < |s.objects|
    ensures id < |Step(s, e).objects|
    ensures var o, o' := s.objects[id], Step(s, e).objects[id];
            o'.initial == o.initial && o'.fns == o.fns && o'.addr == o.addr
  {
  }

  lemma StepKeepsDatarep(s: State, e: Event, id: nat)
    requires Inv(s) && id < |s.objects| && s.objects[id].phase == Started && s.objects[id].fns.DatarepFns?
    ensures id < |Step(s, e).objects| && Step(s, e).objects[id] == s.objects[id]
  {
    if e.Leave? && Running(s, e.k) {
      assert CallRight(s, e.k);
    }
  }

  /** A data representation that MPI has registered is there for good, box and all. */
  lemma {:induction false} DatarepStays(s: State, events: seq<Event>, id: nat)
    requires Inv(s) && id < |s.objects| && s.objects[id].phase == Started && s.objects[id].fns.DatarepFns?
    ensures var s' := Run(s, events);
            Inv(s') && id < |s'.objects| && s'.objects[id] == s.objects[id] && s.objects[id].addr in s'.heap
  {
    if events == [] {
      assert ObjectRight(s, id);
    } else {
      DatarepStays(s, events[..|events| - 1], id);
      var init, last := Run(s, events[..|events| - 1]), events[|events| - 1];
      StepKeepsInv(init, last);
      StepKeepsDatarep(init, last, id);
      assert ObjectRight(Step(init, last), id);
    }
  }

  /** The value that the caller gave a variable last. */
  function Assigned(vars: seq<int>, events: seq<Event>, v: nat): int
    requires v < |vars|
  {
    if events == [] then vars[v]
    else
      match events[|events| - 1]
      case Assign(w, value) => if w == v then value else Assigned(vars, events[..|events| - 1], v)
      case _ => Assigned(vars, events[..|events| - 1], v)
  }

  /** The caller's variables are the caller's: no callback writes them, whatever it does to its extra state, and an
      extra state is the variable's value when the request was started, whatever the caller does to it later. */
  lemma {:induction false} VariablesAreTheCallers(vars: seq<int>, events: seq<Event>, v: nat)
    requires v < |vars|
    ensures var s := Run(Init(vars), events);
            && |s.vars| == |vars| && s.vars[v] == Assigned(vars, events, v)
            && forall fns, addr :: addr !in s.heap ==>
                 var o := Step(s, Reserve(fns, v, addr)).objects;
                 |o| == |s.objects| + 1 && o[|s.objects|].initial == Assigned(vars, events, v)
  {
    if events != [] {
      VariablesAreTheCallers(vars, events[..|events| - 1], v);
    }
  }

  /** What an object was started with never changes. */
  lemma {:induction false} InitialIsFixed(s: State, events: seq<Event>, id: nat)
    requires id < |s.objects|
    ensures var s' := Run(s, events);
            && id < |s'.objects|
            && s'.objects[id].initial == s.objects[id].initial && s'.objects[id].fns == s.objects[id].fns
  {
    if events != [] {
      InitialIsFixed(s, events[..|events| - 1], id);
      StepKeepsStart(Run(s, events[..|events| - 1]), events[|events| - 1], id);
    }
  }
}
