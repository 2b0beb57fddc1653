/** The collective half of mpif_check_environment as a protocol: any number of ranks, each on its way through its calls.
    All make the same ones, whatever MPI lets run ahead; every job comes to an end, and to the right one. */
module CollectiveCheck {
  import opened FieldAgreement
  import opened NodeLayout
  import opened Options

  /** The calls that involve other ranks, in the order in which the function makes them. */
  datatype Op = CommDup | AllreduceMin | AllreduceMax | Bcast | Sendrecv | Reduce | Gather | CommFree

  const COMMON := [CommDup, AllreduceMin, AllreduceMax, Bcast, Sendrecv, Reduce]

  function Script(gather: bool): seq<Op> {
    if gather then COMMON + [Gather, CommFree] else COMMON + [CommFree]
  }

  /** Whether to gather: by the maxima, as the source does, or, for comparison, by what the rank itself states. */
  datatype Policy = ByMaxima | ByOwnFields

  predicate States(fields: seq<int>)
    requires |fields| == NFIELDS
  {
    fields[NUM_NODES] > 0 || fields[NODE_SIZE] > 0
  }

  /** One rank: the calls it has made, whether it still waits in the last, and what the reductions gave it. */
  datatype Rank = Rank(ops: seq<Op>, waiting: bool, vmin: seq<int>, vmax: seq<int>)

  datatype State = State(ranks: seq<Rank>, aborted: bool)

  datatype Event = Make(r: nat) | Finish(r: nat)

  /** When MPI lets a call return: as soon as the caller has what it is to get (MPI-5.0, section 6.1), or, at the latest,
      when all ranks that take part have made it. */
  datatype Rule = Earliest | Latest

  datatype Job = Job(policy: Policy, rule: Rule, inputs: seq<Input>)

  /** The records that the root gathers. */
  function Gathered(inputs: seq<Input>): seq<Name> {
    seq(|inputs|, r requires 0 <= r < |inputs| => inputs[r].name)
  }

  const NOTHING := seq(NFIELDS, _ => 0)

  function Init(n: nat): State {
    State(seq(n, _ => Rank([], false, NOTHING, NOTHING)), false)
  }

  ghost predicate Sane(job: Job, s: State) {
    && WellFormed(job.inputs) && |s.ranks| == |job.inputs|
    && forall r :: 0 <= r < |s.ranks| ==> |s.ranks[r].vmin| == |s.ranks[r].vmax| == NFIELDS
  }

  predicate Decides(job: Job, r: nat, rank: Rank)
    requires r < |job.inputs| && |job.inputs[r].fields| == |rank.vmax| == NFIELDS
  {
    if job.policy == ByMaxima then States(rank.vmax) else States(job.inputs[r].fields)
  }

  /** The call that a rank makes next. */
  function NextOp(job: Job, r: nat, rank: Rank): Option<Op>
    requires r < |job.inputs| && |job.inputs[r].fields| == |rank.vmax| == NFIELDS
  {
    var k := |rank.ops|;
    if k < |COMMON| then Some(COMMON[k])
    else
      var script := Script(Decides(job, r, rank));
      if k < |script| then Some(script[k]) else None
  }

  /** Rank q has made the call that rank p waits in. */
  predicate Meets(p: Rank, q: Rank) {
    |p.ops| > 0 && |q.ops| >= |p.ops| && q.ops[|p.ops| - 1] == p.ops[|p.ops| - 1]
  }

  function Right(r: nat, n: nat): nat
    requires n > 0
  {
    (r + 1) % n
  }

  function Left(r: nat, n: nat): nat
    requires n > 0
  {
    (r + n - 1) % n
  }

  predicate AllMeet(s: State, p: Rank) {
    forall q :: 0 <= q < |s.ranks| ==> Meets(p, s.ranks[q])
  }

  /** At the earliest, a reduction to all ranks needs all of them, one to the root only at the root, like the gather; a
      broadcast needs the root; the exchange in the ring needs the left neighbour, who sends. Duplicating and freeing
      the communicator need nobody. At the latest, the exchange needs both neighbours and all else every rank. */
  predicate MayFinish(rule: Rule, s: State, r: nat)
    requires r < |s.ranks|
  {
    var p, n := s.ranks[r], |s.ranks|;
    p.waiting && |p.ops| > 0 &&
    match p.ops[|p.ops| - 1]
    case AllreduceMin => AllMeet(s, p)
    case AllreduceMax => AllMeet(s, p)
    case Bcast => if rule == Earliest then Meets(p, s.ranks[0]) else AllMeet(s, p)
    case Sendrecv => Meets(p, s.ranks[Left(r, n)]) && (rule == Latest ==> Meets(p, s.ranks[Right(r, n)]))
    case Reduce => (rule == Earliest && r != 0) || AllMeet(s, p)
    case Gather => (rule == Earliest && r != 0) || AllMeet(s, p)
    case CommDup => rule == Earliest || AllMeet(s, p)
    case CommFree => rule == Earliest || AllMeet(s, p)
  }

  lemma LatestIsLater(s: State, r: nat)
    requires r < |s.ranks| && MayFinish(Latest, s, r)
    ensures MayFinish(Earliest, s, r)
  {
  }

  /** What a rank learns when a call returns. */
  function Learn(job: Job, rank: Rank): Rank
    requires WellFormed(job.inputs) && |rank.ops| > 0
  {
    match rank.ops[|rank.ops| - 1]
    case AllreduceMin => rank.(waiting := false, vmin := Mins(job.inputs))
    case AllreduceMax => rank.(waiting := false, vmax := Maxs(job.inputs))
    case _ => rank.(waiting := false)
  }

  /** Whether what it then checks makes it abort the job. */
  ghost predicate Aborts(job: Job, r: nat, rank: Rank)
    requires WellFormed(job.inputs) && r < |job.inputs| && |rank.ops| > 0 && |rank.vmin| == |rank.vmax| == NFIELDS
  {
    match rank.ops[|rank.ops| - 1]
    case AllreduceMax => !FieldsPass(job.inputs[r].fields, rank.vmin, rank.vmax)
    case Bcast => job.inputs[r].library != job.inputs[0].library
    case Gather => r == 0 && !LayoutHolds(Gathered(job.inputs), rank.vmax[NUM_NODES], rank.vmax[NODE_SIZE])
    case _ => false
  }

  /** One step of one rank; once a rank has aborted, the whole job stands still. An event that is not possible changes
      nothing. */
  ghost function Step(job: Job, s: State, e: Event): State
    requires Sane(job, s)
  {
    if s.aborted || e.r >= |s.ranks| then s else
    var rank := s.ranks[e.r];
    match e
    case Make(r) =>
      var op := NextOp(job, r, rank);
      if rank.waiting || op == None then s
      else s.(ranks := s.ranks[r := rank.(ops := rank.ops + [op.value], waiting := true)])
    case Finish(r) =>
      if !MayFinish(job.rule, s, r) then s
      else State(s.ranks[r := Learn(job, rank)], Aborts(job, r, Learn(job, rank)))
  }

  lemma StepSane(job: Job, s: State, e: Event)
    requires Sane(job, s)
    ensures Sane(job, Step(job, s, e))
  {
  }

  ghost function Run(job: Job, events: seq<Event>): (s: State)
    requires WellFormed(job.inputs)
    ensures Sane(job, s)
  {
    if events == [] then Init(|job.inputs|)
    else
      var s := Run(job, events[..|events| - 1]);
      StepSane(job, s, events[|events| - 1]);
      Step(job, s, events[|events| - 1])
  }

  predicate Done(job: Job, s: State, r: nat)
    requires Sane(job, s) && r < |s.ranks|
  {
    !s.ranks[r].waiting && NextOp(job, r, s.ranks[r]) == None
  }

  // ----- one sequence of calls

  /** How many of its calls have returned. */
  function Returned(rank: Rank): int {
    |rank.ops| - if rank.waiting then 1 else 0
  }

  predicate Gathers(job: Job)
    requires WellFormed(job.inputs)
  {
    States(Maxs(job.inputs))
  }

  /** The root's verdict on what it gathers. */
  ghost predicate VerdictHolds(job: Job)
    requires WellFormed(job.inputs)
  {
    LayoutHolds(Gathered(job.inputs), Maxs(job.inputs)[NUM_NODES], Maxs(job.inputs)[NODE_SIZE])
  }

  /** The rank follows the job's one script, knows the reductions that have returned, and has passed its checks. */
  ghost predicate RankRight(job: Job, r: nat, rank: Rank, aborted: bool)
    requires WellFormed(job.inputs) && r < |job.inputs|
  {
    && rank.ops <= Script(Gathers(job)) && (rank.waiting ==> |rank.ops| > 0)
    && (Returned(rank) >= 2 ==> rank.vmin == Mins(job.inputs))
    && (Returned(rank) >= 3 ==> rank.vmax == Maxs(job.inputs))
    && (!aborted && Returned(rank) >= 3 ==> FieldsPass(job.inputs[r].fields, Mins(job.inputs), Maxs(job.inputs)))
    && (!aborted && Returned(rank) >= 4 ==> job.inputs[r].library == job.inputs[0].library)
    && (!aborted && r == 0 && Gathers(job) && Returned(rank) >= 7 ==> VerdictHolds(job))
  }

  /** Every rank passes every check that it makes. */
  ghost predicate ChecksPass(job: Job)
    requires WellFormed(job.inputs)
  {
    && Agreed(job.inputs)
    && (forall r :: 0 <= r < |job.inputs| ==> job.inputs[r].library == job.inputs[0].library)
    && (Gathers(job) ==> VerdictHolds(job))
  }

  ghost predicate Inv(job: Job, s: State)
    requires Sane(job, s)
  {
    && (forall r :: 0 <= r < |s.ranks| ==> RankRight(job, r, s.ranks[r], s.aborted))
    && (ChecksPass(job) ==> !s.aborted)
  }

  /** A rank on its way through a script, which decides as the script says, goes one call further. */
  lemma FollowScript(job: Job, r: nat, rank: Rank, gather: bool)
    requires r < |job.inputs| && |job.inputs[r].fields| == |rank.vmax| == NFIELDS
    requires rank.ops <= Script(gather) && (|rank.ops| >= |COMMON| ==> Decides(job, r, rank) == gather)
    ensures NextOp(job, r, rank) == None <==> |rank.ops| == |Script(gather)|
    ensures NextOp(job, r, rank).Some? ==> rank.ops + [NextOp(job, r, rank).value] <= Script(gather)
  {
  }

  lemma MakeKeepsRight(job: Job, s: State, r: nat)
    requires Sane(job, s) && job.policy == ByMaxima && Inv(job, s) && r < |s.ranks|
    ensures StepSaneInv(job, s, Make(r))
  {
    StepSane(job, s, Make(r));
    var rank := s.ranks[r];
    assert RankRight(job, r, rank, s.aborted);
    if !rank.waiting {
      FollowScript(job, r, rank, Gathers(job));
    }
  }

  ghost predicate StepSaneInv(job: Job, s: State, e: Event)
    requires Sane(job, s)
  {
    Sane(job, Step(job, s, e)) && Inv(job, Step(job, s, e))
  }

  /** Where in the script the calls stand that are followed by a check. */
  lemma ScriptAt(gather: bool, k: nat)
    requires k < |Script(gather)|
    ensures Script(gather)[k] == AllreduceMin <==> k == 1
    ensures Script(gather)[k] == AllreduceMax <==> k == 2
    ensures Script(gather)[k] == Bcast <==> k == 3
    ensures Script(gather)[k] == Gather <==> gather && k == 6
  {
  }

  /** A call that returns leaves the rank right. */
  lemma LearnKeepsRight(job: Job, r: nat, rank: Rank)
    requires WellFormed(job.inputs) && r < |job.inputs| && |rank.vmin| == |rank.vmax| == NFIELDS
    requires RankRight(job, r, rank, false) && rank.waiting
    ensures var learnt := Learn(job, rank);
            && |learnt.vmin| == |learnt.vmax| == NFIELDS
            && RankRight(job, r, learnt, Aborts(job, r, learnt))
  {
    var k := |rank.ops|;
    assert rank.ops[k - 1] == Script(Gathers(job))[k - 1];
    ScriptAt(Gathers(job), k - 1);
    var learnt := Learn(job, rank);
    assert learnt.ops == rank.ops && Returned(learnt) == k;
    if k == 2 {
      assert learnt.vmin == Mins(job.inputs);
    } else if k == 3 {
      assert learnt.vmax == Maxs(job.inputs) && learnt.vmin == Mins(job.inputs);
    } else {
      assert learnt.vmin == rank.vmin && learnt.vmax == rank.vmax;
    }
  }

  /** And in an acceptable job it does not abort. */
  lemma AcceptableGoesOn(job: Job, r: nat, rank: Rank)
    requires WellFormed(job.inputs) && r < |job.inputs| && |rank.vmin| == |rank.vmax| == NFIELDS
    requires RankRight(job, r, rank, false) && rank.waiting && ChecksPass(job)
    ensures !Aborts(job, r, Learn(job, rank))
  {
    var k := |rank.ops|;
    assert rank.ops[k - 1] == Script(Gathers(job))[k - 1];
    ScriptAt(Gathers(job), k - 1);
    AllPassIffAgreed(job.inputs);
    assert FieldsPass(job.inputs[r].fields, Mins(job.inputs), Maxs(job.inputs));
  }

  lemma FinishKeepsRight(job: Job, s: State, r: nat)
    requires Sane(job, s) && job.policy == ByMaxima && Inv(job, s) && r < |s.ranks|
    ensures StepSaneInv(job, s, Finish(r))
  {
    StepSane(job, s, Finish(r));
    assert RankRight(job, r, s.ranks[r], s.aborted);
    if !s.aborted && MayFinish(job.rule, s, r) {
      LearnKeepsRight(job, r, s.ranks[r]);
      if ChecksPass(job) {
        AcceptableGoesOn(job, r, s.ranks[r]);
      }
    }
  }

  lemma {:induction false} RunKeepsInv(job: Job, events: seq<Event>)
    requires WellFormed(job.inputs) && job.policy == ByMaxima
    ensures Inv(job, Run(job, events))
  {
    if events == [] {
    } else {
      RunKeepsInv(job, events[..|events| - 1]);
      var s, e := Run(job, events[..|events| - 1]), events[|events| - 1];
      if e.r < |s.ranks| {
        match e
        case Make(r) => MakeKeepsRight(job, s, r);
        case Finish(r) => FinishKeepsRight(job, s, r);
      }
    }
  }

  /** A rank is done when it has been through the whole script. */
  lemma DoneMeansScript(job: Job, s: State, r: nat)
    requires Sane(job, s) && job.policy == ByMaxima && Inv(job, s) && r < |s.ranks|
    ensures RankRight(job, r, s.ranks[r], s.aborted)
    ensures Done(job, s, r) <==> !s.ranks[r].waiting && |s.ranks[r].ops| == |Script(Gathers(job))|
  {
  }

  predicate AllDone(job: Job, s: State)
    requires Sane(job, s)
  {
    forall r :: 0 <= r < |s.ranks| ==> Done(job, s, r)
  }

  // ----- what a job must be

  /** The names that the ranks run under. */
  ghost function NodesOf(inputs: seq<Input>): set<Name> {
    set r | 0 <= r < |inputs| :: inputs[r].name
  }

  /** The ranks are spread over nodes as the largest statements say, where they say anything: so many nodes, and so many
      ranks on each. */
  ghost predicate LayoutAsStated(job: Job)
    requires WellFormed(job.inputs)
  {
    && (Maxs(job.inputs)[NUM_NODES] > 0 ==> |NodesOf(job.inputs)| == Maxs(job.inputs)[NUM_NODES])
    && (Maxs(job.inputs)[NODE_SIZE] > 0 ==>
          forall r :: 0 <= r < |job.inputs| ==>
            multiset(Gathered(job.inputs))[job.inputs[r].name] == Maxs(job.inputs)[NODE_SIZE])
  }

  /** The root's verdict on what it gathers is that; and where it does not gather, nothing was said. */
  lemma VerdictIsLayout(job: Job)
    requires WellFormed(job.inputs)
    ensures LayoutAsStated(job) <==> VerdictHolds(job)
    ensures !Gathers(job) ==> LayoutAsStated(job)
  {
    var names := Gathered(job.inputs);
    forall r | 0 <= r < |job.inputs|
      ensures job.inputs[r].name in names
    {
      assert names[r] == job.inputs[r].name;
    }
    assert NodesOf(job.inputs) == Distinct(names);
  }

  /** The ranks agree, they loaded one library, and the layout is as stated. */
  ghost predicate Acceptable(job: Job)
    requires WellFormed(job.inputs)
  {
    && Agreed(job.inputs)
    && (forall r, q :: 0 <= r < |job.inputs| && 0 <= q < |job.inputs| ==> job.inputs[r].library == job.inputs[q].library)
    && LayoutAsStated(job)
  }

  /** What is checked is what is asked. */
  lemma AcceptableIff(job: Job)
    requires WellFormed(job.inputs)
    ensures Acceptable(job) <==> ChecksPass(job)
  {
    VerdictIsLayout(job);
  }

  /** The whole sequence of calls: the gather is in it exactly if some rank states how many nodes or how many ranks on
      each. */
  ghost function AllCalls(job: Job): seq<Op>
    requires WellFormed(job.inputs)
  {
    if (exists r :: 0 <= r < |job.inputs| && (job.inputs[r].fields[7] > 0 || job.inputs[r].fields[8] > 0))
    then [CommDup, AllreduceMin, AllreduceMax, Bcast, Sendrecv, Reduce, Gather, CommFree]
    else [CommDup, AllreduceMin, AllreduceMax, Bcast, Sendrecv, Reduce, CommFree]
  }

  lemma AllCallsAreScript(job: Job)
    requires WellFormed(job.inputs)
    ensures AllCalls(job) == Script(Gathers(job))
  {
    var most, size := Greatest(job.inputs, NUM_NODES), Greatest(job.inputs, NODE_SIZE);
    var p :| 0 <= p < |job.inputs| && most == job.inputs[p].fields[NUM_NODES];
    var q :| 0 <= q < |job.inputs| && size == job.inputs[q].fields[NODE_SIZE];
    if Gathers(job) {
      assert job.inputs[p].fields[7] > 0 || job.inputs[q].fields[8] > 0;
    }
  }

  /** Whatever the ranks state, however they interleave and however early MPI lets calls return, they make the same
      calls in the same order, as far as each has come, and a rank that is done has made them all. A job that is
      acceptable is never aborted, and one that is not never comes to its end. */
  lemma SameCollectives(job: Job, events: seq<Event>)
    requires WellFormed(job.inputs) && job.policy == ByMaxima
    ensures var s := Run(job, events);
            && (forall r :: 0 <= r < |s.ranks| ==> s.ranks[r].ops <= AllCalls(job))
            && (forall r :: 0 <= r < |s.ranks| && Done(job, s, r) ==> s.ranks[r].ops == AllCalls(job))
            && (Acceptable(job) ==> !s.aborted)
            && (!Acceptable(job) && !s.aborted ==> !AllDone(job, s))
  {
    RunKeepsInv(job, events);
    AllCallsAreScript(job);
    AcceptableIff(job);
    var s := Run(job, events);
    forall r | 0 <= r < |s.ranks|
      ensures s.ranks[r].ops <= AllCalls(job)
      ensures Done(job, s, r) ==> s.ranks[r].ops == AllCalls(job)
    {
      DoneMeansScript(job, s, r);
    }
    if !s.aborted && AllDone(job, s) {
      DoneMeansChecked(job, s);
    }
  }

  lemma DoneMeansChecked(job: Job, s: State)
    requires Sane(job, s) && job.policy == ByMaxima && Inv(job, s) && !s.aborted && AllDone(job, s)
    ensures ChecksPass(job)
  {
    forall r | 0 <= r < |s.ranks|
      ensures FieldsPass(job.inputs[r].fields, Mins(job.inputs), Maxs(job.inputs))
      ensures job.inputs[r].library == job.inputs[0].library
    {
      DoneMeansScript(job, s, r);
    }
    DoneMeansScript(job, s, 0);
    AllPassIffAgreed(job.inputs);
  }

  // ----- no hang

  /** The rank that has made the fewest calls. */
  lemma {:induction false} Hindmost(ranks: seq<Rank>) returns (p: nat)
    requires |ranks| > 0
    ensures p < |ranks| && forall q :: 0 <= q < |ranks| ==> |ranks[p].ops| <= |ranks[q].ops|
  {
    if |ranks| == 1 {
      p := 0;
    } else {
      p := Hindmost(ranks[..|ranks| - 1]);
      assert forall q :: 0 <= q < |ranks| - 1 ==> ranks[..|ranks| - 1][q] == ranks[q];
      if |ranks[|ranks| - 1].ops| < |ranks[p].ops| {
        p := |ranks| - 1;
      }
    }
  }

  /** A rank waiting in a call that every rank has reached may go on. */
  lemma ReachedByAll(job: Job, s: State, p: nat)
    requires Sane(job, s) && job.policy == ByMaxima && Inv(job, s) && p < |s.ranks| && s.ranks[p].waiting
    requires forall q :: 0 <= q < |s.ranks| ==> |s.ranks[p].ops| <= |s.ranks[q].ops|
    ensures MayFinish(Latest, s, p) && MayFinish(job.rule, s, p)
  {
    assert RankRight(job, p, s.ranks[p], s.aborted);
    forall q | 0 <= q < |s.ranks|
      ensures Meets(s.ranks[p], s.ranks[q])
    {
      assert RankRight(job, q, s.ranks[q], s.aborted);
    }
    LatestIsLater(s, p);
  }

  /** What a rank that can go on does next. */
  ghost predicate Possible(s: State, job: Job, e: Event)
    requires Sane(job, s)
  {
    && e.r < |s.ranks|
    && match e
       case Make(r) => !s.ranks[r].waiting && NextOp(job, r, s.ranks[r]) != None
       case Finish(r) => MayFinish(Latest, s, r) && MayFinish(job.rule, s, r)
  }

  lemma PossibleChanges(job: Job, s: State, e: Event)
    requires Sane(job, s) && Possible(s, job, e) && !s.aborted
    ensures Step(job, s, e) != s
  {
  }

  /** While some rank is not done, the hindmost can go on; or, if that is done, whoever is not. */
  lemma SomeoneCanGoOn(job: Job, s: State) returns (e: Event)
    requires Sane(job, s) && job.policy == ByMaxima && Inv(job, s) && !AllDone(job, s)
    ensures Possible(s, job, e)
  {
    var p := Hindmost(s.ranks);
    DoneMeansScript(job, s, p);
    if s.ranks[p].waiting {
      ReachedByAll(job, s, p);
      e := Finish(p);
    } else if |s.ranks[p].ops| < |Script(Gathers(job))| {
      e := Make(p);
    } else {
      var r :| 0 <= r < |s.ranks| && !Done(job, s, r);
      DoneMeansScript(job, s, r);
      assert s.ranks[r].ops <= Script(Gathers(job));
      forall q | 0 <= q < |s.ranks|
        ensures |s.ranks[r].ops| <= |s.ranks[q].ops|
      {
        DoneMeansScript(job, s, q);
      }
      ReachedByAll(job, s, r);
      e := Finish(r);
    }
  }

  /** As long as the job is not aborted and some rank is not done, some rank can take a step, even if from here on MPI
      makes every rank wait for every other in each collective. */
  lemma NeverHangs(job: Job, events: seq<Event>) returns (e: Event)
    requires WellFormed(job.inputs) && job.policy == ByMaxima
    requires !Run(job, events).aborted && !AllDone(job, Run(job, events))
    ensures var s := Run(job, events);
            Step(job.(rule := Latest), s, e) != s && Step(job, s, e) != s
  {
    var s := Run(job, events);
    RunKeepsInv(job, events);
    e := SomeoneCanGoOn(job, s);
    PossibleChanges(job, s, e);
    PossibleChanges(job.(rule := Latest), s, e);
  }

  // ----- every job comes to an end

  /** A rank's progress: one for each call made and one for each that has returned. */
  function Steps(rank: Rank): int {
    |rank.ops| + Returned(rank)
  }

  function Progress(ranks: seq<Rank>): int {
    if ranks == [] then 0 else Progress(ranks[..|ranks| - 1]) + Steps(ranks[|ranks| - 1])
  }

  const MOST := 2 * |Script(true)|

  ghost predicate Bounded(s: State) {
    forall r :: 0 <= r < |s.ranks| ==> 0 <= Steps(s.ranks[r]) <= MOST && (s.ranks[r].waiting ==> |s.ranks[r].ops| > 0)
  }

  lemma {:induction false} ProgressBound(ranks: seq<Rank>)
    requires forall r :: 0 <= r < |ranks| ==> Steps(ranks[r]) <= MOST
    ensures Progress(ranks) <= MOST * |ranks|
  {
    if ranks != [] {
      ProgressBound(ranks[..|ranks| - 1]);
    }
  }

  lemma {:induction false} ProgressUpdate(ranks: seq<Rank>, r: nat, rank: Rank)
    requires r < |ranks|
    ensures Progress(ranks[r := rank]) == Progress(ranks) - Steps(ranks[r]) + Steps(rank)
  {
    var last := |ranks| - 1;
    if r < last {
      ProgressUpdate(ranks[..last], r, rank);
      assert ranks[r := rank][..last] == ranks[..last][r := rank];
    } else {
      assert ranks[r := rank][..last] == ranks[..last];
    }
  }

  /** A step that has an effect takes one rank one step further. */
  lemma StepMovesOne(job: Job, s: State, e: Event)
    requires Sane(job, s) && Bounded(s) && Step(job, s, e) != s
    ensures var s' := Step(job, s, e);
            && e.r < |s.ranks| == |s'.ranks| && s'.ranks == s.ranks[e.r := s'.ranks[e.r]]
            && Steps(s'.ranks[e.r]) == Steps(s.ranks[e.r]) + 1 <= MOST
            && (s'.ranks[e.r].waiting ==> |s'.ranks[e.r].ops| > 0)
  {
  }

  /** A step that has an effect is one step of progress. */
  lemma StepProgresses(job: Job, s: State, e: Event)
    requires Sane(job, s) && Bounded(s)
    ensures Sane(job, Step(job, s, e)) && Bounded(Step(job, s, e))
    ensures Progress(Step(job, s, e).ranks) == Progress(s.ranks) + if Step(job, s, e) != s then 1 else 0
  {
    StepSane(job, s, e);
    if Step(job, s, e) != s {
      StepMovesOne(job, s, e);
      ProgressUpdate(s.ranks, e.r, Step(job, s, e).ranks[e.r]);
    }
  }

  lemma {:induction false} NoProgressYet(n: nat)
    ensures Progress(Init(n).ranks) == 0
  {
    if n > 0 {
      NoProgressYet(n - 1);
      assert Init(n).ranks[..n - 1] == Init(n - 1).ranks;
    }
  }

  /** How many events of a run have had an effect. */
  ghost function Effective(job: Job, events: seq<Event>): nat
    requires WellFormed(job.inputs)
  {
    if events == [] then 0
    else
      var init := events[..|events| - 1];
      Effective(job, init) + if Run(job, events) != Run(job, init) then 1 else 0
  }

  /** No run, by whatever rule, has more than 16 steps per rank. */
  lemma {:induction false} RunsAreBounded(job: Job, events: seq<Event>)
    requires WellFormed(job.inputs)
    ensures var s := Run(job, events);
            Bounded(s) && Effective(job, events) == Progress(s.ranks) <= MOST * |job.inputs|
  {
    if events == [] {
      NoProgressYet(|job.inputs|);
    } else {
      var init := events[..|events| - 1];
      RunsAreBounded(job, init);
      StepProgresses(job, Run(job, init), events[|events| - 1]);
    }
    ProgressBound(Run(job, events).ranks);
  }

  /** Nothing more can happen. */
  ghost predicate Stuck(job: Job, s: State)
    requires Sane(job, s)
  {
    forall e :: Step(job, s, e) == s
  }

  lemma RunNext(job: Job, events: seq<Event>, e: Event)
    requires WellFormed(job.inputs)
    ensures Run(job, events + [e]) == Step(job, Run(job, events), e)
  {
  }

  function StepsLeft(job: Job, s: State): int {
    MOST * |job.inputs| - Progress(s.ranks)
  }

  /** One step more, if there is one. */
  lemma GoesOn(job: Job, events: seq<Event>) returns (e: Event)
    requires WellFormed(job.inputs) && !Stuck(job, Run(job, events))
    ensures 0 <= StepsLeft(job, Run(job, events + [e])) < StepsLeft(job, Run(job, events))
  {
    e :| Step(job, Run(job, events), e) != Run(job, events);
    RunNext(job, events, e);
    RunsAreBounded(job, events);
    RunsAreBounded(job, events + [e]);
    StepProgresses(job, Run(job, events), e);
  }

  lemma StuckAfter(job: Job, events: seq<Event>, more: seq<Event>, all: seq<Event>)
    requires WellFormed(job.inputs) && all == events + more && Stuck(job, Run(job, all))
    ensures Stuck(job, Run(job, events + more))
  {
  }

  /** So every run can be carried on until nothing more can happen. */
  lemma {:induction false} RunsOut(job: Job, events: seq<Event>) returns (more: seq<Event>)
    requires WellFormed(job.inputs)
    ensures Stuck(job, Run(job, events + more))
    decreases StepsLeft(job, Run(job, events))
  {
    if Stuck(job, Run(job, events)) {
      assert events + [] == events;
      more := [];
    } else {
      var e := GoesOn(job, events);
      var rest := RunsOut(job, events + [e]);
      more := [e] + rest;
      StuckAfter(job, events, more, (events + [e]) + rest);
    }
  }

  /** And every run that is carried on so far ends as it should: with all ranks done if the job is acceptable, and
      aborted if not. */
  lemma EveryRunEndsRightly(job: Job, events: seq<Event>)
    requires WellFormed(job.inputs) && job.policy == ByMaxima && Stuck(job, Run(job, events))
    ensures var s := Run(job, events);
            if Acceptable(job) then !s.aborted && AllDone(job, s) else s.aborted
  {
    var s := Run(job, events);
    SameCollectives(job, events);
    if !s.aborted && !AllDone(job, s) {
      var e := NeverHangs(job, events);
      assert false;
    }
  }

  /** What a job that has come to its end says about the processes. A largest statement of nodes is how many different
      names there are; one of ranks per node is how many ranks have each name; and if there are both, they multiply to
      the number of ranks. */
  lemma DoneMeansAsStated(job: Job, events: seq<Event>)
    requires WellFormed(job.inputs) && job.policy == ByMaxima
    requires !Run(job, events).aborted && AllDone(job, Run(job, events))
    ensures var nodes, size := Maxs(job.inputs)[NUM_NODES], Maxs(job.inputs)[NODE_SIZE];
            && (nodes > 0 ==> |NodesOf(job.inputs)| == nodes)
            && (size > 0 ==> forall r :: 0 <= r < |job.inputs| ==>
                               multiset(Gathered(job.inputs))[job.inputs[r].name] == size)
            && (nodes > 0 && size > 0 ==> |job.inputs| == nodes * size)
  {
    SameCollectives(job, events);
    VerdictIsLayout(job);
    var nodes, size := Maxs(job.inputs)[NUM_NODES], Maxs(job.inputs)[NODE_SIZE];
    if nodes > 0 && size > 0 {
      LayoutIsProduct(Gathered(job.inputs), nodes, size);
    }
  }

  // ----- the ring

  lemma WrapAround(x: nat, n: nat)
    requires 0 < n
    ensures x < n ==> x % n == x
    ensures n <= x < 2 * n ==> x % n == x - n
  {
  }

  /** The ring's exchange pairs up: my left neighbour sends to me, on any number of ranks, one included. */
  lemma RingPairs(r: nat, n: nat)
    requires r < n
    ensures Right(r, n) == (if r + 1 < n then r + 1 else 0) && Left(r, n) == (if r > 0 then r - 1 else n - 1)
    ensures Left(r, n) < n && Right(Left(r, n), n) == r && Left(Right(r, n), n) == r
  {
    WrapAround(r + 1, n);
    WrapAround(r + n - 1, n);
    WrapAround(Left(r, n) + 1, n);
    WrapAround(Right(r, n) + n - 1, n);
  }

  // ----- why the decision is by the maxima

  /** By its own fields, each rank follows its own script; rank p, which gathers, is never through the gather while
      another does not; and a job whose checks otherwise pass is not aborted. */
  ghost predicate OwnScript(job: Job, r: nat, rank: Rank)
    requires WellFormed(job.inputs) && r < |job.inputs|
  {
    && rank.ops <= Script(States(job.inputs[r].fields)) && (rank.waiting ==> |rank.ops| > 0)
    && (Returned(rank) >= 2 ==> rank.vmin == Mins(job.inputs))
    && (Returned(rank) >= 3 ==> rank.vmax == Maxs(job.inputs))
  }

  ghost predicate OwnInv(job: Job, s: State, p: nat)
    requires Sane(job, s) && p < |s.ranks|
  {
    && (forall r :: 0 <= r < |s.ranks| ==> OwnScript(job, r, s.ranks[r]))
    && Returned(s.ranks[p]) <= |COMMON| && !s.aborted
  }

  /** Rank p states a node variable, and rank q does not. All agree otherwise, so that the field loop passes. Rank p is
      the root, unless MPI makes every rank wait in the gather. */
  ghost predicate SetOnSome(job: Job, p: nat, q: nat) {
    && WellFormed(job.inputs) && job.policy == ByOwnFields && p < |job.inputs| && q < |job.inputs|
    && States(job.inputs[p].fields) && !States(job.inputs[q].fields)
    && Agreed(job.inputs) && (forall r :: 0 <= r < |job.inputs| ==> job.inputs[r].library == job.inputs[0].library)
    && (p == 0 || job.rule == Latest)
  }

  /** Seventh comes the gather for one, and the end for the other. */
  lemma NeverMeet(p: Rank, q: Rank)
    requires p.ops <= Script(true) && q.ops <= Script(false) && |p.ops| == |COMMON| + 1
    ensures !Meets(p, q) && p.ops[|COMMON|] == Gather
  {
  }

  lemma OwnMake(job: Job, s: State, p: nat, q: nat, r: nat)
    requires Sane(job, s) && SetOnSome(job, p, q) && OwnInv(job, s, p)
    ensures Sane(job, Step(job, s, Make(r))) && OwnInv(job, Step(job, s, Make(r)), p)
  {
    StepSane(job, s, Make(r));
    if r < |s.ranks| {
      assert OwnScript(job, r, s.ranks[r]);
      FollowScript(job, r, s.ranks[r], States(job.inputs[r].fields));
    }
  }

  /** A rank that gathers waits for good if it is the root, or if every rank waits; and the root's gather does not
      return either. */
  lemma GatherWaits(job: Job, s: State, p: nat, q: nat, r: nat)
    requires Sane(job, s) && SetOnSome(job, p, q) && OwnInv(job, s, p)
    requires r < |s.ranks| && |s.ranks[r].ops| == |COMMON| + 1 && s.ranks[r].ops[|COMMON|] == Gather
    requires r == 0 || job.rule == Latest
    ensures !MayFinish(job.rule, s, r)
  {
    assert OwnScript(job, r, s.ranks[r]) && OwnScript(job, q, s.ranks[q]);
    NeverMeet(s.ranks[r], s.ranks[q]);
  }

  lemma OwnLearn(job: Job, r: nat, rank: Rank)
    requires WellFormed(job.inputs) && r < |job.inputs| && |rank.vmin| == |rank.vmax| == NFIELDS
    requires OwnScript(job, r, rank) && rank.waiting && Agreed(job.inputs)
    requires job.inputs[r].library == job.inputs[0].library
    requires r == 0 ==> rank.ops[|rank.ops| - 1] != Gather
    ensures OwnScript(job, r, Learn(job, rank)) && !Aborts(job, r, Learn(job, rank))
  {
    var k := |rank.ops|;
    assert rank.ops[k - 1] == Script(States(job.inputs[r].fields))[k - 1];
    ScriptAt(States(job.inputs[r].fields), k - 1);
    AllPassIffAgreed(job.inputs);
    assert FieldsPass(job.inputs[r].fields, Mins(job.inputs), Maxs(job.inputs));
  }

  lemma OwnFinish(job: Job, s: State, p: nat, q: nat, r: nat)
    requires Sane(job, s) && SetOnSome(job, p, q) && OwnInv(job, s, p)
    ensures Sane(job, Step(job, s, Finish(r))) && OwnInv(job, Step(job, s, Finish(r)), p)
  {
    StepSane(job, s, Finish(r));
    if r < |s.ranks| && MayFinish(job.rule, s, r) {
      var rank := s.ranks[r];
      assert OwnScript(job, r, rank) && OwnScript(job, p, s.ranks[p]);
      ScriptAt(States(job.inputs[r].fields), |rank.ops| - 1);
      assert rank.ops[|rank.ops| - 1] == Script(States(job.inputs[r].fields))[|rank.ops| - 1];
      if (r == 0 || r == p) && |rank.ops| == |COMMON| + 1 && rank.ops[|COMMON|] == Gather {
        GatherWaits(job, s, p, q, r);
      }
      OwnLearn(job, r, rank);
    }
  }

  lemma {:induction false} OwnRun(job: Job, events: seq<Event>, p: nat, q: nat)
    requires SetOnSome(job, p, q)
    ensures p < |Run(job, events).ranks| && OwnInv(job, Run(job, events), p)
  {
    if events != [] {
      var init := events[..|events| - 1];
      OwnRun(job, init, p, q);
      match events[|events| - 1]
      case Make(r) => OwnMake(job, Run(job, init), p, q, r);
      case Finish(r) => OwnFinish(job, Run(job, init), p, q, r);
    }
  }

  /** Were each rank to decide by its own fields, a node variable that the root states and some rank does not would hang
      the job, although the field loop accepts it and MPI lets every call return as early as it can: every run comes
      to where nothing more can happen, the job is not aborted, and the root still waits. */
  lemma OwnDecisionHangs(job: Job, events: seq<Event>, p: nat, q: nat) returns (more: seq<Event>)
    requires SetOnSome(job, p, q)
    ensures var s := Run(job, events + more);
            Stuck(job, s) && !s.aborted && p < |s.ranks| && !Done(job, s, p)
  {
    more := RunsOut(job, events);
    OwnRun(job, events + more, p, q);
    var s := Run(job, events + more);
    assert OwnScript(job, p, s.ranks[p]);
  }
}
