/** All requests of the process and their shared semaphore (crates/server/src/service.rs,
    crates/server/src/state.rs) as a step system: a run is any interleaving of the steps of any number of
    requests. What a task ends with is fixed in the task; when it ends is not. The permit lives in the body of the task,
    so it is given back when the body ends, a moment before the task set learns that the task has completed. Runs in
    which nothing happens in that moment are called prompt. */
module Scheduler {
  import opened Wrappers
  import opened Fetch
  import opened LineLoop
  import opened Lists
  import opened Model

  /** Fetching; answered; or given up by the client, which aborts the tasks. */
  datatype Phase = Active | Returned(nodes: seq<ProxyNode>) | Dropped

  datatype Request = Request(
    /** what the request was made for: the sources, and the errors known before any fetch */
    sources: seq<Task>, given: seq<SourceError>,
    /** sources that the spawn loop has not reached, in order */
    waiting: seq<Task>,
    /** spawned tasks, each holding a permit */
    running: seq<Task>,
    /** tasks that have given their permit back and are not known to have completed */
    leaving: seq<Task>,
    /** tasks that have completed and were not joined yet, in the order of completion */
    ended: seq<Task>,
    /** joined tasks, in the order of `join_next` */
    joined: seq<Task>,
    nodes: seq<ProxyNode>, errors: seq<SourceError>,
    phase: Phase)

  datatype System = System(available: nat, requests: seq<Request>)

  /** What can happen to one request. */
  datatype Action =
    | Spawn             // the spawn loop takes a permit and the next source
    | End(i: nat)       // a task ends, by result, panic or abort: it gives its permit back and has completed
    | Release(i: nat)   // a task gives its permit back, and its completion is not known yet
    | Complete(i: nat)  // the completion of such a task becomes known
    | Join              // `join_next` returns the task that completed first
    | Return            // nothing is left to join: truncate and answer
    | Drop              // the client goes away

  datatype Step = Arrive(sources: seq<Task>, given: seq<SourceError>) | At(r: nat, action: Action)

  function NewRequest(sources: seq<Task>, given: seq<SourceError>): Request {
    Request(sources, given, sources, [], [], [], [], [], given, Active)
  }

  /** The action can happen now. Spawning waits for a permit; joining starts when every source was spawned. */
  predicate CanAct(q: Request, action: Action, available: nat) {
    match action
    case Spawn => q.phase.Active? && q.waiting != [] && available > 0
    case End(i) => i < |q.running|
    case Release(i) => i < |q.running|
    case Complete(i) => i < |q.leaving|
    case Join => q.phase.Active? && q.waiting == [] && q.ended != []
    case Return => q.phase.Active? && q.waiting == [] && q.running == [] && q.leaving == [] && q.ended == []
    case Drop => q.phase.Active?
  }

  /** A completed task waits to be joined, unless the task set is gone. */
  function Completed(q: Request, t: Task): seq<Task> {
    if q.phase.Active? then q.ended + [t] else q.ended
  }

  function Act(q: Request, action: Action, maxNodes: nat): Request
    requires CanAct(q, action, 1)
  {
    match action
    case Spawn => q.(waiting := q.waiting[1..], running := q.running + [q.waiting[0]])
    case End(i) => q.(running := RemoveAt(q.running, i), ended := Completed(q, q.running[i]))
    case Release(i) => q.(running := RemoveAt(q.running, i), leaving := q.leaving + [q.running[i]])
    case Complete(i) => q.(leaving := RemoveAt(q.leaving, i), ended := Completed(q, q.leaving[i]))
    case Join =>
      var t := q.ended[0];
      q.(ended := q.ended[1..], joined := q.joined + [t],
      nodes := q.nodes + NodesOf(t), errors := q.errors + ErrorsOf(t))
    case Return => q.(phase := Returned(FirstOf(q.nodes, maxNodes)))
    case Drop => q.(phase := Dropped, waiting := [], ended := [])
  }

  /** How many permits an action gives back. */
  function Released(action: Action): int {
    match action case Spawn => -1 case End(_) => 1 case Release(_) => 1 case _ => 0
  }

  predicate Enabled(s: System, step: Step) {
    match step
    case Arrive(_, _) => true
    case At(r, action) => r < |s.requests| && CanAct(s.requests[r], action, s.available)
  }

  function Do(s: System, step: Step, maxNodes: nat): System
    requires Enabled(s, step)
  {
    match step
    case Arrive(sources, given) => s.(requests := s.requests + [NewRequest(sources, given)])
    case At(r, action) =>
      System(s.available + Released(action), s.requests[r := Act(s.requests[r], action, maxNodes)])
  }

  /** `Semaphore::new(concurrency.max(1))` */
  function Capacity(concurrency: nat): nat {
    if concurrency < 1 then 1 else concurrency
  }

  function Start(concurrency: nat): System {
    System(Capacity(concurrency), [])
  }

  /** The system after a run, if every step of it can happen. */
  function After(s: System, run: seq<Step>, maxNodes: nat): Option<System>
    decreases |run|
  {
    if run == [] then Some(s)
    else if !Enabled(s, run[0]) then None
    else After(Do(s, run[0], maxNodes), run[1..], maxNodes)
  }

  // ---------- sums over all requests ----------

  function Sum(count: Request -> nat, requests: seq<Request>): nat {
    if requests == [] then 0 else Sum(count, requests[..|requests| - 1]) + count(requests[|requests| - 1])
  }

  lemma SumOfArrival(count: Request -> nat, requests: seq<Request>, q: Request)
    ensures Sum(count, requests + [q]) == Sum(count, requests) + count(q)
  {
    assert (requests + [q])[..|requests|] == requests;
  }

  lemma {:induction false} SumOfUpdate(count: Request -> nat, requests: seq<Request>, r: nat, q: Request)
    requires r < |requests|
    ensures Sum(count, requests[r := q]) == Sum(count, requests) - count(requests[r]) + count(q)
  {
    var init := requests[..|requests| - 1];
    if r == |requests| - 1 {
      assert requests[r := q][..r] == init;
    } else {
      SumOfUpdate(count, init, r, q);
      assert requests[r := q][..|requests| - 1] == init[r := q];
    }
  }

  lemma {:induction false} SumIsZero(count: Request -> nat, requests: seq<Request>)
    ensures Sum(count, requests) == 0 <==> forall r :: 0 <= r < |requests| ==> count(requests[r]) == 0
  {
    if requests != [] {
      SumIsZero(count, requests[..|requests| - 1]);
    }
  }

  // ---------- permit conservation ----------

  function Held(q: Request): nat {
    |q.running|
  }

  /** Every permit is either available or held by a running task. */
  predicate Conserves(s: System, capacity: nat) {
    s.available + Sum(Held, s.requests) == capacity
  }

  lemma StepConserves(s: System, step: Step, maxNodes: nat, capacity: nat)
    requires Enabled(s, step) && Conserves(s, capacity)
    ensures Conserves(Do(s, step, maxNodes), capacity)
  {
    match step {
      case Arrive(sources, given) => SumOfArrival(Held, s.requests, NewRequest(sources, given));
      case At(r, action) => SumOfUpdate(Held, s.requests, r, Act(s.requests[r], action, maxNodes));
    }
  }

  // ---------- what every request keeps ----------

  /** Every source of a request that was not dropped is in exactly one place, and what was collected is what the
      joined tasks brought, in the order in which they were joined. */
  ghost predicate IsTracked(q: Request, maxNodes: nat) {
    && (!q.phase.Dropped? ==> IsComplete(q))
    && q.nodes == AllNodes(q.joined)
    && q.errors == q.given + AllErrors(q.joined)
    && (!q.phase.Active? ==> q.waiting == [] && q.ended == [])
    && (q.joined != [] ==> q.waiting == [])
    && (q.phase.Returned? ==> q.running == [] && q.leaving == [] && q.phase.nodes == FirstOf(q.nodes, maxNodes))
  }

  predicate IsComplete(q: Request) {
    multiset(q.sources) ==
    multiset(q.waiting) + multiset(q.running) + multiset(q.leaving) + multiset(q.ended) + multiset(q.joined)
  }

  ghost predicate AreTracked(s: System, maxNodes: nat) {
    forall r :: 0 <= r < |s.requests| ==> IsTracked(s.requests[r], maxNodes)
  }

  lemma NewIsTracked(sources: seq<Task>, given: seq<SourceError>, maxNodes: nat)
    ensures IsTracked(NewRequest(sources, given), maxNodes)
  {
  }

  lemma SpawnIsTracked(q: Request, maxNodes: nat)
    requires IsTracked(q, maxNodes) && CanAct(q, Spawn, 1)
    ensures IsTracked(Act(q, Spawn, maxNodes), maxNodes)
  {
    assert q.waiting == [q.waiting[0]] + q.waiting[1..];
  }

  lemma EndIsTracked(q: Request, i: nat, maxNodes: nat)
    requires IsTracked(q, maxNodes) && CanAct(q, End(i), 1)
    ensures IsTracked(Act(q, End(i), maxNodes), maxNodes)
  {
  }

  lemma ReleaseIsTracked(q: Request, i: nat, maxNodes: nat)
    requires IsTracked(q, maxNodes) && CanAct(q, Release(i), 1)
    ensures IsTracked(Act(q, Release(i), maxNodes), maxNodes)
  {
  }

  lemma CompleteIsTracked(q: Request, i: nat, maxNodes: nat)
    requires IsTracked(q, maxNodes) && CanAct(q, Complete(i), 1)
    ensures IsTracked(Act(q, Complete(i), maxNodes), maxNodes)
  {
  }

  lemma JoinIsComplete(q: Request, maxNodes: nat)
    requires IsComplete(q) && CanAct(q, Join, 1)
    ensures IsComplete(Act(q, Join, maxNodes))
  {
    var t := q.ended[0];
    assert q.ended == [t] + q.ended[1..];
    assert multiset(q.joined + [t]) == multiset(q.joined) + multiset{t};
  }

  lemma JoinIsTracked(q: Request, maxNodes: nat)
    requires IsTracked(q, maxNodes) && CanAct(q, Join, 1)
    ensures IsTracked(Act(q, Join, maxNodes), maxNodes)
  {
    var t := q.ended[0];
    FlatStep(NodesOf, q.joined, t);
    FlatStep(ErrorsOf, q.joined, t);
    JoinIsComplete(q, maxNodes);
    Associative(q.given, AllErrors(q.joined), ErrorsOf(t));
  }

  lemma ActIsTracked(q: Request, action: Action, maxNodes: nat)
    requires IsTracked(q, maxNodes) && CanAct(q, action, 1)
    ensures IsTracked(Act(q, action, maxNodes), maxNodes)
  {
    match action {
      case Spawn => SpawnIsTracked(q, maxNodes);
      case End(i) => EndIsTracked(q, i, maxNodes);
      case Release(i) => ReleaseIsTracked(q, i, maxNodes);
      case Complete(i) => CompleteIsTracked(q, i, maxNodes);
      case Join => JoinIsTracked(q, maxNodes);
      case Return =>
      case Drop =>
    }
  }

  lemma StepIsTracked(s: System, step: Step, maxNodes: nat)
    requires Enabled(s, step) && AreTracked(s, maxNodes)
    ensures AreTracked(Do(s, step, maxNodes), maxNodes)
  {
    match step {
      case Arrive(sources, given) => NewIsTracked(sources, given, maxNodes);
      case At(r, action) => ActIsTracked(s.requests[r], action, maxNodes);
    }
  }

  /** In every run: permits are conserved and every request is tracked. */
  lemma {:induction false} RunKeeps(s: System, run: seq<Step>, maxNodes: nat, capacity: nat)
    requires Conserves(s, capacity) && AreTracked(s, maxNodes) && After(s, run, maxNodes).Some?
    ensures var t := After(s, run, maxNodes).value; Conserves(t, capacity) && AreTracked(t, maxNodes)
    decreases |run|
  {
    if run != [] {
      StepConserves(s, run[0], maxNodes, capacity);
      StepIsTracked(s, run[0], maxNodes);
      RunKeeps(Do(s, run[0], maxNodes), run[1..], maxNodes, capacity);
    }
  }

  /** A system that the process can be in. */
  ghost predicate IsReachable(s: System, concurrency: nat, maxNodes: nat) {
    exists run :: After(Start(concurrency), run, maxNodes) == Some(s)
  }

  /** Available permits and running tasks add up to the configured concurrency, or to one if it is zero. */
  lemma PermitsAreConserved(s: System, concurrency: nat, maxNodes: nat)
    requires IsReachable(s, concurrency, maxNodes)
    ensures s.available + Sum(Held, s.requests) == Capacity(concurrency)
    ensures Capacity(concurrency) == if concurrency == 0 then 1 else concurrency
    ensures AreTracked(s, maxNodes)
  {
    var run :| After(Start(concurrency), run, maxNodes) == Some(s);
    RunKeeps(Start(concurrency), run, maxNodes, Capacity(concurrency));
  }

  // ---------- progress ----------

  /** What is left to do for a request: one unit for each source to be spawned, to give its permit back, to complete
      and to be joined, and one for the answer. */
  function Work(q: Request): nat {
    4 * |q.waiting| + 3 * |q.running| + 2 * |q.leaving| + |q.ended| + if q.phase.Active? then 1 else 0
  }

  /** Every action leaves strictly less to do, so only arrivals can keep the process busy. */
  lemma ActionsTerminate(s: System, r: nat, action: Action, maxNodes: nat)
    requires Enabled(s, At(r, action))
    ensures Sum(Work, Do(s, At(r, action), maxNodes).requests) < Sum(Work, s.requests)
  {
    SumOfUpdate(Work, s.requests, r, Act(s.requests[r], action, maxNodes));
  }

  /** A run without arrivals is no longer than the work there was at its start. */
  lemma {:induction false} RunIsBounded(s: System, run: seq<Step>, maxNodes: nat)
    requires After(s, run, maxNodes).Some? && forall k :: 0 <= k < |run| ==> run[k].At?
    ensures |run| + Sum(Work, After(s, run, maxNodes).value.requests) <= Sum(Work, s.requests)
    decreases |run|
  {
    if run != [] {
      ActionsTerminate(s, run[0].r, run[0].action, maxNodes);
      RunIsBounded(Do(s, run[0], maxNodes), run[1..], maxNodes);
    }
  }

  /** Nothing more is left to do for a request. */
  predicate IsFinished(q: Request) {
    !q.phase.Active? && q.running == [] && q.leaving == []
  }

  /** No deadlock: while a request is unfinished, something other than an arrival or a departure can happen. */
  lemma SomeStepIsEnabled(s: System, concurrency: nat, maxNodes: nat, r: nat) returns (k: nat, action: Action)
    requires IsReachable(s, concurrency, maxNodes)
    requires r < |s.requests| && !IsFinished(s.requests[r])
    ensures Enabled(s, At(k, action)) && action != Drop
  {
    PermitsAreConserved(s, concurrency, maxNodes);
    SumIsZero(Held, s.requests);
    if Sum(Held, s.requests) > 0 {
      k :| 0 <= k < |s.requests| && Held(s.requests[k]) != 0;
      action := End(0);
    } else {
      var q := s.requests[r];
      assert Held(q) == 0;
      k := r;
      action := if q.leaving != [] then Complete(0)
        else if q.waiting != [] then Spawn else if q.ended != [] then Join else Return;
    }
  }

  /** When nothing but arrivals and departures can happen, every request is finished and every permit is back. */
  lemma QuietMeansFinished(s: System, concurrency: nat, maxNodes: nat)
    requires IsReachable(s, concurrency, maxNodes)
    requires forall r, action :: Enabled(s, At(r, action)) ==> action == Drop
    ensures forall r :: 0 <= r < |s.requests| ==> IsFinished(s.requests[r])
    ensures s.available == Capacity(concurrency)
  {
    forall r | 0 <= r < |s.requests|
      ensures IsFinished(s.requests[r])
    {
      if !IsFinished(s.requests[r]) {
        var k, action := SomeStepIsEnabled(s, concurrency, maxNodes, r);
      }
    }
    PermitsAreConserved(s, concurrency, maxNodes);
    SumIsZero(Held, s.requests);
  }

  // ---------- what is answered ----------

  /** An answered request: each of its sources was joined exactly once; the errors and the nodes are those of the
      sources, merged in the order of the joins, and the nodes are cut. */
  lemma AnswerIsMerge(s: System, concurrency: nat, maxNodes: nat, r: nat)
    requires IsReachable(s, concurrency, maxNodes) && r < |s.requests| && s.requests[r].phase.Returned?
    ensures var q := s.requests[r];
            && multiset(q.joined) == multiset(q.sources)
            && q.errors == q.given + AllErrors(q.joined)
            && q.phase.nodes == FirstOf(AllNodes(q.joined), maxNodes)
  {
    PermitsAreConserved(s, concurrency, maxNodes);
    assert IsTracked(s.requests[r], maxNodes);
  }

  /** Two answers for the same sources, in any two runs: the same errors as a multiset; and the same nodes as a
      multiset whenever all of them fit. */
  lemma ScheduleIndependence(s: System, r: nat, concurrency: nat, t: System, k: nat, concurrency': nat, maxNodes: nat)
    requires IsReachable(s, concurrency, maxNodes) && r < |s.requests| && s.requests[r].phase.Returned?
    requires IsReachable(t, concurrency', maxNodes) && k < |t.requests| && t.requests[k].phase.Returned?
    requires multiset(s.requests[r].sources) == multiset(t.requests[k].sources)
    requires s.requests[r].given == t.requests[k].given
    ensures multiset(s.requests[r].errors) == multiset(t.requests[k].errors)
    ensures |s.requests[r].phase.nodes| == |t.requests[k].phase.nodes|
    ensures |AllNodes(s.requests[r].sources)| <= maxNodes ==>
              multiset(s.requests[r].phase.nodes) == multiset(t.requests[k].phase.nodes)
  {
    AnswerIsMerge(s, concurrency, maxNodes, r);
    AnswerIsMerge(t, concurrency', maxNodes, k);
    var a, b := s.requests[r].joined, t.requests[k].joined;
    FlatOfPermutation(NodesOf, a, b);
    FlatOfPermutation(ErrorsOf, a, b);
    SameLength(NodesOf, a, b);
    SameLength(NodesOf, a, s.requests[r].sources);
  }

  // ---------- the orders of completion ----------

  lemma {:induction false} AfterLast(s: System, run: seq<Step>, step: Step, maxNodes: nat)
    requires After(s, run, maxNodes).Some? && Enabled(After(s, run, maxNodes).value, step)
    ensures After(s, run + [step], maxNodes) == Some(Do(After(s, run, maxNodes).value, step, maxNodes))
    decreases |run|
  {
    var longer := run + [step];
    if run == [] {
      assert longer[1..] == [];
    } else {
      AfterLast(Do(s, run[0], maxNodes), run[1..], step, maxNodes);
      assert longer[0] == run[0] && longer[1..] == run[1..] + [step];
    }
  }
}
