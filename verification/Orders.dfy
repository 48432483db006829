/** The orders in which the tasks of a request can complete (crates/server/src/service.rs). The spawn loop takes the
    sources in order and a permit for each, so in a prompt run the semaphore bounds how far a source can overtake; in
    other runs every order can happen. */
module Orders {
  import opened Fetch
  import opened LineLoop
  import opened Lists
  import opened Scheduler
  import opened Wrappers

  /** No task gives its permit back before its completion is known. */
  predicate IsPrompt(run: seq<Step>) {
    forall k :: 0 <= k < |run| && run[k].At? ==> !run[k].action.Release?
  }

  /** A system that the process can be in, after a prompt run if that is asked for. */
  ghost predicate IsReachableBy(s: System, concurrency: nat, maxNodes: nat, prompt: bool) {
    exists run :: After(Start(concurrency), run, maxNodes) == Some(s) && (prompt ==> IsPrompt(run))
  }

  lemma ByIsReachable(s: System, concurrency: nat, maxNodes: nat, prompt: bool)
    requires IsReachableBy(s, concurrency, maxNodes, prompt)
    ensures IsReachable(s, concurrency, maxNodes)
  {
  }

  /** The first `n` tasks of the order are among the first `n - 1 + capacity` sources. */
  predicate PrefixKeepsUp(sources: seq<Task>, order: seq<Task>, capacity: nat, n: nat)
    requires 0 < n <= |order|
  {
    multiset(order[..n]) <= multiset(FirstOf(sources, n - 1 + capacity))
  }

  /** The bound that the permits put on an order: when the `n`-th task completes, only `n - 1 + capacity` sources can
      have been spawned. */
  predicate KeepsUp(sources: seq<Task>, order: seq<Task>, capacity: nat) {
    forall n :: 0 < n <= |order| ==> PrefixKeepsUp(sources, order, capacity, n)
  }

  // ---------- the bound holds ----------

  /** The waiting sources are the last ones, and the order of completion keeps up with the sources. */
  predicate IsOrdered(q: Request, capacity: nat) {
    !q.phase.Dropped? ==>
      && q.leaving == [] && |q.waiting| <= |q.sources|
      && q.waiting == q.sources[|q.sources| - |q.waiting|..]
      && KeepsUp(q.sources, q.joined + q.ended, capacity)
  }

  ghost predicate AreOrdered(s: System, capacity: nat) {
    forall r :: 0 <= r < |s.requests| ==> IsOrdered(s.requests[r], capacity)
  }

  lemma PrefixIsBelow(sources: seq<Task>, m: nat, n: nat)
    requires m <= |sources| && m <= n
    ensures multiset(sources[..m]) <= multiset(FirstOf(sources, n))
  {
    var first := FirstOf(sources, n);
    assert first == sources[..m] + first[m..];
  }

  lemma FirstIsBelow(sources: seq<Task>, m: nat, n: nat)
    requires m <= n
    ensures multiset(FirstOf(sources, m)) <= multiset(FirstOf(sources, n))
  {
    if m <= |sources| {
      PrefixIsBelow(sources, m, n);
    }
  }

  lemma LastKeepsUp(sources: seq<Task>, spawned: nat, done: seq<Task>, t: Task, capacity: nat)
    requires spawned <= |sources| && spawned <= |done| + capacity
    requires KeepsUp(sources, done, capacity) && multiset(done + [t]) <= multiset(sources[..spawned])
    ensures KeepsUp(sources, done + [t], capacity)
  {
    var longer := done + [t];
    PrefixIsBelow(sources, spawned, |done| + capacity);
    forall n | 0 < n <= |longer|
      ensures PrefixKeepsUp(sources, longer, capacity, n)
    {
      if n <= |done| {
        assert PrefixKeepsUp(sources, done, capacity, n);
        assert longer[..n] == done[..n];
      } else {
        assert longer[..n] == longer;
      }
    }
  }

  lemma OneOfRunning(
    spawned: multiset<Task>, waiting: multiset<Task>, running: multiset<Task>, ended: multiset<Task>,
    joined: multiset<Task>, t: Task)
    requires spawned + waiting == waiting + running + ended + joined && t in running
    ensures spawned == running + ended + joined && joined + ended + multiset{t} <= spawned
  {
    assert spawned == (spawned + waiting) - waiting;
    assert running + ended + joined == (waiting + running + ended + joined) - waiting;
  }

  lemma EndIsOrdered(q: Request, i: nat, maxNodes: nat, capacity: nat)
    requires IsComplete(q) && IsOrdered(q, capacity) && q.phase.Active? && i < |q.running| <= capacity
    ensures IsOrdered(Act(q, End(i), maxNodes), capacity)
  {
    var done, t, n := q.joined + q.ended, q.running[i], |q.sources| - |q.waiting|;
    var spawned := q.sources[..n];
    assert q.sources == spawned + q.waiting;
    OneOfRunning(
      multiset(spawned), multiset(q.waiting), multiset(q.running), multiset(q.ended), multiset(q.joined), t);
    assert n == |multiset(spawned)| == |q.running| + |done|;
    LastKeepsUp(q.sources, n, done, t, capacity);
    assert q.joined + (q.ended + [t]) == done + [t];
  }

  lemma ActIsOrdered(q: Request, action: Action, maxNodes: nat, capacity: nat)
    requires IsTracked(q, maxNodes) && IsOrdered(q, capacity) && CanAct(q, action, 1) && !action.Release?
    requires |q.running| <= capacity
    ensures IsOrdered(Act(q, action, maxNodes), capacity)
  {
    match action {
      case End(i) => if q.phase.Active? { EndIsOrdered(q, i, maxNodes, capacity); }
      case Join => assert (q.joined + [q.ended[0]]) + q.ended[1..] == q.joined + q.ended;
      case _ =>
    }
  }

  lemma {:induction false} OneIsBelowSum(requests: seq<Request>, r: nat)
    requires r < |requests|
    ensures Held(requests[r]) <= Sum(Held, requests)
  {
    if r < |requests| - 1 {
      OneIsBelowSum(requests[..|requests| - 1], r);
    }
  }

  lemma StepIsOrdered(s: System, step: Step, maxNodes: nat, capacity: nat)
    requires Enabled(s, step) && (step.At? ==> !step.action.Release?)
    requires Conserves(s, capacity) && AreTracked(s, maxNodes) && AreOrdered(s, capacity)
    ensures AreOrdered(Do(s, step, maxNodes), capacity)
  {
    if step.At? {
      OneIsBelowSum(s.requests, step.r);
      ActIsOrdered(s.requests[step.r], step.action, maxNodes, capacity);
    }
  }

  lemma {:induction false} RunIsOrdered(s: System, run: seq<Step>, maxNodes: nat, capacity: nat)
    requires After(s, run, maxNodes).Some? && IsPrompt(run)
    requires Conserves(s, capacity) && AreTracked(s, maxNodes) && AreOrdered(s, capacity)
    ensures AreOrdered(After(s, run, maxNodes).value, capacity)
    decreases |run|
  {
    if run != [] {
      StepIsOrdered(s, run[0], maxNodes, capacity);
      StepConserves(s, run[0], maxNodes, capacity);
      StepIsTracked(s, run[0], maxNodes);
      RunIsOrdered(Do(s, run[0], maxNodes), run[1..], maxNodes, capacity);
    }
  }

  /** In every prompt run, whatever other requests there are, the order of the joins keeps up with the sources. */
  lemma OrderIsBounded(s: System, concurrency: nat, maxNodes: nat, r: nat)
    requires IsReachableBy(s, concurrency, maxNodes, true) && r < |s.requests| && s.requests[r].phase.Returned?
    ensures KeepsUp(s.requests[r].sources, s.requests[r].joined, Capacity(concurrency))
  {
    var run :| After(Start(concurrency), run, maxNodes) == Some(s) && IsPrompt(run);
    RunIsOrdered(Start(concurrency), run, maxNodes, Capacity(concurrency));
    RunKeeps(Start(concurrency), run, maxNodes, Capacity(concurrency));
    var q := s.requests[r];
    assert IsTracked(q, maxNodes) && IsOrdered(q, Capacity(concurrency));
    assert q.joined + q.ended == q.joined;
  }

  // ---------- one request on its own ----------

  /** A request that is alone in the process. */
  function Alone(q: Request, capacity: nat): System
    requires |q.running| <= capacity
  {
    System(capacity - |q.running|, [q])
  }

  ghost predicate CanBeAlone(q: Request, concurrency: nat, maxNodes: nat, prompt: bool) {
    && |q.running| <= Capacity(concurrency)
    && IsReachableBy(Alone(q, Capacity(concurrency)), concurrency, maxNodes, prompt)
  }

  lemma ReachableStep(s: System, step: Step, concurrency: nat, maxNodes: nat, prompt: bool)
    requires IsReachableBy(s, concurrency, maxNodes, prompt) && Enabled(s, step)
    requires prompt && step.At? ==> !step.action.Release?
    ensures IsReachableBy(Do(s, step, maxNodes), concurrency, maxNodes, prompt)
  {
    var run :| After(Start(concurrency), run, maxNodes) == Some(s) && (prompt ==> IsPrompt(run));
    AfterLast(Start(concurrency), run, step, maxNodes);
    assert prompt ==> IsPrompt(run + [step]);
  }

  lemma ArriveAlone(sources: seq<Task>, given: seq<SourceError>, concurrency: nat, maxNodes: nat, prompt: bool)
    ensures CanBeAlone(NewRequest(sources, given), concurrency, maxNodes, prompt)
  {
    var s := Start(concurrency);
    assert After(s, [], maxNodes) == Some(s) && IsPrompt([]);
    ReachableStep(s, Arrive(sources, given), concurrency, maxNodes, prompt);
    assert Do(s, Arrive(sources, given), maxNodes) ==
           Alone(NewRequest(sources, given), Capacity(concurrency));
  }

  lemma ActAlone(q: Request, action: Action, concurrency: nat, maxNodes: nat, prompt: bool)
    requires CanBeAlone(q, concurrency, maxNodes, prompt)
    requires CanAct(q, action, Capacity(concurrency) - |q.running|) && (prompt ==> !action.Release?)
    ensures CanBeAlone(Act(q, action, maxNodes), concurrency, maxNodes, prompt)
  {
    var s, q' := Alone(q, Capacity(concurrency)), Act(q, action, maxNodes);
    ReachableStep(s, At(0, action), concurrency, maxNodes, prompt);
    assert [q][0 := q'] == [q'];
    assert |q'.running| == |q.running| - Released(action);
    assert Do(s, At(0, action), maxNodes) == Alone(q', Capacity(concurrency));
  }

  /** A request between spawning and joining: nothing is joined yet. */
  predicate IsCollecting(q: Request) {
    q.phase.Active? && q.joined == []
  }

  /** Completed tasks are joined in the order in which they completed. */
  lemma {:induction false} JoinAll(q: Request, concurrency: nat, maxNodes: nat, prompt: bool) returns (t: Request)
    requires CanBeAlone(q, concurrency, maxNodes, prompt) && q.phase.Active? && q.waiting == []
    ensures CanBeAlone(t, concurrency, maxNodes, prompt) && t.phase.Active? && t.waiting == [] && t.ended == []
    ensures t.running == q.running && t.leaving == q.leaving && t.sources == q.sources && t.given == q.given
    ensures t.joined == q.joined + q.ended
    decreases |q.ended|
  {
    if q.ended == [] {
      t := q;
    } else {
      ActAlone(q, Join, concurrency, maxNodes, prompt);
      t := JoinAll(Act(q, Join, maxNodes), concurrency, maxNodes, prompt);
      assert q.joined + [q.ended[0]] + q.ended[1..] == q.joined + q.ended;
    }
  }

  lemma FindFirst(tasks: seq<Task>, t: Task) returns (i: nat)
    requires t in multiset(tasks)
    ensures i < |tasks| && tasks[i] == t
  {
    i :| 0 <= i < |tasks| && tasks[i] == t;
  }

  lemma RestOfOrder(tasks: seq<Task>, i: nat, order: seq<Task>)
    requires i < |tasks| && order != [] && tasks[i] == order[0] && multiset(tasks) == multiset(order)
    ensures multiset(RemoveAt(tasks, i)) == multiset(order[1..])
  {
    assert order == [order[0]] + order[1..];
    assert multiset(order) - multiset{order[0]} == multiset(order[1..]);
    assert multiset(tasks) - multiset{order[0]} == multiset(RemoveAt(tasks, i));
  }

  // ---------- every order, if completions may lag behind ----------

  /** Every source is spawned and gives its permit back at once. */
  lemma {:induction false} ReleaseAll(q: Request, concurrency: nat, maxNodes: nat) returns (t: Request)
    requires CanBeAlone(q, concurrency, maxNodes, false) && IsCollecting(q) && q.running == [] && q.ended == []
    ensures CanBeAlone(t, concurrency, maxNodes, false) && IsCollecting(t)
    ensures t.waiting == [] && t.running == [] && t.ended == [] && t.leaving == q.leaving + q.waiting
    ensures t.sources == q.sources && t.given == q.given
    decreases |q.waiting|
  {
    if q.waiting == [] {
      t := q;
    } else {
      ActAlone(q, Spawn, concurrency, maxNodes, false);
      t := Act(q, Spawn, maxNodes);
      assert t.running == [q.waiting[0]];
      ActAlone(t, Release(0), concurrency, maxNodes, false);
      t := Act(t, Release(0), maxNodes);
      assert t.leaving == q.leaving + [q.waiting[0]] && t.running == [];
      t := ReleaseAll(t, concurrency, maxNodes);
      assert q.leaving + [q.waiting[0]] + q.waiting[1..] == q.leaving + q.waiting;
    }
  }

  /** Then the completions become known in any order. */
  lemma {:induction false} CompleteAll(q: Request, order: seq<Task>, concurrency: nat, maxNodes: nat)
    returns (t: Request)
    requires CanBeAlone(q, concurrency, maxNodes, false) && IsCollecting(q)
    requires q.waiting == [] && q.running == [] && multiset(q.leaving) == multiset(order)
    ensures CanBeAlone(t, concurrency, maxNodes, false) && IsCollecting(t)
    ensures t.waiting == [] && t.running == [] && t.leaving == [] && t.ended == q.ended + order
    ensures t.sources == q.sources && t.given == q.given
    decreases |order|
  {
    if order == [] {
      t := q;
      assert |multiset(q.leaving)| == 0;
    } else {
      assert order[0] in multiset(order);
      var i := FindFirst(q.leaving, order[0]);
      RestOfOrder(q.leaving, i, order);
      ActAlone(q, Complete(i), concurrency, maxNodes, false);
      t := CompleteAll(Act(q, Complete(i), maxNodes), order[1..], concurrency, maxNodes);
      assert q.ended + [order[0]] + order[1..] == q.ended + order;
    }
  }

  // ---------- every order that keeps up, in a prompt run ----------

  /** The spawn loop goes on until it has to wait for a permit, or no source is left. */
  lemma {:induction false} Fill(q: Request, concurrency: nat, maxNodes: nat) returns (t: Request)
    requires CanBeAlone(q, concurrency, maxNodes, true) && IsCollecting(q)
    ensures CanBeAlone(t, concurrency, maxNodes, true) && IsCollecting(t)
    ensures IsFull(t, Capacity(concurrency)) && t.running + t.waiting == q.running + q.waiting
    ensures t.leaving == q.leaving && t.ended == q.ended && t.sources == q.sources && t.given == q.given
    decreases |q.waiting|
  {
    if IsFull(q, Capacity(concurrency)) {
      t := q;
    } else {
      ActAlone(q, Spawn, concurrency, maxNodes, true);
      t := Fill(Act(q, Spawn, maxNodes), concurrency, maxNodes);
      assert q.running + [q.waiting[0]] + q.waiting[1..] == q.running + q.waiting;
    }
  }

  predicate IsFull(q: Request, capacity: nat) {
    q.waiting == [] || |q.running| == capacity
  }

  /** The task that is to complete first is running. */
  lemma FirstIsRunning(running: seq<Task>, waiting: seq<Task>, order: seq<Task>, capacity: nat)
    requires |running| <= capacity && (waiting == [] || |running| == capacity) && order != []
    requires KeepsUp(running + waiting, order, capacity)
    ensures order[0] in multiset(running)
  {
    assert order[..1] == [order[0]];
    assert FirstOf(running + waiting, capacity) == running;
    assert PrefixKeepsUp(running + waiting, order, capacity, 1);
    assert order[0] in multiset([order[0]]);
  }

  lemma FirstOfRest(running: seq<Task>, waiting: seq<Task>, i: nat, n: nat)
    requires i < |running| <= n + 1
    ensures multiset(FirstOf(running + waiting, n + 1)) ==
            multiset(FirstOf(RemoveAt(running, i) + waiting, n)) + multiset{running[i]}
  {
    var rest := RemoveAt(running, i);
    var k := if n + 1 - |running| <= |waiting| then n + 1 - |running| else |waiting|;
    assert FirstOf(running + waiting, n + 1) == running + waiting[..k];
    assert FirstOf(rest + waiting, n) == rest + waiting[..k];
  }

  lemma WithoutOne(a: multiset<Task>, b: multiset<Task>, t: Task)
    requires multiset{t} + a <= b + multiset{t}
    ensures a <= b
  {
    forall x | x in a
      ensures a[x] <= b[x]
    {
      assert (multiset{t} + a)[x] <= (b + multiset{t})[x];
    }
  }

  /** What remains of the order keeps up with what remains of the sources. */
  lemma RestKeepsUp(running: seq<Task>, waiting: seq<Task>, i: nat, order: seq<Task>, capacity: nat)
    requires i < |running| <= capacity && order != [] && running[i] == order[0]
    requires KeepsUp(running + waiting, order, capacity)
    ensures KeepsUp(RemoveAt(running, i) + waiting, order[1..], capacity)
  {
    forall n | 0 < n <= |order[1..]|
      ensures PrefixKeepsUp(RemoveAt(running, i) + waiting, order[1..], capacity, n)
    {
      assert PrefixKeepsUp(running + waiting, order, capacity, n + 1);
      RestOfPrefix(running, waiting, i, order, capacity, n);
    }
  }

  lemma RestOfPrefix(running: seq<Task>, waiting: seq<Task>, i: nat, order: seq<Task>, capacity: nat, n: nat)
    requires i < |running| <= capacity && 0 < n < |order| && running[i] == order[0]
    requires PrefixKeepsUp(running + waiting, order, capacity, n + 1)
    ensures PrefixKeepsUp(RemoveAt(running, i) + waiting, order[1..], capacity, n)
  {
    FirstOfRest(running, waiting, i, n - 1 + capacity);
    FirstTasks(order, n);
    WithoutOne(
      multiset(order[1..][..n]), multiset(FirstOf(RemoveAt(running, i) + waiting, n - 1 + capacity)), order[0]);
  }

  lemma FirstTasks(order: seq<Task>, n: nat)
    requires n < |order|
    ensures multiset(order[..n + 1]) == multiset{order[0]} + multiset(order[1..][..n])
  {
    assert order[..n + 1] == [order[0]] + order[1..][..n];
  }

  lemma NextToEnd(running: seq<Task>, waiting: seq<Task>, order: seq<Task>, capacity: nat) returns (i: nat)
    requires |running| <= capacity && (waiting == [] || |running| == capacity) && order != []
    requires multiset(running + waiting) == multiset(order) && KeepsUp(running + waiting, order, capacity)
    ensures i < |running| && running[i] == order[0]
    ensures multiset(RemoveAt(running, i) + waiting) == multiset(order[1..])
    ensures KeepsUp(RemoveAt(running, i) + waiting, order[1..], capacity)
  {
    FirstIsRunning(running, waiting, order, capacity);
    i := FindFirst(running, order[0]);
    RestKeepsUp(running, waiting, i, order, capacity);
    RestOfOrder(running + waiting, i, order);
    assert RemoveAt(running + waiting, i) == RemoveAt(running, i) + waiting;
  }

  /** The task that is to complete first ends, and the spawn loop goes on. */
  lemma EndFirst(q: Request, order: seq<Task>, concurrency: nat, maxNodes: nat) returns (t: Request)
    requires CanBeAlone(q, concurrency, maxNodes, true) && IsCollecting(q) && IsFull(q, Capacity(concurrency))
    requires order != [] && KeepsUp(q.running + q.waiting, order, Capacity(concurrency))
    requires multiset(q.running + q.waiting) == multiset(order)
    ensures CanBeAlone(t, concurrency, maxNodes, true) && IsCollecting(t) && IsFull(t, Capacity(concurrency))
    ensures multiset(t.running + t.waiting) == multiset(order[1..])
    ensures KeepsUp(t.running + t.waiting, order[1..], Capacity(concurrency))
    ensures t.leaving == q.leaving && t.ended == q.ended + [order[0]] && t.sources == q.sources && t.given == q.given
  {
    var i := NextToEnd(q.running, q.waiting, order, Capacity(concurrency));
    ActAlone(q, End(i), concurrency, maxNodes, true);
    t := Fill(Act(q, End(i), maxNodes), concurrency, maxNodes);
  }

  lemma {:induction false} EndAll(q: Request, order: seq<Task>, concurrency: nat, maxNodes: nat) returns (t: Request)
    requires CanBeAlone(q, concurrency, maxNodes, true) && IsCollecting(q) && IsFull(q, Capacity(concurrency))
    requires multiset(q.running + q.waiting) == multiset(order) && q.leaving == []
    requires KeepsUp(q.running + q.waiting, order, Capacity(concurrency))
    ensures CanBeAlone(t, concurrency, maxNodes, true) && IsCollecting(t)
    ensures t.waiting == [] && t.running == [] && t.leaving == [] && t.ended == q.ended + order
    ensures t.sources == q.sources && t.given == q.given
    decreases |order|
  {
    if order == [] {
      t := q;
      assert |multiset(q.running + q.waiting)| == 0;
    } else {
      t := EndFirst(q, order, concurrency, maxNodes);
      t := EndAll(t, order[1..], concurrency, maxNodes);
      assert q.ended + [order[0]] + order[1..] == q.ended + order;
    }
  }

  // ---------- the orders, exactly ----------

  /** The orders in which the sources can be joined. */
  ghost predicate IsOrder(sources: seq<Task>, order: seq<Task>, concurrency: nat, prompt: bool) {
    && multiset(order) == multiset(sources)
    && (prompt ==> KeepsUp(sources, order, Capacity(concurrency)))
  }

  /** Each of these orders happens in some run, and the answer is then its merge. */
  lemma OrderCanHappen(
    sources: seq<Task>, given: seq<SourceError>, order: seq<Task>, concurrency: nat, maxNodes: nat, prompt: bool)
    returns (s: System)
    requires IsOrder(sources, order, concurrency, prompt)
    ensures IsReachableBy(s, concurrency, maxNodes, prompt) && |s.requests| == 1
    ensures var q := s.requests[0];
            && q.sources == sources && q.given == given && q.joined == order
            && q.phase == Returned(FirstOf(AllNodes(order), maxNodes))
            && q.errors == given + AllErrors(order)
  {
    var t := NewRequest(sources, given);
    ArriveAlone(sources, given, concurrency, maxNodes, prompt);
    assert [] + sources == sources && [] + order == order;
    if prompt {
      t := Fill(t, concurrency, maxNodes);
      t := EndAll(t, order, concurrency, maxNodes);
    } else {
      t := ReleaseAll(t, concurrency, maxNodes);
      t := CompleteAll(t, order, concurrency, maxNodes);
    }
    t := JoinAll(t, concurrency, maxNodes, prompt);
    ActAlone(t, Return, concurrency, maxNodes, prompt);
    s := Alone(Act(t, Return, maxNodes), Capacity(concurrency));
    ByIsReachable(s, concurrency, maxNodes, prompt);
    AnswerIsMerge(s, concurrency, maxNodes, 0);
  }

  /** Sources `sources` are joined in the given order by request `r`, which is answered. */
  predicate IsJoinedIn(s: System, r: nat, sources: seq<Task>, order: seq<Task>) {
    r < |s.requests| && s.requests[r].phase.Returned? && s.requests[r].sources == sources
    && s.requests[r].joined == order
  }

  /** Main result. The orders in which the sources of a request can be joined, whatever else the process does: in
      prompt runs exactly those in which the first `n` tasks are among the first `n - 1 + capacity` sources, for every
      `n`; otherwise all. */
  lemma OrdersExactly(sources: seq<Task>, order: seq<Task>, concurrency: nat, maxNodes: nat, prompt: bool)
    ensures (exists s: System, r: nat ::
               IsReachableBy(s, concurrency, maxNodes, prompt) && IsJoinedIn(s, r, sources, order)) <==>
            IsOrder(sources, order, concurrency, prompt)
  {
    if s: System, r: nat :| IsReachableBy(s, concurrency, maxNodes, prompt) && IsJoinedIn(s, r, sources, order) {
      ByIsReachable(s, concurrency, maxNodes, prompt);
      AnswerIsMerge(s, concurrency, maxNodes, r);
      if prompt {
        OrderIsBounded(s, concurrency, maxNodes, r);
      }
    }
    if IsOrder(sources, order, concurrency, prompt) {
      var s := OrderCanHappen(sources, [], order, concurrency, maxNodes, prompt);
      assert IsJoinedIn(s, 0, sources, order);
    }
  }

  // ---------- one permit ----------

  /** With a single permit a prompt run joins the sources in their own order. */
  lemma OnePermitKeepsOrder(sources: seq<Task>, order: seq<Task>)
    requires multiset(order) == multiset(sources) && KeepsUp(sources, order, 1)
    ensures order == sources
  {
    assert |order| == |multiset(order)| == |multiset(sources)| == |sources|;
    forall j | 0 <= j < |order|
      ensures order[j] == sources[j]
    {
      SamePrefix(sources, order, j);
      SamePrefix(sources, order, j + 1);
      SameLast(sources, order, j);
    }
  }

  lemma SameLast(a: seq<Task>, b: seq<Task>, j: nat)
    requires j < |a| == |b|
    requires multiset(a[..j]) == multiset(b[..j]) && multiset(a[..j + 1]) == multiset(b[..j + 1])
    ensures a[j] == b[j]
  {
    assert a[..j + 1] == a[..j] + [a[j]] && b[..j + 1] == b[..j] + [b[j]];
    assert multiset(a[..j + 1])[a[j]] == multiset(a[..j])[a[j]] + 1;
    assert multiset(b[..j + 1])[a[j]] == multiset(b[..j])[a[j]] + multiset{b[j]}[a[j]];
  }

  lemma SamePrefix(sources: seq<Task>, order: seq<Task>, j: nat)
    requires j <= |order| == |sources| && KeepsUp(sources, order, 1)
    ensures multiset(order[..j]) == multiset(sources[..j])
  {
    if j > 0 {
      assert PrefixKeepsUp(sources, order, 1, j);
      assert FirstOf(sources, j) == sources[..j];
      SameSize(multiset(order[..j]), multiset(sources[..j]));
    }
  }

  lemma SameSize(a: multiset<Task>, b: multiset<Task>)
    requires a <= b && |a| == |b|
    ensures a == b
  {
    assert b == a + (b - a);
    assert |b - a| == 0;
  }
}
