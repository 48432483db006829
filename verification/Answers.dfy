/** What a fetch request can be answered with, exactly (crates/server/src/service.rs), and when the node limit makes the
    answers differ. */
module Answers {
  import opened Fetch
  import opened LineLoop
  import opened Lists
  import opened Model
  import opened Orders
  import opened Scheduler

  // ---------- the set of answers ----------

  /** Request `r` of the system was made for these sources and was answered with these nodes. */
  predicate IsAnswered(s: System, r: nat, sources: seq<Task>, given: seq<SourceError>, answer: seq<ProxyNode>) {
    && r < |s.requests|
    && s.requests[r].sources == sources && s.requests[r].given == given
    && s.requests[r].phase == Returned(answer)
  }

  /** The settings: permits, node limit, and whether only prompt runs count. */
  datatype Setting = Setting(concurrency: nat, maxNodes: nat, prompt: bool)

  /** Some run of the process ends with this answer. */
  ghost predicate IsPossible(sources: seq<Task>, given: seq<SourceError>, c: Setting, answer: seq<ProxyNode>) {
    exists s: System, r: nat ::
      IsReachableBy(s, c.concurrency, c.maxNodes, c.prompt) && IsAnswered(s, r, sources, given, answer)
  }

  /** The nodes of the sources in an order that can happen, cut at the limit. */
  ghost predicate IsCutMerge(sources: seq<Task>, c: Setting, answer: seq<ProxyNode>) {
    exists order :: IsMergeOf(sources, order, c, answer)
  }

  ghost predicate IsMergeOf(sources: seq<Task>, order: seq<Task>, c: Setting, answer: seq<ProxyNode>) {
    IsOrder(sources, order, c.concurrency, c.prompt) && answer == FirstOf(AllNodes(order), c.maxNodes)
  }

  /** The answers that a request can get, whatever else the process does, are exactly the cut merges of its sources in
      the orders that can happen. */
  lemma AnswersExactly(sources: seq<Task>, given: seq<SourceError>, c: Setting, answer: seq<ProxyNode>)
    ensures IsPossible(sources, given, c, answer) <==> IsCutMerge(sources, c, answer)
  {
    if IsPossible(sources, given, c, answer) {
      var s: System, r: nat :| IsReachableBy(s, c.concurrency, c.maxNodes, c.prompt)
                               && IsAnswered(s, r, sources, given, answer);
      ByIsReachable(s, c.concurrency, c.maxNodes, c.prompt);
      AnswerIsMerge(s, c.concurrency, c.maxNodes, r);
      if c.prompt {
        OrderIsBounded(s, c.concurrency, c.maxNodes, r);
      }
      assert IsMergeOf(sources, s.requests[r].joined, c, answer);
    }
    if IsCutMerge(sources, c, answer) {
      var order :| IsMergeOf(sources, order, c, answer);
      var s := OrderCanHappen(sources, given, order, c.concurrency, c.maxNodes, c.prompt);
      assert IsAnswered(s, 0, sources, given, answer);
    }
  }

  // ---------- when the cut matters ----------

  /** No node stands in the list twice. */
  ghost predicate AreDistinct(nodes: seq<ProxyNode>) {
    forall n :: multiset(nodes)[n] <= 1
  }

  /** At most one source brings nodes. */
  ghost predicate AtMostOneBrings(sources: seq<Task>) {
    forall i, j :: 0 <= i < j < |sources| ==> NodesOf(sources[i]) == [] || NodesOf(sources[j]) == []
  }

  /** Every two possible answers hold the same nodes. */
  ghost predicate AnswersAgree(sources: seq<Task>, given: seq<SourceError>, c: Setting) {
    forall a, b :: IsPossible(sources, given, c, a) && IsPossible(sources, given, c, b) ==> multiset(a) == multiset(b)
  }

  ghost predicate NoneBrings(tasks: seq<Task>) {
    forall t :: t in multiset(tasks) ==> NodesOf(t) == []
  }

  lemma {:induction false} NoneBringsNothing(tasks: seq<Task>)
    requires NoneBrings(tasks)
    ensures AllNodes(tasks) == []
  {
    if tasks != [] {
      var init, last := tasks[..|tasks| - 1], tasks[|tasks| - 1];
      assert tasks == init + [last];
      assert multiset(tasks) == multiset(init) + multiset{last};
      NoneBringsNothing(init);
    }
  }

  /** All nodes come from the one task that brings some, wherever it stands. */
  lemma OneBringsAll(tasks: seq<Task>, k: nat, order: seq<Task>)
    requires k < |tasks| && NoneBrings(RemoveAt(tasks, k)) && multiset(order) == multiset(tasks)
    ensures AllNodes(order) == NodesOf(tasks[k])
  {
    var x := tasks[k];
    assert x in multiset(tasks);
    var j :| 0 <= j < |order| && order[j] == x;
    var l, r := order[..j], order[j + 1..];
    assert order == l + [x] + r;
    assert multiset(RemoveAt(tasks, k) + [x]) == multiset(tasks);
    Without(RemoveAt(tasks, k), x, l, r);
    assert multiset(l + r) == multiset(l) + multiset(r);
    NoneBringsNothing(l);
    NoneBringsNothing(r);
    FlatStep(NodesOf, l, x);
    FlatOfConcat(NodesOf, l + [x], r);
  }

  /** If at most one source brings nodes, every order gives the same list. */
  lemma OneSourceOneList(sources: seq<Task>, order: seq<Task>)
    requires AtMostOneBrings(sources) && multiset(order) == multiset(sources)
    ensures AllNodes(order) == AllNodes(sources)
  {
    if k: nat :| k < |sources| && NodesOf(sources[k]) != [] {
      var rest := RemoveAt(sources, k);
      forall t | t in multiset(rest)
        ensures NodesOf(t) == []
      {
        var j :| 0 <= j < |rest| && rest[j] == t;
        assert rest[j] == sources[if j < k then j else j + 1];
      }
      OneBringsAll(sources, k, order);
      OneBringsAll(sources, k, sources);
    } else {
      forall t | t in multiset(sources)
        ensures NodesOf(t) == []
      {
        var j :| 0 <= j < |sources| && sources[j] == t;
      }
      NoneBringsNothing(sources);
      NoneBringsNothing(order);
    }
  }

  /** The cases in which the order cannot be seen in the answer: all nodes fit, the limit is zero, at most one source
      brings nodes, or a single permit leaves only one order. */
  ghost predicate HidesOrder(sources: seq<Task>, c: Setting) {
    || |AllNodes(sources)| <= c.maxNodes || c.maxNodes == 0 || AtMostOneBrings(sources)
    || (c.prompt && Capacity(c.concurrency) == 1)
  }

  lemma HiddenOrder(sources: seq<Task>, c: Setting, a: seq<Task>, b: seq<Task>)
    requires HidesOrder(sources, c)
    requires IsOrder(sources, a, c.concurrency, c.prompt) && IsOrder(sources, b, c.concurrency, c.prompt)
    ensures multiset(FirstOf(AllNodes(a), c.maxNodes)) == multiset(FirstOf(AllNodes(b), c.maxNodes))
  {
    if |AllNodes(sources)| <= c.maxNodes {
      SameLength(NodesOf, a, sources);
      SameLength(NodesOf, b, sources);
      FlatOfPermutation(NodesOf, a, b);
    } else if c.prompt && Capacity(c.concurrency) == 1 {
      OnePermitKeepsOrder(sources, a);
      OnePermitKeepsOrder(sources, b);
    } else if c.maxNodes != 0 {
      OneSourceOneList(sources, a);
      OneSourceOneList(sources, b);
    }
  }

  /** In these cases all answers agree, even if sources share nodes. */
  lemma HiddenOrderAgrees(sources: seq<Task>, given: seq<SourceError>, c: Setting)
    requires HidesOrder(sources, c)
    ensures AnswersAgree(sources, given, c)
  {
    forall a, b | IsPossible(sources, given, c, a) && IsPossible(sources, given, c, b)
      ensures multiset(a) == multiset(b)
    {
      AnswersExactly(sources, given, c, a);
      AnswersExactly(sources, given, c, b);
      var p :| IsMergeOf(sources, p, c, a);
      var q :| IsMergeOf(sources, q, c, b);
      HiddenOrder(sources, c, p, q);
    }
  }

  // ---------- one source overtaken by all others ----------

  /** Of two distinct lists, neither empty, the cut of `x + y` and the cut of `y + x` differ in some node. */
  lemma CutsDiffer(x: seq<ProxyNode>, y: seq<ProxyNode>, max: nat)
    requires x != [] && y != [] && 0 < max < |x| + |y| && AreDistinct(x + y)
    ensures multiset(FirstOf(x + y, max)) != multiset(FirstOf(y + x, max))
  {
    var xy, yx := x + y, y + x;
    if max <= |y| {
      var e := x[0];
      assert xy[..max][0] == e;
      assert e in multiset(xy[..max]);
      OnlyOnce(xy, 0);
      forall i | 0 <= i < max
        ensures yx[..max][i] != e
      {
        assert yx[i] == xy[|x| + i];
      }
      NotIn(yx[..max], e);
    } else {
      var e := y[|y| - 1];
      assert yx[..max][|y| - 1] == e;
      assert e in multiset(yx[..max]);
      OnlyOnce(xy, |xy| - 1);
      NotIn(xy[..max], e);
    }
  }

  lemma NotIn(s: seq<ProxyNode>, e: ProxyNode)
    requires forall i :: 0 <= i < |s| ==> s[i] != e
    ensures e !in multiset(s)
  {
  }

  lemma OnlyOnce(s: seq<ProxyNode>, k: nat)
    requires k < |s| && AreDistinct(s)
    ensures forall i :: 0 <= i < |s| && i != k ==> s[i] != s[k]
  {
    var rest := RemoveAt(s, k);
    assert multiset(s)[s[k]] == multiset(rest)[s[k]] + 1;
    forall i | 0 <= i < |s| && i != k
      ensures s[i] != s[k]
    {
      var j := if i < k then i else i - 1;
      assert rest[j] == s[i] && rest[j] in multiset(rest);
    }
  }

  /** The first source that brings nodes. */
  lemma {:induction false} FirstBringer(sources: seq<Task>, i: nat) returns (k: nat)
    requires i < |sources| && NodesOf(sources[i]) != []
    ensures k <= i && NodesOf(sources[k]) != [] && forall j :: 0 <= j < k ==> NodesOf(sources[j]) == []
  {
    if k' :| 0 <= k' < i && NodesOf(sources[k']) != [] {
      k := FirstBringer(sources, k');
    } else {
      k := i;
    }
  }

  /** With nothing in front of it, a source brings its nodes first; moved to the back, last. */
  lemma MovedNodes(l: seq<Task>, x: Task, r: seq<Task>)
    requires AllNodes(l) == []
    ensures AllNodes(l + [x] + r) == NodesOf(x) + AllNodes(l + r)
    ensures AllNodes(l + r + [x]) == AllNodes(l + r) + NodesOf(x)
  {
    FlatStep(NodesOf, l, x);
    FlatOfConcat(NodesOf, l + [x], r);
    FlatOfConcat(NodesOf, l, r);
    FlatStep(NodesOf, l + r, x);
  }

  lemma {:induction false} BringsSomething(tasks: seq<Task>, j: nat)
    requires j < |tasks| && NodesOf(tasks[j]) != []
    ensures AllNodes(tasks) != []
  {
    if j < |tasks| - 1 {
      BringsSomething(tasks[..|tasks| - 1], j);
    }
  }

  /** The order of the sources themselves can always happen. */
  lemma OwnOrderKeepsUp(sources: seq<Task>, capacity: nat)
    requires capacity >= 1
    ensures KeepsUp(sources, sources, capacity)
  {
    forall n | 0 < n <= |sources|
      ensures PrefixKeepsUp(sources, sources, capacity, n)
    {
      PrefixIsBelow(sources, n, n - 1 + capacity);
    }
  }

  /** With two permits, one source can be overtaken by all behind it. */
  lemma OvertakenKeepsUp(l: seq<Task>, x: Task, r: seq<Task>, capacity: nat)
    requires capacity >= 2
    ensures KeepsUp(l + [x] + r, l + r + [x], capacity)
  {
    forall n | 0 < n <= |l + r + [x]|
      ensures PrefixKeepsUp(l + [x] + r, l + r + [x], capacity, n)
    {
      OvertakenPrefix(l, x, r, n);
      FirstIsBelow(l + [x] + r, n + 1, n - 1 + capacity);
    }
  }

  /** The first `n` of the one order are among the first `n + 1` of the other. */
  lemma OvertakenPrefix(l: seq<Task>, x: Task, r: seq<Task>, n: nat)
    requires n <= |l + r + [x]|
    ensures multiset((l + r + [x])[..n]) <= multiset(FirstOf(l + [x] + r, n + 1))
  {
    if n < |l| {
      assert (l + r + [x])[..n] == (l + [x] + r)[..n];
      PrefixIsBelow(l + [x] + r, n, n + 1);
    } else if n <= |l + r| {
      BehindTheOvertaken(l, x, r, n - |l|);
      OneMore(l, x, r[..n - |l|]);
    } else {
      assert (l + r + [x])[..n] == l + r + [x];
      OneMoved(l, x, r);
    }
  }

  lemma BehindTheOvertaken(l: seq<Task>, x: Task, r: seq<Task>, m: nat)
    requires m <= |r|
    ensures (l + r + [x])[..|l| + m] == l + r[..m]
    ensures FirstOf(l + [x] + r, |l| + m + 1) == l + [x] + r[..m]
  {
  }

  lemma OneMore(l: seq<Task>, x: Task, r: seq<Task>)
    ensures multiset(l + r) <= multiset(l + [x] + r)
  {
  }

  lemma OneMoved(l: seq<Task>, x: Task, r: seq<Task>)
    ensures multiset(l + r + [x]) == multiset(l + [x] + r)
  {
  }

  lemma TwoAnswers(sources: seq<Task>, given: seq<SourceError>, c: Setting, p: seq<Task>, q: seq<Task>)
    requires IsOrder(sources, p, c.concurrency, c.prompt) && IsOrder(sources, q, c.concurrency, c.prompt)
    requires multiset(FirstOf(AllNodes(p), c.maxNodes)) != multiset(FirstOf(AllNodes(q), c.maxNodes))
    ensures !AnswersAgree(sources, given, c)
  {
    var a, b := FirstOf(AllNodes(p), c.maxNodes), FirstOf(AllNodes(q), c.maxNodes);
    assert IsMergeOf(sources, p, c, a) && IsMergeOf(sources, q, c, b);
    AnswersExactly(sources, given, c, a);
    AnswersExactly(sources, given, c, b);
  }

  lemma SeenAround(l: seq<Task>, x: Task, r: seq<Task>, given: seq<SourceError>, c: Setting)
    requires AllNodes(l) == [] && NodesOf(x) != [] && AllNodes(r) != []
    requires AreDistinct(AllNodes(l + [x] + r)) && 0 < c.maxNodes < |AllNodes(l + [x] + r)|
    requires !(c.prompt && Capacity(c.concurrency) == 1)
    ensures !AnswersAgree(l + [x] + r, given, c)
  {
    BothOrders(l, x, r, c);
    MovedNodes(l, x, r);
    FlatOfConcat(NodesOf, l, r);
    CutsDiffer(NodesOf(x), AllNodes(l + r), c.maxNodes);
    TwoAnswers(l + [x] + r, given, c, l + [x] + r, l + r + [x]);
  }

  lemma BothOrders(l: seq<Task>, x: Task, r: seq<Task>, c: Setting)
    requires !(c.prompt && Capacity(c.concurrency) == 1)
    ensures IsOrder(l + [x] + r, l + [x] + r, c.concurrency, c.prompt)
    ensures IsOrder(l + [x] + r, l + r + [x], c.concurrency, c.prompt)
  {
    OneMoved(l, x, r);
    OwnOrderKeepsUp(l + [x] + r, Capacity(c.concurrency));
    if c.prompt {
      OvertakenKeepsUp(l, x, r, Capacity(c.concurrency));
    }
  }

  lemma NothingBefore(sources: seq<Task>, k: nat)
    requires k <= |sources| && forall j :: 0 <= j < k ==> NodesOf(sources[j]) == []
    ensures AllNodes(sources[..k]) == []
  {
    forall t | t in multiset(sources[..k])
      ensures NodesOf(t) == []
    {
      var h :| 0 <= h < k && sources[..k][h] == t;
    }
    NoneBringsNothing(sources[..k]);
  }

  lemma SeenOrder(sources: seq<Task>, given: seq<SourceError>, c: Setting)
    requires AreDistinct(AllNodes(sources)) && !HidesOrder(sources, c)
    ensures !AnswersAgree(sources, given, c)
  {
    var i, j :| 0 <= i < j < |sources| && NodesOf(sources[i]) != [] && NodesOf(sources[j]) != [];
    var k := FirstBringer(sources, i);
    var l, x, r := sources[..k], sources[k], sources[k + 1..];
    assert sources == l + [x] + r;
    NothingBefore(sources, k);
    assert r[j - k - 1] == sources[j];
    BringsSomething(r, j - k - 1);
    SeenAround(l, x, r, given, c);
  }

  /** Main result. When no node comes twice, all possible answers to a request hold the same nodes exactly when all
      nodes fit, or the limit is zero, or at most one source brings nodes, or, in prompt runs, there is a single
      permit. */
  lemma ScheduleMattersExactly(sources: seq<Task>, given: seq<SourceError>, c: Setting)
    requires AreDistinct(AllNodes(sources))
    ensures AnswersAgree(sources, given, c) <==> HidesOrder(sources, c)
  {
    if HidesOrder(sources, c) {
      HiddenOrderAgrees(sources, given, c);
    } else {
      SeenOrder(sources, given, c);
    }
  }

  // ---------- an example ----------

  lemma TwoNodes(a: Task, b: Task)
    ensures AllNodes([a, b]) == NodesOf(a) + NodesOf(b)
  {
    FlatStep(NodesOf, [], a);
    FlatStep(NodesOf, [a], b);
    assert [] + [a] == [a] && [a] + [b] == [a, b];
  }

  /** Two sources with one node each, a limit of one, and two permits: two answers, in prompt runs. */
  lemma CutDependsOnSchedule(x: ProxyNode, y: ProxyNode, concurrency: nat)
    requires x != y && Capacity(concurrency) >= 2
    ensures var sources := [Task("a", Nodes([x])), Task("b", Nodes([y]))];
            && IsPossible(sources, [], Setting(concurrency, 1, true), [x])
            && IsPossible(sources, [], Setting(concurrency, 1, true), [y])
  {
    var a, b := Task("a", Nodes([x])), Task("b", Nodes([y]));
    var c := Setting(concurrency, 1, true);
    TwoNodes(a, b);
    TwoNodes(b, a);
    BothOrders([], a, [b], c);
    assert [] + [a] + [b] == [a, b] && [] + [b] + [a] == [b, a];
    assert IsMergeOf([a, b], [a, b], c, [x]) && IsMergeOf([a, b], [b, a], c, [y]);
    AnswersExactly([a, b], [], c, [x]);
    AnswersExactly([a, b], [], c, [y]);
  }
}
