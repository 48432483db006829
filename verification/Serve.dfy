/** From the fetcher to the printer and back: what a request is answered with can be printed, and what a reader makes
    of the text that is served (crates/server/src/service.rs, crates/server/src/routes/subscribe.rs). */
module Serve {
  import opened Wrappers
  import opened Fetch
  import opened Library
  import opened LineLoop
  import opened Model
  import opened Parser
  import opened Republish
  import opened Scheduler
  import opened Subscription
  import opened Tidy
  import opened V2ray
  import Text

  /** The source of a task, and what fetching it brought. */
  datatype Source = Source(name: string, kind: string, url: string, fetched: Result<string, string>)

  /** The task that is spawned for a source. */
  function TaskOf(lib: Library, maxNodes: nat, s: Source): Task {
    Task(s.name, RunTask(lib, s.kind, s.url, s.fetched, maxNodes))
  }

  function TasksOf(lib: Library, maxNodes: nat, sources: seq<Source>): (r: seq<Task>)
    ensures |r| == |sources| && forall i :: 0 <= i < |r| ==> r[i] == TaskOf(lib, maxNodes, sources[i])
  {
    seq(|sources|, i requires 0 <= i < |sources| => TaskOf(lib, maxNodes, sources[i]))
  }

  /** What was fetched is not taken for Clash YAML. */
  predicate IsFetchedByLine(lib: Library, s: Source) {
    s.kind == "single" || s.fetched.Err? || IsReadByLine(lib, s.fetched.value)
  }

  /** A stored single node takes no line feed over literally. */
  predicate IsTidySource(lib: Library, s: Source) {
    var l := Text.Trim(s.url);
    s.kind == "single" && ParseLine(lib, s.url).Done? && Dispatch(l).Some? ==>
      '\n' !in Literal(Dispatch(l).value, l)
  }

  ghost predicate All(p: ProxyNode -> bool, nodes: seq<ProxyNode>) {
    forall i :: 0 <= i < |nodes| ==> p(nodes[i])
  }

  lemma TaskNodesWereRead(lib: Library, maxNodes: nat, s: Source)
    requires Lawful(lib) && IsFetchedByLine(lib, s)
    ensures All(WasRead, NodesOf(TaskOf(lib, maxNodes, s)))
  {
    if s.kind == "single" {
      if ParseLine(lib, s.url).Done? {
        LineShape(lib, s.url);
      }
    } else if s.fetched.Ok? && ParseSubscription(lib, s.fetched.value, maxNodes).Done? {
      SubscriptionWasRead(lib, s.fetched.value, maxNodes);
    }
  }

  lemma TaskNodesAreTidy(lib: Library, maxNodes: nat, s: Source)
    requires Lawful(lib) && IsFetchedByLine(lib, s) && IsTidySource(lib, s)
    ensures All(IsTidyNode, NodesOf(TaskOf(lib, maxNodes, s)))
  {
    if s.kind == "single" {
      if ParseLine(lib, s.url).Done? {
        LineIsTidyExactly(lib, s.url);
      }
    } else if s.fetched.Ok? && ParseSubscription(lib, s.fetched.value, maxNodes).Done? {
      SubscriptionWasRead(lib, s.fetched.value, maxNodes);
    }
  }

  lemma {:induction false} MergedAll(p: ProxyNode -> bool, tasks: seq<Task>)
    requires forall i :: 0 <= i < |tasks| ==> All(p, NodesOf(tasks[i]))
    ensures All(p, AllNodes(tasks))
  {
    if tasks != [] {
      MergedAll(p, tasks[..|tasks| - 1]);
    }
  }

  /** Request `r` was made for these sources and was answered. */
  predicate IsServed(s: System, r: nat, lib: Library, maxNodes: nat, sources: seq<Source>) {
    && r < |s.requests| && s.requests[r].phase.Returned?
    && s.requests[r].sources == TasksOf(lib, maxNodes, sources)
  }

  /** What holds of the nodes of every source holds of the answer. */
  lemma AnswerAll(
    lib: Library, sources: seq<Source>, s: System, concurrency: nat, maxNodes: nat, r: nat, p: ProxyNode -> bool)
    requires IsReachable(s, concurrency, maxNodes) && IsServed(s, r, lib, maxNodes, sources)
    requires forall i :: 0 <= i < |sources| ==> All(p, NodesOf(TaskOf(lib, maxNodes, sources[i])))
    ensures All(p, s.requests[r].phase.nodes)
  {
    var q := s.requests[r];
    AnswerIsMerge(s, concurrency, maxNodes, r);
    forall i | 0 <= i < |q.joined|
      ensures All(p, NodesOf(q.joined[i]))
    {
      assert q.joined[i] in multiset(q.joined);
      var j :| 0 <= j < |q.sources| && q.sources[j] == q.joined[i];
    }
    MergedAll(p, q.joined);
  }

  /** Whatever the schedule, the answer to a request is a list that can be printed, plainly and wrapped. */
  lemma AnswerPrints(lib: Library, sources: seq<Source>, s: System, concurrency: nat, maxNodes: nat, r: nat)
    requires Lawful(lib) && forall i :: 0 <= i < |sources| ==> IsFetchedByLine(lib, sources[i])
    requires IsReachable(s, concurrency, maxNodes) && IsServed(s, r, lib, maxNodes, sources)
    ensures All(WasRead, s.requests[r].phase.nodes)
    ensures PlainText(lib, s.requests[r].phase.nodes).Ok? && V2rayText(lib, s.requests[r].phase.nodes).Ok?
  {
    forall i | 0 <= i < |sources|
      ensures All(WasRead, NodesOf(TaskOf(lib, maxNodes, sources[i])))
    {
      TaskNodesWereRead(lib, maxNodes, sources[i]);
    }
    AnswerAll(lib, sources, s, concurrency, maxNodes, r, WasRead);
    ReadListsPrint(lib, s.requests[r].phase.nodes);
  }

  /** Main result. From the schedule to the reader of the served text: the answer is the cut merge of the sources in the
      order of the joins, and both texts that can be served for it, plain and wrapped, give back its nodes as far as
      they survive, or are lost for their size. */
  lemma AnswerReadsBack(
    lib: Library, sources: seq<Source>, s: System, concurrency: nat, maxNodes: nat, r: nat, max: nat)
    requires Lawful(lib)
    requires forall i :: 0 <= i < |sources| ==> IsFetchedByLine(lib, sources[i]) && IsTidySource(lib, sources[i])
    requires IsReachable(s, concurrency, maxNodes) && IsServed(s, r, lib, maxNodes, sources)
    ensures var order := s.requests[r].joined;
            var nodes := FirstOf(AllNodes(order), maxNodes);
            && multiset(order) == multiset(TasksOf(lib, maxNodes, sources))
            && s.requests[r].phase == Returned(nodes)
            && V2rayText(lib, nodes).Ok? && PlainText(lib, nodes).Ok?
            && var plain, wrapped := PlainText(lib, nodes).value, V2rayText(lib, nodes).value;
            && ReadsBack(lib, nodes, max, ParseSubscription(lib, plain, max))
            && (if Carried(nodes) == [] || IsRecognised(plain) then
                  ReadsBack(lib, nodes, max, ParseSubscription(lib, wrapped, max))
                else ParseSubscription(lib, wrapped, max) == Lost(max))
  {
    forall i | 0 <= i < |sources|
      ensures All(IsTidyNode, NodesOf(TaskOf(lib, maxNodes, sources[i])))
    {
      TaskNodesAreTidy(lib, maxNodes, sources[i]);
    }
    AnswerPrints(lib, sources, s, concurrency, maxNodes, r);
    AnswerAll(lib, sources, s, concurrency, maxNodes, r, IsTidyNode);
    AnswerIsMerge(s, concurrency, maxNodes, r);
    var nodes := s.requests[r].phase.nodes;
    assert WereRead(nodes);
    Republished(lib, nodes, max);
  }
}
