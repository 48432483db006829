/** What a source brings, and what that makes of an answer (crates/server/src/service.rs): single lines and fetched
    texts, told by what they were made from. */
module Sources {
  import opened Wrappers
  import opened Fetch
  import opened Library
  import opened LineLoop
  import opened Lists
  import opened Model
  import opened Parser
  import opened Scheduler
  import opened Serve
  import opened Subscription
  import opened V2ray
  import Sniffing
  import Text

  // ---------- one source ----------

  /** Nodes, or the report that there were none. */
  function NodesOrNone(nodes: seq<ProxyNode>, skipped: nat): TaskResult {
    if nodes == [] then Failure(NoNodes(skipped)) else Nodes(nodes)
  }

  /** The part of a list of nodes that comes back. */
  function Published(nodes: seq<ProxyNode>, max: nat): seq<ProxyNode> {
    FirstOf(NormalNodes(Carried(nodes)), max)
  }

  /** A source of any kind but `single` that serves a published subscription, wrapped or plain, brings its carried
      nodes in normal form, up to the limit. The wrapped one is lost outside the recognised sizes. */
  lemma FetchedBrings(lib: Library, maxNodes: nat, name: string, kind: string, url: string, nodes: seq<ProxyNode>)
    requires Lawful(lib) && ArePublishable(lib, nodes) && kind != "single"
    ensures PlainText(lib, nodes).Ok? && V2rayText(lib, nodes).Ok?
    ensures TaskOf(lib, maxNodes, Source(name, kind, url, Ok(PlainText(lib, nodes).value))) ==
            Task(name, NodesOrNone(Published(nodes, maxNodes), 0))
    ensures TaskOf(lib, maxNodes, Source(name, kind, url, Ok(V2rayText(lib, nodes).value))) ==
            Task(name, if Carried(nodes) == [] || IsRecognised(PlainText(lib, nodes).value) then
                   NodesOrNone(Published(nodes, maxNodes), 0)
                 else Failure(NoNodes(if maxNodes == 0 then 0 else 1)))
  {
    PlainRoundTrip(lib, nodes, maxNodes);
    SubscriptionRoundTrip(lib, nodes, maxNodes);
  }

  lemma RestoredLine(lib: Library, n: ProxyNode)
    requires Lawful(lib) && IsRestorable(lib, n) && IsCarried(n.kind)
    requires NodeLine(lib, n).Ok? && IsWholeLine(NodeLine(lib, n).value)
    ensures ParseLine(lib, NodeLine(lib, n).value) == Done(NormalNode(n))
  {
    var line := NodeLine(lib, n).value;
    Restore(lib, n);
    PrefixShape(n.kind, line);
    TrimClean(line);
    ReadByPrefix(lib, n.kind, line);
  }

  /** A single node brings the normal form of what its line was printed from, with white space around the line or
      without, and whatever was fetched. */
  lemma SingleBrings(
    lib: Library, maxNodes: nat, name: string, before: string, n: ProxyNode, after: string,
    fetched: Result<string, string>)
    requires Lawful(lib) && IsRestorable(lib, n) && IsCarried(n.kind)
    requires NodeLine(lib, n).Ok? && IsWholeLine(NodeLine(lib, n).value)
    requires Text.IsBlank(before) && Text.IsBlank(after)
    ensures TaskOf(lib, maxNodes, Source(name, "single", before + NodeLine(lib, n).value + after, fetched)) ==
            Task(name, Nodes([NormalNode(n)]))
  {
    var line := NodeLine(lib, n).value;
    RestoredLine(lib, n);
    Text.TrimTwice(before, line, after);
    assert ParseLine(lib, before + line + after) == ParseLine(lib, line);
  }

  /** A request that fails is reported, and so is a single line that is refused; a task that panics reports nothing,
      which for a single line is so exactly on the trapped lines. */
  lemma FailureIsReported(lib: Library, maxNodes: nat, s: Source)
    ensures s.kind != "single" && s.fetched.Err? ==>
              TaskOf(lib, maxNodes, s) == Task(s.name, Failure(RequestFailed(s.fetched.error)))
    ensures s.kind == "single" && ParseLine(lib, s.url).Failed? ==>
              TaskOf(lib, maxNodes, s) == Task(s.name, Failure(ParseFailed(ParseLine(lib, s.url).error)))
    ensures s.kind == "single" ==>
              (TaskOf(lib, maxNodes, s) == Task(s.name, Crash) <==>
               IsTrap(Text.Trim(s.url)) || IsOtherTrap(lib, Text.Trim(s.url)))
  {
    LinePanicsExactly(lib, s.url);
  }

  /** A text that was fetched with a line of Clash YAML in it brings the nodes of the YAML reader, up to the limit. */
  lemma YamlBrings(
    lib: Library, maxNodes: nat, name: string, kind: string, url: string, text: string, i: nat, nodes: seq<ProxyNode>)
    requires kind != "single" && i < |Text.Lines(text)| && Sniffing.IsYamlLine(Text.Lines(text)[i])
    requires lib.parseYaml(text) == Some(nodes)
    ensures TaskOf(lib, maxNodes, Source(name, kind, url, Ok(text))) ==
            Task(name, NodesOrNone(FirstOf(nodes, maxNodes), 0))
  {
    Sniffing.YamlExactly(lib, text, maxNodes);
  }

  /** Any other text with `://` in it is read line by line: the task panics exactly when a line that is looked at is
      trapped; otherwise it brings the first nodes that the lines hold, or reports how many lines were skipped. */
  lemma LinesBring(lib: Library, maxNodes: nat, name: string, kind: string, url: string, text: string, i: nat)
    requires kind != "single" && Text.At(text, "://", i)
    requires forall j :: 0 <= j < |Text.Lines(text)| ==> !Sniffing.IsYamlLine(Text.Lines(text)[j])
    ensures var lines, r := Text.Lines(text), TaskOf(lib, maxNodes, Source(name, kind, url, Ok(text))).result;
            var looks := LookAll(LineReader(lib), lines);
            var nodes := FirstOf(LineLoop.Nodes(looks), maxNodes);
            && (r == Crash <==> exists j :: 0 <= j < Consumed(looks, maxNodes) && IsTrappedLine(lib, lines[j]))
            && (r != Crash ==>
                  r == if nodes != [] then Fetch.Nodes(nodes) else Failure(NoNodes(Consumed(looks, maxNodes))))
  {
    var looks := LookAll(LineReader(lib), Text.Lines(text));
    Sniffing.PlainExactly(lib, text, i, maxNodes);
    LinesPanicExactly(lib, text, maxNodes);
    if !ParseLines(lib, text, maxNodes).Panic? {
      EveryLineCounts(looks, maxNodes);
    }
  }

  // ---------- errors ----------

  lemma {:induction false} ErrorsOfTasks(tasks: seq<Task>, e: SourceError)
    ensures e in AllErrors(tasks) <==>
            exists i :: 0 <= i < |tasks| && tasks[i] == Task(e.sourceName, Failure(e.reason))
  {
    if tasks != [] {
      var n := |tasks| - 1;
      ErrorsOfTasks(tasks[..n], e);
      assert e in ErrorsOf(tasks[n]) <==> tasks[n] == Task(e.sourceName, Failure(e.reason));
      assert AllErrors(tasks) == AllErrors(tasks[..n]) + ErrorsOf(tasks[n]);
      assert forall i :: 0 <= i < n ==> tasks[..n][i] == tasks[i];
    }
  }

  /** The errors of an answer are those that were known before, and those of the failed sources, under their names. */
  lemma ErrorsExactly(
    lib: Library, sources: seq<Source>, s: System, concurrency: nat, maxNodes: nat, r: nat, e: SourceError)
    requires IsReachable(s, concurrency, maxNodes) && IsServed(s, r, lib, maxNodes, sources)
    ensures var q := s.requests[r];
            e in q.errors <==>
            || e in q.given
            || exists i ::
                 0 <= i < |sources| && TaskOf(lib, maxNodes, sources[i]) == Task(e.sourceName, Failure(e.reason))
  {
    var q, tasks := s.requests[r], TasksOf(lib, maxNodes, sources);
    AnswerIsMerge(s, concurrency, maxNodes, r);
    FlatOfPermutation(ErrorsOf, q.joined, tasks);
    ErrorsOfTasks(tasks, e);
    assert e in AllErrors(q.joined) <==> e in multiset(AllErrors(q.joined));
    assert e in AllErrors(tasks) <==> e in multiset(AllErrors(tasks));
  }

  // ---------- answers ----------

  /** The source was made from nodes, and these come back from it: one node for a single line, the carried ones up to
      the limit for a subscription. */
  ghost predicate Offers(lib: Library, maxNodes: nat, s: Source, nodes: seq<ProxyNode>) {
    || (s.kind == "single" &&
        exists n, before, after :: IsSingleOf(lib, s.url, n, before, after) && nodes == [NormalNode(n)])
    || (s.kind != "single" && nodes != [] &&
        exists all :: IsSubscriptionOf(lib, s.fetched, all) && nodes == Published(all, maxNodes))
  }

  ghost predicate IsSingleOf(lib: Library, url: string, n: ProxyNode, before: string, after: string) {
    && IsRestorable(lib, n) && IsCarried(n.kind)
    && NodeLine(lib, n).Ok? && IsWholeLine(NodeLine(lib, n).value)
    && Text.IsBlank(before) && Text.IsBlank(after)
    && url == before + NodeLine(lib, n).value + after
  }

  ghost predicate IsSubscriptionOf(lib: Library, fetched: Result<string, string>, all: seq<ProxyNode>) {
    && ArePublishable(lib, all) && PlainText(lib, all).Ok? && V2rayText(lib, all).Ok?
    && (fetched == Ok(PlainText(lib, all).value) ||
        (fetched == Ok(V2rayText(lib, all).value) && IsRecognised(PlainText(lib, all).value)))
  }

  lemma OfferIsBrought(lib: Library, maxNodes: nat, s: Source, nodes: seq<ProxyNode>)
    requires Lawful(lib) && Offers(lib, maxNodes, s, nodes)
    ensures TaskOf(lib, maxNodes, s) == Task(s.name, Fetch.Nodes(nodes))
  {
    if s.kind == "single" {
      var n, before, after :| IsSingleOf(lib, s.url, n, before, after) && nodes == [NormalNode(n)];
      SingleBrings(lib, maxNodes, s.name, before, n, after, s.fetched);
    } else {
      var all :| IsSubscriptionOf(lib, s.fetched, all) && nodes == Published(all, maxNodes);
      FetchedBrings(lib, maxNodes, s.name, s.kind, s.url, all);
    }
  }

  /** The lists, one behind the other. */
  function Concat(lists: seq<seq<ProxyNode>>): seq<ProxyNode> {
    if lists == [] then [] else Concat(lists[..|lists| - 1]) + lists[|lists| - 1]
  }

  lemma {:induction false} TasksBring(tasks: seq<Task>, offers: seq<seq<ProxyNode>>)
    requires |tasks| == |offers|
    requires forall i :: 0 <= i < |tasks| ==> tasks[i].result == Fetch.Nodes(offers[i])
    ensures AllNodes(tasks) == Concat(offers) && AllErrors(tasks) == []
  {
    if tasks != [] {
      TasksBring(tasks[..|tasks| - 1], offers[..|offers| - 1]);
    }
  }

  /** Main result. A request whose sources all offer nodes is answered without any error but those known before,
      whatever the schedule: with as many nodes as are offered, up to the limit, and if all fit, with exactly these
      nodes. */
  lemma OffersAreAnswered(
    lib: Library, sources: seq<Source>, offers: seq<seq<ProxyNode>>, s: System, concurrency: nat, maxNodes: nat, r: nat)
    requires Lawful(lib) && |sources| == |offers|
    requires forall i :: 0 <= i < |sources| ==> Offers(lib, maxNodes, sources[i], offers[i])
    requires IsReachable(s, concurrency, maxNodes) && IsServed(s, r, lib, maxNodes, sources)
    ensures s.requests[r].errors == s.requests[r].given
    ensures var answer, all := s.requests[r].phase.nodes, Concat(offers);
            && |answer| == (if |all| <= maxNodes then |all| else maxNodes)
            && (|all| <= maxNodes ==> multiset(answer) == multiset(all))
  {
    var q, tasks := s.requests[r], TasksOf(lib, maxNodes, sources);
    forall i | 0 <= i < |sources|
      ensures tasks[i].result == Fetch.Nodes(offers[i])
    {
      OfferIsBrought(lib, maxNodes, sources[i], offers[i]);
    }
    TasksBring(tasks, offers);
    AnswerIsMerge(s, concurrency, maxNodes, r);
    FlatOfPermutation(NodesOf, q.joined, tasks);
    SameLength(NodesOf, q.joined, tasks);
    SameLength(ErrorsOf, q.joined, tasks);
  }
}
