/** `fetch_and_merge` (crates/server/src/service.rs): what one task brings, and how the results are merged. */
module Fetch {
  import opened Wrappers
  import opened Lists
  import opened LineLoop
  import opened Library
  import opened Model
  import Parser

  // ---------- one task ----------

  datatype Reason = ParseFailed(error: ParseError) | NoNodes(skipped: nat) | RequestFailed(text: string)

  /** What a task ends with; a panic inside the parser ends the task without a result. */
  datatype TaskResult = Nodes(nodes: seq<ProxyNode>) | Failure(reason: Reason) | Crash

  /** The body of a spawned task: a single node is parsed, anything else is fetched and read as a subscription. */
  function RunTask(lib: Library, kind: string, url: string, fetched: Result<string, string>, maxNodes: nat):
    TaskResult
  {
    if kind == "single" then
      match Parser.ParseLine(lib, url)
      case Done(n) => Nodes([n])
      case Failed(e) => Failure(ParseFailed(e))
      case Panic => Crash
    else
      match fetched
      case Err(text) => Failure(RequestFailed(text))
      case Ok(text) =>
        match Parser.ParseSubscription(lib, text, maxNodes)
        case Done(p) => if p.nodes == [] then Failure(NoNodes(p.skipped)) else Nodes(p.nodes)
        case Failed(e) => Failure(ParseFailed(e))
        case Panic => Crash
  }

  /** A task never succeeds without a node, and a fetched source never brings more than the limit. */
  lemma TaskShape(lib: Library, kind: string, url: string, fetched: Result<string, string>, maxNodes: nat)
    ensures match RunTask(lib, kind, url, fetched, maxNodes)
            case Nodes(ns) => 1 <= |ns| && |ns| <= (if kind == "single" then 1 else maxNodes)
            case Failure(ParseFailed(_)) => kind == "single"
            case _ => true
  {
    if kind != "single" && fetched.Ok? && Parser.ParseSubscription(lib, fetched.value, maxNodes).Done? {
      Parser.NeverTooMany(lib, fetched.value, maxNodes);
    }
  }

  // ---------- merging ----------

  datatype Task = Task(name: string, result: TaskResult)

  datatype SourceError = SourceError(sourceName: string, reason: Reason)

  function NodesOf(t: Task): seq<ProxyNode> {
    if t.result.Nodes? then t.result.nodes else []
  }

  function ErrorsOf(t: Task): seq<SourceError> {
    if t.result.Failure? then [SourceError(t.name, t.result.reason)] else []
  }

  /** The whole node lists of the tasks, one behind the other. */
  function AllNodes(tasks: seq<Task>): seq<ProxyNode> {
    Flat(NodesOf, tasks)
  }

  /** One error for each task that failed. */
  function AllErrors(tasks: seq<Task>): seq<SourceError> {
    Flat(ErrorsOf, tasks)
  }

  /** The `join_next` loop and the truncation, for tasks that end in the given order. */
  method Merge(ended: seq<Task>, errors: seq<SourceError>, maxNodes: nat)
    returns (nodes: seq<ProxyNode>, allErrors: seq<SourceError>)
    ensures nodes == FirstOf(AllNodes(ended), maxNodes)
    ensures allErrors == errors + AllErrors(ended)
  {
    nodes, allErrors := [], errors;
    for i := 0 to |ended|
      invariant nodes == AllNodes(ended[..i])
      invariant allErrors == errors + AllErrors(ended[..i])
    {
      FlatStep(NodesOf, ended[..i], ended[i]);
      FlatStep(ErrorsOf, ended[..i], ended[i]);
      assert ended[..i + 1] == ended[..i] + [ended[i]];
      match ended[i].result {
        case Nodes(ns) => nodes := nodes + ns;
        case Failure(reason) => allErrors := allErrors + [SourceError(ended[i].name, reason)];
        case Crash =>
      }
    }
    assert ended[..|ended|] == ended;
    if |nodes| > maxNodes {
      nodes := nodes[..maxNodes];
    }
  }
}
