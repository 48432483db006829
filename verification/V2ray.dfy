/** The aggregate printer (crates/proxy-core/src/formats/v2ray.rs). */
module V2ray {
  import opened Wrappers
  import opened Library
  import opened Model
  import Base64
  import Lists
  import Ss
  import Ssr
  import Text
  import Trojan
  import Tuic
  import Utf8
  import Vless
  import Vmess

  /** The protocols that a v2ray subscription carries; nodes of the others are left out. */
  predicate IsCarried(kind: Protocol) {
    kind in {Ss, Ssr, Vmess, Vless, Trojan, Tuic}
  }

  /** The printer of a carried node. */
  function NodeLine(lib: Library, n: ProxyNode): Result<string, SerializeError>
    requires IsCarried(n.kind)
  {
    match n.kind
    case Ss => Ss.SsLine(n)
    case Ssr => Ssr.SsrLine(n)
    case Vmess => Vmess.VmessLine(lib, n)
    case Vless => Vless.VlessLine(n)
    case Trojan => Trojan.TrojanLine(n)
    case Tuic => Tuic.TuicLine(n)
  }

  /** What a node contributes: nothing, a line, or an error. */
  function Contribution(lib: Library, n: ProxyNode): Option<Result<string, SerializeError>> {
    if IsCarried(n.kind) then Some(NodeLine(lib, n)) else None
  }

  function AddLine(r: Result<seq<string>, SerializeError>, c: Option<Result<string, SerializeError>>):
    Result<seq<string>, SerializeError>
  {
    if r.Err? || c.None? then r
    else match c.value
         case Ok(line) => Ok(r.value + [line])
         case Err(e) => Err(e)
  }

  /** The lines of the carried nodes, or the first error. */
  function NodeLines(lib: Library, nodes: seq<ProxyNode>): Result<seq<string>, SerializeError> {
    if nodes == [] then Ok([])
    else AddLine(NodeLines(lib, nodes[..|nodes| - 1]), Contribution(lib, nodes[|nodes| - 1]))
  }

  /** What `serialize_v2ray_plain` means. */
  function PlainText(lib: Library, nodes: seq<ProxyNode>): Result<string, SerializeError> {
    match NodeLines(lib, nodes)
    case Err(e) => Err(e)
    case Ok(lines) => Ok(Text.Join(lines, "\n"))
  }

  /** `serialize_v2ray` */
  function V2rayText(lib: Library, nodes: seq<ProxyNode>): Result<string, SerializeError> {
    match PlainText(lib, nodes)
    case Err(e) => Err(e)
    case Ok(joined) => Ok(if joined == "" then "" else Base64.Padded(Utf8.Encode(joined)))
  }

  lemma NodeLinesStep(lib: Library, nodes: seq<ProxyNode>, i: nat)
    requires i < |nodes|
    ensures NodeLines(lib, nodes[..i + 1]) == AddLine(NodeLines(lib, nodes[..i]), Contribution(lib, nodes[i]))
  {
    assert nodes[..i + 1][..i] == nodes[..i];
  }

  lemma {:induction false} ErrorStays(lib: Library, nodes: seq<ProxyNode>, i: nat)
    requires i <= |nodes| && NodeLines(lib, nodes[..i]).Err?
    ensures NodeLines(lib, nodes) == NodeLines(lib, nodes[..i])
    decreases |nodes| - i
  {
    if i < |nodes| {
      NodeLinesStep(lib, nodes, i);
      ErrorStays(lib, nodes, i + 1);
    } else {
      assert nodes[..i] == nodes;
    }
  }

  /** `serialize_v2ray_plain` */
  method SerializePlain(lib: Library, nodes: seq<ProxyNode>) returns (r: Result<string, SerializeError>)
    ensures r == PlainText(lib, nodes)
  {
    var lines := [];
    for i := 0 to |nodes|
      invariant NodeLines(lib, nodes[..i]) == Ok(lines)
    {
      NodeLinesStep(lib, nodes, i);
      var n := nodes[i];
      if !IsCarried(n.kind) {
        continue;
      }
      var line := NodeLine(lib, n);
      if line.Err? {
        ErrorStays(lib, nodes, i + 1);
        return Err(line.error);
      }
      lines := lines + [line.value];
    }
    assert nodes[..|nodes|] == nodes;
    return Ok(Text.Join(lines, "\n"));
  }

  /** The carried nodes, in order. */
  function Carried(nodes: seq<ProxyNode>): (r: seq<ProxyNode>)
    ensures forall i :: 0 <= i < |r| ==> IsCarried(r[i].kind)
    ensures forall i :: 0 <= i < |r| ==> r[i] in nodes
  {
    if nodes == [] then []
    else
      var last := nodes[|nodes| - 1];
      Carried(nodes[..|nodes| - 1]) + if IsCarried(last.kind) then [last] else []
  }

  /** Carried nodes keep their order and their number: the list is filtered, part by part. */
  lemma {:induction false} CarriedOfConcat(a: seq<ProxyNode>, b: seq<ProxyNode>)
    ensures Carried(a + b) == Carried(a) + Carried(b)
  {
    if b == [] {
      assert a + b == a;
    } else {
      var init, last := b[..|b| - 1], b[|b| - 1];
      CarriedOfConcat(a, init);
      assert (a + b)[..|a + b| - 1] == a + init && (a + b)[|a + b| - 1] == last;
      Lists.Associative(Carried(a), Carried(init), if IsCarried(last.kind) then [last] else []);
    }
  }

  /** The lines are those of the given nodes, one by one. */
  ghost predicate AreLinesOf(lib: Library, nodes: seq<ProxyNode>, lines: seq<string>) {
    && |lines| == |nodes|
    && forall i :: 0 <= i < |nodes| ==> Contribution(lib, nodes[i]) == Some(Ok(lines[i]))
  }

  /** Printing succeeds exactly when every carried node can be printed; then there is one line a carried node, in
      order. */
  lemma {:induction false} PrintsCarried(lib: Library, nodes: seq<ProxyNode>)
    ensures NodeLines(lib, nodes).Ok? <==> forall n :: n in Carried(nodes) ==> Contribution(lib, n).value.Ok?
    ensures NodeLines(lib, nodes).Ok? ==> AreLinesOf(lib, Carried(nodes), NodeLines(lib, nodes).value)
  {
    if nodes != [] {
      PrintsCarried(lib, nodes[..|nodes| - 1]);
    }
  }

  lemma LineIsAdded(lib: Library, r: Result<seq<string>, SerializeError>, n: ProxyNode)
    ensures var added := AddLine(r, Contribution(lib, n));
            && (added.Ok? ==> r.Ok? && (IsCarried(n.kind) ==> NodeLine(lib, n).Ok?))
            && (added.Err? && r.Ok? ==> IsCarried(n.kind) && NodeLine(lib, n) == Err(added.error))
            && (r.Err? ==> added == r)
  {
  }

  lemma {:induction false} AllPrint(lib: Library, nodes: seq<ProxyNode>)
    requires NodeLines(lib, nodes).Ok?
    ensures forall i :: 0 <= i < |nodes| && IsCarried(nodes[i].kind) ==> NodeLine(lib, nodes[i]).Ok?
  {
    if nodes != [] {
      var init := nodes[..|nodes| - 1];
      LineIsAdded(lib, NodeLines(lib, init), nodes[|nodes| - 1]);
      AllPrint(lib, init);
    }
  }

  /** Otherwise the error is that of the first carried node that cannot be printed. */
  lemma {:induction false} FirstErrorIsReported(lib: Library, nodes: seq<ProxyNode>) returns (i: nat)
    requires NodeLines(lib, nodes).Err?
    ensures i < |nodes| && IsCarried(nodes[i].kind) && NodeLine(lib, nodes[i]) == Err(NodeLines(lib, nodes).error)
    ensures forall j :: 0 <= j < i && IsCarried(nodes[j].kind) ==> NodeLine(lib, nodes[j]).Ok?
  {
    var init := nodes[..|nodes| - 1];
    LineIsAdded(lib, NodeLines(lib, init), nodes[|nodes| - 1]);
    if NodeLines(lib, init).Err? {
      i := FirstErrorIsReported(lib, init);
    } else {
      i := |nodes| - 1;
      AllPrint(lib, init);
    }
  }
}
