/** Whole subscriptions: `parse_subscription_text` (crates/proxy-core/src/parser.rs) over what `serialize_v2ray`
    and `serialize_v2ray_plain` (crates/proxy-core/src/formats/v2ray.rs) print. */
module Subscription {
  import opened Wrappers
  import opened Library
  import opened LineLoop
  import opened Model
  import opened Parser
  import opened V2ray
  import Base64
  import Ss
  import Ssr
  import Text
  import Trojan
  import Tuic
  import Uri
  import Utf8
  import Vless
  import Vmess

  // ---------- one node ----------

  /** A server that survives in a URI. */
  predicate IsPlainServer(server: string) {
    Uri.IsServer(server) && !Uri.StartsBracket(server)
  }

  /** The nodes whose printed line can be read again, protocol by protocol. */
  predicate IsRestorable(lib: Library, n: ProxyNode) {
    match n.kind
    case Ss => IsPlainServer(n.server) && Ss.Fits(n) && Ss.IsPrintableCrypto(n.crypto.value)
    case Ssr => Ssr.IsSsrServer(n.server) && Ssr.Fits(n) && Ssr.IsPrintableCrypto(n.crypto.value)
    case Vmess => Vmess.Fits(lib, n)
    case Vless => IsPlainServer(n.server) && n.uuid.Some? && n.uuid.value != "" && '#' !in n.uuid.value
    case Trojan => IsPlainServer(n.server) && n.password.Some? && n.password.value != ""
    case Tuic => IsPlainServer(n.server) && '#' !in n.uuid.GetOr("") && ':' !in n.uuid.GetOr("")
    case _ => false
  }

  /** What reading the printed line of a node gives. */
  function NormalNode(n: ProxyNode): ProxyNode {
    match n.kind
    case Ss => if n.crypto.Some? && n.password.Some? then Ss.Normal(n) else n
    case Ssr => if n.crypto.Some? && n.password.Some? then Ssr.Normal(n) else n
    case Vmess => Vmess.Normal(n)
    case Vless => Vless.Normal(n)
    case Trojan => Trojan.Normal(n)
    case Tuic => Tuic.Normal(n)
    case _ => n
  }

  /** A node, its kind, and the line that it is printed as and read from. */
  predicate Restores(lib: Library, n: ProxyNode, line: string) {
    && IsCarried(n.kind) && NodeLine(lib, n) == Ok(line)
    && HasPrefix(n.kind, line) && ReadAs(lib, n.kind, line) == Done(NormalNode(n))
  }

  lemma SsReads(n: ProxyNode) returns (line: string)
    requires n.kind == Ss && IsPlainServer(n.server) && Ss.Fits(n) && Ss.IsPrintableCrypto(n.crypto.value)
    ensures Ss.SsLine(n) == Ok(line) && Ss.SCHEME <= line
    ensures Ss.SsNode(line) == Done(Ss.Normal(n))
  {
    Ss.PrintedReads(n);
    line := Ss.SsLine(n).value;
  }

  lemma SsrReads(n: ProxyNode) returns (line: string)
    requires n.kind == Ssr && Ssr.IsSsrServer(n.server) && Ssr.Fits(n) && Ssr.IsPrintableCrypto(n.crypto.value)
    ensures Ssr.SsrLine(n) == Ok(line) && Ssr.SCHEME <= line
    ensures Ssr.SsrNode(line) == Done(Ssr.Normal(n))
  {
    Ssr.PrintedReads(n);
    line := Ssr.SsrLine(n).value;
  }

  lemma VmessReads(lib: Library, n: ProxyNode) returns (line: string)
    requires n.kind == Vmess && Vmess.Fits(lib, n) && Lawful(lib)
    ensures Vmess.VmessLine(lib, n) == Ok(line) && Vmess.SCHEME <= line
    ensures Vmess.VmessNode(lib, line) == Done(Vmess.Normal(n))
  {
    Vmess.RoundTrip(lib, n);
    line := Vmess.VmessLine(lib, n).value;
  }

  lemma VlessReads(n: ProxyNode) returns (line: string)
    requires n.kind == Vless && IsPlainServer(n.server) && n.uuid.Some? && n.uuid.value != "" && '#' !in n.uuid.value
    ensures Vless.VlessLine(n) == Ok(line) && Vless.SCHEME <= line
    ensures Vless.VlessNode(line) == Done(Vless.Normal(n))
  {
    Vless.PrintedReads(n);
    line := Vless.VlessLine(n).value;
  }

  lemma TrojanReads(n: ProxyNode) returns (line: string)
    requires n.kind == Trojan && IsPlainServer(n.server) && n.password.Some? && n.password.value != ""
    ensures Trojan.TrojanLine(n) == Ok(line) && Trojan.SCHEME <= line
    ensures Trojan.TrojanNode(line) == Done(Trojan.Normal(n))
  {
    Trojan.PrintedReads(n);
    line := Trojan.TrojanLine(n).value;
  }

  lemma TuicReads(n: ProxyNode) returns (line: string)
    requires n.kind == Tuic && IsPlainServer(n.server) && '#' !in n.uuid.GetOr("") && ':' !in n.uuid.GetOr("")
    ensures Tuic.TuicLine(n) == Ok(line) && Tuic.SCHEME <= line
    ensures Tuic.TuicNode(line) == Done(Tuic.Normal(n))
  {
    Tuic.PrintedReads(n);
    line := Tuic.TuicLine(n).value;
  }

  lemma RestoredIf(lib: Library, n: ProxyNode, line: string, m: ProxyNode)
    requires IsCarried(n.kind) && NodeLine(lib, n) == Ok(line) && HasPrefix(n.kind, line)
    requires ReadAs(lib, n.kind, line) == Done(m) && m == NormalNode(n)
    ensures Restores(lib, n, line)
  {
  }

  lemma RestoreSs(lib: Library, n: ProxyNode) returns (line: string)
    requires n.kind == Ss && IsRestorable(lib, n)
    ensures Restores(lib, n, line)
  {
    line := SsReads(n);
    RestoredIf(lib, n, line, Ss.Normal(n));
  }

  lemma RestoreSsr(lib: Library, n: ProxyNode) returns (line: string)
    requires n.kind == Ssr && IsRestorable(lib, n)
    ensures Restores(lib, n, line)
  {
    line := SsrReads(n);
    RestoredIf(lib, n, line, Ssr.Normal(n));
  }

  lemma RestoreVmess(lib: Library, n: ProxyNode) returns (line: string)
    requires n.kind == Vmess && IsRestorable(lib, n) && Lawful(lib)
    ensures Restores(lib, n, line)
  {
    line := VmessReads(lib, n);
    RestoredIf(lib, n, line, Vmess.Normal(n));
  }

  lemma RestoreVless(lib: Library, n: ProxyNode) returns (line: string)
    requires n.kind == Vless && IsRestorable(lib, n)
    ensures Restores(lib, n, line)
  {
    line := VlessReads(n);
    RestoredIf(lib, n, line, Vless.Normal(n));
  }

  lemma RestoreTrojan(lib: Library, n: ProxyNode) returns (line: string)
    requires n.kind == Trojan && IsRestorable(lib, n)
    ensures Restores(lib, n, line)
  {
    line := TrojanReads(n);
    RestoredIf(lib, n, line, Trojan.Normal(n));
  }

  lemma RestoreTuic(lib: Library, n: ProxyNode) returns (line: string)
    requires n.kind == Tuic && IsRestorable(lib, n)
    ensures Restores(lib, n, line)
  {
    line := TuicReads(n);
    RestoredIf(lib, n, line, Tuic.Normal(n));
  }

  /** Printing and reading one restorable node gives its normal form. */
  lemma Restore(lib: Library, n: ProxyNode)
    requires Lawful(lib) && IsRestorable(lib, n)
    ensures IsCarried(n.kind) && NodeLine(lib, n).Ok? && Restores(lib, n, NodeLine(lib, n).value)
  {
    var line: string;
    match n.kind {
      case Ss => line := RestoreSs(lib, n);
      case Ssr => line := RestoreSsr(lib, n);
      case Vmess => line := RestoreVmess(lib, n);
      case Vless => line := RestoreVless(lib, n);
      case Trojan => line := RestoreTrojan(lib, n);
      case Tuic => line := RestoreTuic(lib, n);
    }
  }

  // ---------- one line ----------

  /** One whole line: no line feed, and something other than white space at its end. */
  predicate IsWholeLine(line: string) {
    '\n' !in line && line != "" && !Text.IsWhitespace(line[|line| - 1])
  }

  /** A printed line that the line loop looks at as it is. */
  predicate IsCleanLine(line: string) {
    IsWholeLine(line) && !IsTooLong(line)
  }

  /** What a line with a prefix looks like to the sniffer. */
  predicate IsUri(l: string) {
    l != "" && !Text.IsWhitespace(l[0]) && Text.Contains(l, "://") && !IsProxiesLine(l)
  }

  lemma PrefixShape(kind: Protocol, l: string)
    requires IsCarried(kind) && HasPrefix(kind, l)
    ensures IsUri(l)
  {
    var i: nat := match kind case Ss => 2 case Ssr => 3 case Vmess => 5 case Vless => 5 case Trojan => 6 case Tuic => 4;
    assert l[i..i + 3] == "://";
    assert Text.At(l, "://", i);
  }

  lemma LookAtRead(lib: Library, kind: Protocol, l: string, m: ProxyNode)
    requires HasPrefix(kind, l) && ReadAs(lib, kind, l) == Done(m)
    requires Text.Trim(l) == l && l != "" && !IsTooLong(l)
    ensures LookAt(LineReader(lib), l) == Found(m)
  {
    DispatchIsOrderFree(kind, l);
  }

  lemma TrimClean(line: string)
    requires IsWholeLine(line) && !Text.IsWhitespace(line[0])
    ensures Text.Trim(line) == line
  {
  }

  lemma LookAtRestored(lib: Library, n: ProxyNode, line: string)
    requires Restores(lib, n, line) && IsCleanLine(line)
    ensures LookAt(LineReader(lib), line) == Found(NormalNode(n))
  {
    PrefixShape(n.kind, line);
    TrimClean(line);
    LookAtRead(lib, n.kind, line, NormalNode(n));
  }

  // ---------- all lines ----------

  function NormalNodes(nodes: seq<ProxyNode>): (r: seq<ProxyNode>)
    ensures |r| == |nodes| && forall i :: 0 <= i < |r| ==> r[i] == NormalNode(nodes[i])
  {
    seq(|nodes|, i requires 0 <= i < |nodes| => NormalNode(nodes[i]))
  }

  /** Lines that are found one by one: the first `max` nodes, nothing skipped. */
  lemma FoundInOrder(read: Reader, lines: seq<string>, nodes: seq<ProxyNode>, max: nat)
    requires |lines| == |nodes|
    requires forall i :: 0 <= i < |lines| ==> LookAt(read, lines[i]) == Found(nodes[i])
    ensures FirstNodes(LookAll(read, lines), max) == Done(Parsed(FirstOf(nodes, max), 0))
  {
    assert LookAll(read, lines) == FoundAll(nodes);
    AllFound(nodes, max);
  }

  // ---------- base64 around the lines ----------

  lemma NoColon(t: string)
    requires ':' !in t && t != "" && !Text.IsWhitespace(t[0])
    ensures !Text.Contains(t, "://") && !IsProxiesLine(t)
  {
    Text.Missing(t, "://", 0);
    Text.Missing(t, "proxies:", 7);
  }

  lemma OneLine(t: string)
    requires t != "" && '\n' !in t
    ensures Text.Lines(t) == [t]
  {
    assert Text.Find(t, '\n').None?;
  }

  predicate IsWrapped(t: string) {
    t != "" && forall c :: c in t ==> Base64.IsSymbol(c, Base64.Standard) || c == '='
  }

  lemma WrappedChars(t: string)
    requires IsWrapped(t)
    ensures ':' !in t && '\n' !in t && !Text.IsWhitespace(t[0])
  {
    assert t[0] in t;
  }

  /** A text of symbols and `=` signs: one line, nothing to trim, no colon. */
  lemma WrappedText(t: string)
    requires IsWrapped(t)
    ensures Text.Lines(t) == [t] && Text.Trim(t) == t && Utf8.Size(t) == |t|
    ensures ':' !in t && !Text.Contains(t, "://") && !LooksLikeYaml(t)
  {
    Base64.SymbolText(t, Base64.Standard);
    WrappedChars(t);
    NoColon(t);
    OneLine(t);
  }

  lemma NoPrefix(kind: Protocol, l: string)
    requires ':' !in l
    ensures !HasPrefix(kind, l)
  {
    match kind {
      case Ss => Text.Missing(l, Ss.SCHEME, 2);
      case Ssr => Text.Missing(l, Ssr.SCHEME, 3);
      case Vmess => Text.Missing(l, Vmess.SCHEME, 5);
      case Vless => Text.Missing(l, Vless.SCHEME, 5);
      case Trojan => Text.Missing(l, Trojan.SCHEME, 6);
      case Socks5 => Text.Missing(l, "socks5://", 6);
      case Http => Text.Missing(l, "http://", 4);
      case Hysteria2 => Text.Missing(l, "hysteria2://", 9); Text.Missing(l, "hy2://", 3);
      case Hysteria => Text.Missing(l, "hysteria://", 8);
      case Tuic => Text.Missing(l, Tuic.SCHEME, 4);
      case Wireguard => Text.Missing(l, "wireguard://", 9);
    }
  }

  /** A text without a colon is no node. */
  lemma LookAtNoNode(lib: Library, l: string)
    requires ':' !in Text.Trim(l)
    ensures LookAt(LineReader(lib), l) == Skipped
  {
    var t := Text.Trim(l);
    if Dispatch(t).Some? {
      DispatchIsOrderFree(Dispatch(t).value, t);
      NoPrefix(Dispatch(t).value, t);
    }
  }

  /** A text that is not taken for a list of lines is taken for one line that is no node. */
  function Lost(max: nat): Outcome<Parsed> {
    Done(Parsed([], if max == 0 then 0 else 1))
  }

  lemma OneSkipped(max: nat)
    ensures FirstNodes([Skipped], max) == Lost(max)
  {
    assert Nodes([Skipped][..0]) == [] && Nodes([Skipped][..1]) == [];
  }

  const MIN_WRAPPED: nat := 13
  const MAX_WRAPPED: nat := 3145728

  /** The sizes, in bytes, at which the wrapped text is recognised as base64. */
  predicate IsRecognised(joined: string) {
    MIN_WRAPPED <= Utf8.Size(joined) <= MAX_WRAPPED
  }

  function Wrap(joined: string): string {
    Base64.Padded(Utf8.Encode(joined))
  }

  lemma WrapShape(joined: string)
    requires joined != ""
    ensures IsWrapped(Wrap(joined))
    ensures Utf8.Size(Wrap(joined)) == (Utf8.Size(joined) + 2) / 3 * 4
  {
    Base64.PaddedBody(Utf8.Encode(joined));
  }

  lemma WrapDecodes(joined: string)
    ensures Base64.DecodeUrlString(Wrap(joined)) ==
            if Utf8.Size(joined) <= MAX_WRAPPED then Ok(joined) else Err(InvalidBase64(Wrap(joined)))
  {
    Base64.TextRoundTrip(joined, Base64.Standard);
  }

  lemma UnwrappedIs(t: string, joined: string)
    requires Text.Trim(t) == t && !Text.Contains(t, "://") && Text.Contains(joined, "://")
    requires Base64.DecodeUrlString(t) == Ok(joined) || Base64.DecodeUrlString(t).Err?
    ensures Unwrapped(t) == if Utf8.Size(t) > 16 && Base64.DecodeUrlString(t).Ok? then Some(joined) else None
  {
  }

  lemma SizeBound(size: nat, wrapped: nat)
    requires wrapped == (size + 2) / 3 * 4
    ensures wrapped > 16 <==> size >= MIN_WRAPPED
  {
  }

  lemma UnwrapsTo(t: string, joined: string)
    requires IsWrapped(t) && Utf8.Size(t) == (Utf8.Size(joined) + 2) / 3 * 4 && Text.Contains(joined, "://")
    requires Base64.DecodeUrlString(t) == if Utf8.Size(joined) <= MAX_WRAPPED then Ok(joined) else Err(InvalidBase64(t))
    ensures Unwrapped(t) == if IsRecognised(joined) then Some(joined) else None
  {
    SizeBound(Utf8.Size(joined), Utf8.Size(t));
    WrappedText(t);
    UnwrappedIs(t, joined);
  }

  /** What is read from a text around the lines: the lines, if their size is recognised; otherwise the text itself
      is taken for one line, which is no node. */
  lemma TextReads(lib: Library, t: string, joined: string, max: nat)
    requires IsWrapped(t) && Unwrapped(t) == if IsRecognised(joined) then Some(joined) else None
    ensures ParseSubscription(lib, t, max) ==
            if IsRecognised(joined) then ParseLines(lib, joined, max)
            else Lost(max)
  {
    WrappedText(t);
    LookAtNoNode(lib, t);
    OneSkipped(max);
    assert LookAll(LineReader(lib), [t]) == [Skipped];
  }

  lemma WrappedReads(lib: Library, joined: string, max: nat)
    requires joined != "" && Text.Contains(joined, "://")
    ensures ParseSubscription(lib, Wrap(joined), max) ==
            if IsRecognised(joined) then ParseLines(lib, joined, max)
            else Lost(max)
  {
    WrapShape(joined);
    WrapDecodes(joined);
    UnwrapsTo(Wrap(joined), joined);
    TextReads(lib, Wrap(joined), joined, max);
  }

  lemma DirectTextReads(lib: Library, t: string, joined: string, max: nat)
    requires IsWrapped(t)
    requires Base64.DecodeUrlString(t) == if Utf8.Size(joined) <= MAX_WRAPPED then Ok(joined) else Err(InvalidBase64(t))
    ensures ParseV2ray(lib, t, max) ==
            if Utf8.Size(joined) <= MAX_WRAPPED then ParseLines(lib, joined, max)
            else Lost(max)
  {
    WrappedText(t);
    LookAtNoNode(lib, t);
    OneSkipped(max);
    assert LookAll(LineReader(lib), [t]) == [Skipped];
  }

  lemma DirectWrappedReads(lib: Library, joined: string, max: nat)
    requires joined != ""
    ensures ParseV2ray(lib, Wrap(joined), max) ==
            if Utf8.Size(joined) <= MAX_WRAPPED then ParseLines(lib, joined, max)
            else Lost(max)
  {
    WrapShape(joined);
    WrapDecodes(joined);
    DirectTextReads(lib, Wrap(joined), joined, max);
  }

  lemma EmptyReads(lib: Library, max: nat)
    ensures ParseSubscription(lib, "", max) == Done(Parsed([], 0))
    ensures ParseV2ray(lib, "", max) == Done(Parsed([], 0))
  {
    assert Text.Lines("") == [];
    assert Utf8.Size("") == 0;
    assert Text.Trim("") == "";
  }

  // ---------- lists of lines ----------

  lemma JoinHolds(lines: seq<string>, t: string)
    requires lines != [] && Text.Contains(lines[0], t)
    ensures Text.Contains(Text.Join(lines, "\n"), t)
  {
    var i := Text.FindText(lines[0], t).value;
    var joined := Text.Join(lines, "\n");
    assert lines[0] <= joined;
    assert joined[i..i + |t|] == lines[0][i..i + |t|];
    assert Text.At(joined, t, i);
  }

  lemma JoinStart(lines: seq<string>)
    requires lines != [] && lines[0] != ""
    ensures Text.Join(lines, "\n") != "" && Text.Join(lines, "\n")[0] == lines[0][0]
  {
  }

  lemma {:induction false} JoinEnd(lines: seq<string>)
    requires lines != [] && lines[|lines| - 1] != ""
    ensures var s, last := Text.Join(lines, "\n"), lines[|lines| - 1];
            s != "" && s[|s| - 1] == last[|last| - 1]
  {
    if |lines| > 1 {
      JoinEnd(lines[1..]);
      var s, rest := Text.Join(lines, "\n"), Text.Join(lines[1..], "\n");
      assert s == (lines[0] + "\n") + rest;
    }
  }

  /** Whole lines with prefixes. */
  ghost predicate AreUriLines(lines: seq<string>) {
    forall i :: 0 <= i < |lines| ==> IsWholeLine(lines[i]) && IsUri(lines[i])
  }

  /** Lines with prefixes are sniffed as plain text. */
  lemma PlainIsPlain(lines: seq<string>)
    requires AreUriLines(lines)
    ensures var joined := Text.Join(lines, "\n"); !LooksLikeYaml(joined) && Unwrapped(joined) == None
  {
    var joined := Text.Join(lines, "\n");
    Text.LinesOfJoin(lines);
    if lines == [] {
      assert Text.Trim(joined) == "" && Utf8.Size(joined) == 0;
    } else {
      JoinStart(lines);
      JoinEnd(lines);
      assert Text.Trim(joined) == joined;
      JoinHolds(lines, "://");
    }
  }

  /** What the line loop makes of the given lines. */
  function LoopOver(lib: Library, lines: seq<string>, max: nat): Outcome<Parsed> {
    FirstNodes(LookAll(LineReader(lib), lines), max)
  }

  /** Joined lines with prefixes are looked at one by one, in plain text and, within the sizes, in base64. */
  lemma JoinedReads(lib: Library, lines: seq<string>, max: nat)
    requires AreUriLines(lines)
    ensures var joined := Text.Join(lines, "\n");
            && ParseSubscription(lib, joined, max) == LoopOver(lib, lines, max)
            && (lines != [] ==>
                  && ParseSubscription(lib, Wrap(joined), max) ==
                     (if IsRecognised(joined) then LoopOver(lib, lines, max) else Lost(max))
                  && ParseV2ray(lib, Wrap(joined), max) ==
                     (if Utf8.Size(joined) <= MAX_WRAPPED then LoopOver(lib, lines, max) else Lost(max)))
  {
    var joined := Text.Join(lines, "\n");
    PlainIsPlain(lines);
    Text.LinesOfJoin(lines);
    if lines != [] {
      JoinHolds(lines, "://");
      JoinStart(lines);
      WrappedReads(lib, joined, max);
      DirectWrappedReads(lib, joined, max);
    }
  }

  // ---------- the whole subscription ----------

  /** Every carried node prints to a whole line. */
  ghost predicate PrintWholeLines(lib: Library, nodes: seq<ProxyNode>) {
    forall i :: 0 <= i < |nodes| && IsCarried(nodes[i].kind) ==>
      NodeLine(lib, nodes[i]).Ok? && IsWholeLine(NodeLine(lib, nodes[i]).value)
  }

  lemma LineHasPrefix(lib: Library, n: ProxyNode)
    requires IsCarried(n.kind) && NodeLine(lib, n).Ok?
    ensures HasPrefix(n.kind, NodeLine(lib, n).value)
  {
  }

  lemma PrintedLines(lib: Library, nodes: seq<ProxyNode>)
    requires PrintWholeLines(lib, nodes)
    ensures NodeLines(lib, nodes).Ok? && AreUriLines(NodeLines(lib, nodes).value)
    ensures AreLinesOf(lib, Carried(nodes), NodeLines(lib, nodes).value)
  {
    PrintsCarried(lib, nodes);
    var carried, lines := Carried(nodes), NodeLines(lib, nodes).value;
    forall i | 0 <= i < |lines|
      ensures IsWholeLine(lines[i]) && IsUri(lines[i])
    {
      LineHasPrefix(lib, carried[i]);
      PrefixShape(carried[i].kind, lines[i]);
    }
  }

  /** What is read back from any published list, for every size: each printed line is looked at on its own. */
  lemma SubscriptionReads(lib: Library, nodes: seq<ProxyNode>, max: nat)
    requires PrintWholeLines(lib, nodes)
    ensures V2rayText(lib, nodes).Ok? && PlainText(lib, nodes).Ok? && NodeLines(lib, nodes).Ok?
    ensures var plain, loop := PlainText(lib, nodes).value, LoopOver(lib, NodeLines(lib, nodes).value, max);
            && ParseSubscription(lib, plain, max) == loop
            && ParseSubscription(lib, V2rayText(lib, nodes).value, max) ==
               (if Carried(nodes) == [] then Done(Parsed([], 0)) else if IsRecognised(plain) then loop else Lost(max))
            && ParseV2ray(lib, V2rayText(lib, nodes).value, max) ==
               (if Carried(nodes) == [] then Done(Parsed([], 0))
                else if Utf8.Size(plain) <= MAX_WRAPPED then loop else Lost(max))
  {
    PrintedLines(lib, nodes);
    var lines := NodeLines(lib, nodes).value;
    JoinedReads(lib, lines, max);
    if lines != [] {
      JoinStart(lines);
    } else {
      EmptyReads(lib, max);
    }
  }

  /** Nodes that are not carried do not matter; every carried one is restorable and prints to a clean line. */
  ghost predicate ArePublishable(lib: Library, nodes: seq<ProxyNode>) {
    forall i :: 0 <= i < |nodes| && IsCarried(nodes[i].kind) ==>
      IsRestorable(lib, nodes[i]) && NodeLine(lib, nodes[i]).Ok? && IsCleanLine(NodeLine(lib, nodes[i]).value)
  }

  /** Every line of publishable nodes is found to be the normal form of its node. */
  lemma PublishedLoop(lib: Library, nodes: seq<ProxyNode>, max: nat)
    requires Lawful(lib) && ArePublishable(lib, nodes)
    ensures NodeLines(lib, nodes).Ok?
    ensures LoopOver(lib, NodeLines(lib, nodes).value, max) ==
            Done(Parsed(FirstOf(NormalNodes(Carried(nodes)), max), 0))
  {
    PrintsCarried(lib, nodes);
    var carried, lines := Carried(nodes), NodeLines(lib, nodes).value;
    forall i | 0 <= i < |lines|
      ensures LookAt(LineReader(lib), lines[i]) == Found(NormalNode(carried[i]))
    {
      Restore(lib, carried[i]);
      LookAtRestored(lib, carried[i], lines[i]);
    }
    FoundInOrder(LineReader(lib), lines, NormalNodes(carried), max);
  }

  /** Reading the plain text back: the first `max` normal forms of the carried nodes, in order, nothing
      skipped. */
  lemma PlainRoundTrip(lib: Library, nodes: seq<ProxyNode>, max: nat)
    requires Lawful(lib) && ArePublishable(lib, nodes)
    ensures PlainText(lib, nodes).Ok?
    ensures ParseSubscription(lib, PlainText(lib, nodes).value, max) ==
            Done(Parsed(FirstOf(NormalNodes(Carried(nodes)), max), 0))
  {
    SubscriptionReads(lib, nodes, max);
    PublishedLoop(lib, nodes, max);
  }

  /** Reading a published subscription back, for every size: the first `max` normal forms of the carried nodes, in
      order, nothing skipped, exactly when the joined lines have 13 to 3145728 bytes. A shorter or longer
      subscription is lost: its base64 text is skipped as a line that is no node. */
  lemma SubscriptionRoundTrip(lib: Library, nodes: seq<ProxyNode>, max: nat)
    requires Lawful(lib) && ArePublishable(lib, nodes)
    ensures V2rayText(lib, nodes).Ok? && PlainText(lib, nodes).Ok?
    ensures ParseSubscription(lib, V2rayText(lib, nodes).value, max) ==
            if Carried(nodes) == [] then Done(Parsed([], 0))
            else if IsRecognised(PlainText(lib, nodes).value) then
              Done(Parsed(FirstOf(NormalNodes(Carried(nodes)), max), 0))
            else Lost(max)
  {
    SubscriptionReads(lib, nodes, max);
    PublishedLoop(lib, nodes, max);
  }

  /** The reader that does not sniff has no lower bound: every published subscription of at most 3145728 bytes is
      read back. */
  lemma DirectRoundTrip(lib: Library, nodes: seq<ProxyNode>, max: nat)
    requires Lawful(lib) && ArePublishable(lib, nodes)
    ensures V2rayText(lib, nodes).Ok? && PlainText(lib, nodes).Ok?
    ensures ParseV2ray(lib, V2rayText(lib, nodes).value, max) ==
            if Carried(nodes) == [] then Done(Parsed([], 0))
            else if Utf8.Size(PlainText(lib, nodes).value) <= MAX_WRAPPED then
              Done(Parsed(FirstOf(NormalNodes(Carried(nodes)), max), 0))
            else Lost(max)
  {
    SubscriptionReads(lib, nodes, max);
    PublishedLoop(lib, nodes, max);
  }
}
