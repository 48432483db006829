/** Nodes that `parse_line` returned, printed again: reading a subscription and publishing it. */
module Republish {
  import opened Wrappers
  import opened Library
  import opened LineLoop
  import opened Model
  import opened Parser
  import opened Subscription
  import opened Tidy
  import opened V2ray
  import Base64
  import Ss
  import Ssr
  import Text
  import Trojan
  import Tuic
  import Uri
  import Utf8
  import Vless
  import Vmess

  /** What is still needed of a node that was read, before it is published. */
  predicate Survives(lib: Library, n: ProxyNode) {
    match n.kind
    case Ss => !Uri.StartsBracket(n.server) && Ss.Fits(n)
    case Ssr => Ssr.Fits(n)
    case Vmess => Vmess.Fits(lib, n)
    case Vless => !Uri.StartsBracket(n.server)
    case Trojan => !Uri.StartsBracket(n.server)
    case Tuic => !Uri.StartsBracket(n.server)
    case _ => false
  }

  ghost predicate WasRead(n: ProxyNode) {
    match n.kind
    case Ss => Ss.IsRead(n)
    case Ssr => Ssr.IsRead(n)
    case Vmess => Vmess.IsRead(n)
    case Vless => Vless.IsRead(n)
    case Trojan => Trojan.IsRead(n)
    case Tuic => Tuic.IsRead(n)
    case _ => true
  }

  lemma ReadAsShape(lib: Library, kind: Protocol, l: string)
    requires Lawful(lib) && ReadAs(lib, kind, l).Done?
    ensures ReadAs(lib, kind, l).value.kind == kind && WasRead(ReadAs(lib, kind, l).value)
  {
    match kind {
      case Ss => Ss.ReadShape(l);
      case Ssr => Ssr.ReadShape(l);
      case Vmess => Vmess.ReadShape(lib, l);
      case Vless => Vless.ReadShape(l);
      case Trojan => Trojan.ReadShape(l);
      case Tuic => Tuic.ReadShape(l);
      case _ =>
    }
  }

  /** Every node that was read has the shape of its protocol. */
  lemma LineShape(lib: Library, line: string)
    requires Lawful(lib) && ParseLine(lib, line).Done?
    ensures WasRead(ParseLine(lib, line).value)
  {
    var l := Text.Trim(line);
    ReadAsShape(lib, Dispatch(l).value, l);
  }

  lemma PrintsRead(lib: Library, n: ProxyNode)
    requires WasRead(n) && IsCarried(n.kind)
    ensures NodeLine(lib, n).Ok?
  {
  }

  /** Of the nodes that were read, exactly the surviving ones can be restored from their printed lines. */
  lemma RestorableExactly(lib: Library, n: ProxyNode)
    requires WasRead(n) && IsCarried(n.kind)
    ensures IsRestorable(lib, n) <==> Survives(lib, n)
  {
  }

  /** A node that was read and its normal form are printed as the same line, except for trojan without TLS. */
  lemma SameLineExactly(lib: Library, n: ProxyNode)
    requires WasRead(n) && IsCarried(n.kind)
    ensures NodeLine(lib, NormalNode(n)) == NodeLine(lib, n) <==> (n.kind == Trojan ==> n.tls.Some?)
  {
    match n.kind {
      case Ss => assert Ss.Normal(n) == n;
      case Ssr => assert Ssr.Normal(n) == n;
      case Vmess => Vmess.PrintedMapIsStable(n);
      case Vless => Vless.LineIsStable(n);
      case Trojan => Trojan.LineIsStableExactly(n);
      case Tuic => Tuic.NormalOfRead(n);
    }
  }

  lemma NormalWasRead(n: ProxyNode)
    requires WasRead(n) && IsCarried(n.kind)
    ensures NormalNode(n).kind == n.kind && NormalNode(n).server == n.server
    ensures WasRead(NormalNode(n)) && NormalNode(NormalNode(n)) == NormalNode(n)
  {
    match n.kind {
      case Ss => assert Ss.Normal(n) == n;
      case Ssr => assert Ssr.Normal(n) == n;
      case Vmess => Vmess.NormalIsStable(n);
      case Vless => Vless.NormalIsStable(n);
      case Trojan => Trojan.NormalIsStable(n);
      case Tuic => Tuic.NormalOfRead(n);
    }
  }

  lemma NormalSurvives(lib: Library, n: ProxyNode)
    requires WasRead(n) && IsCarried(n.kind) && Survives(lib, n)
    ensures Survives(lib, NormalNode(n))
  {
    match n.kind {
      case Ss => assert Ss.Normal(n) == n;
      case Ssr => assert Ssr.Normal(n) == n;
      case Vmess => Vmess.PrintedMapIsStable(n);
      case _ => NormalWasRead(n);
    }
  }

  // ---------- whole lists ----------

  ghost predicate WereRead(nodes: seq<ProxyNode>) {
    forall i :: 0 <= i < |nodes| ==> WasRead(nodes[i]) && IsTidyNode(nodes[i])
  }

  lemma {:induction false} LookedAtWereRead(lib: Library, lines: seq<string>)
    requires Lawful(lib) && Text.Free(lines, '\n')
    ensures WereRead(Nodes(LookAll(LineReader(lib), lines)))
  {
    var looks := LookAll(LineReader(lib), lines);
    if lines != [] {
      assert looks[1..] == LookAll(LineReader(lib), lines[1..]);
      LookedAtWereRead(lib, lines[1..]);
      FirstWasRead(lib, lines[0]);
    }
  }

  lemma FirstWasRead(lib: Library, line: string)
    requires Lawful(lib) && '\n' !in line
    ensures WereRead(AsList(LookAt(LineReader(lib), line)))
  {
    if ParseLine(lib, line).Done? {
      LineShape(lib, line);
      LineIsTidy(lib, line);
    }
  }

  /** A text that was not taken for YAML. */
  predicate IsReadByLine(lib: Library, text: string) {
    !(LooksLikeYaml(text) && lib.parseYaml(text).Some?)
  }

  /** Every node of a subscription that was read line by line has the shape of its protocol, and nothing in it
      would break its printed line. */
  lemma SubscriptionWasRead(lib: Library, text: string, max: nat)
    requires Lawful(lib) && IsReadByLine(lib, text) && ParseSubscription(lib, text, max).Done?
    ensures WereRead(ParseSubscription(lib, text, max).value.nodes)
  {
    var body := if LooksLikeYaml(text) then text else Unwrapped(text).GetOr(text);
    NeverTooMany(lib, text, max);
    LinesHaveNoLineFeed(body);
    LookedAtWereRead(lib, Text.Lines(body));
  }

  /** Nodes that were read, from whatever text, can always be printed. */
  lemma ReadListsPrint(lib: Library, nodes: seq<ProxyNode>)
    requires forall i :: 0 <= i < |nodes| ==> WasRead(nodes[i])
    ensures PlainText(lib, nodes).Ok? && V2rayText(lib, nodes).Ok?
  {
    PrintsCarried(lib, nodes);
    forall n | n in Carried(nodes)
      ensures Contribution(lib, n).value.Ok?
    {
      PrintsRead(lib, n);
    }
  }

  /** Every subscription that was read line by line can be printed again. */
  lemma SubscriptionPrints(lib: Library, text: string, max: nat)
    requires Lawful(lib) && IsReadByLine(lib, text) && ParseSubscription(lib, text, max).Done?
    ensures V2rayText(lib, ParseSubscription(lib, text, max).value.nodes).Ok?
  {
    SubscriptionWasRead(lib, text, max);
    ReadListsPrint(lib, ParseSubscription(lib, text, max).value.nodes);
  }

  // ---------- what becomes of each node ----------

  /** The node comes back from its printed line. */
  predicate ComesBack(lib: Library, n: ProxyNode) {
    && IsCarried(n.kind) && Survives(lib, n)
    && NodeLine(lib, n).Ok? && !IsTooLong(NodeLine(lib, n).value)
  }

  /** What the line loop makes of the printed line. */
  function Fate(lib: Library, n: ProxyNode): Look {
    if ComesBack(lib, n) then Found(NormalNode(n)) else Skipped
  }

  /** A node that does not survive prints to a line that is refused. */
  lemma LostNodeIsRefused(lib: Library, n: ProxyNode)
    requires Lawful(lib) && WasRead(n) && IsCarried(n.kind) && !Survives(lib, n)
    ensures NodeLine(lib, n).Ok? && ReadAs(lib, n.kind, NodeLine(lib, n).value).Failed?
  {
    match n.kind {
      case Ss => Ss.PrintedReads(n);
      case Ssr => Ssr.PrintedReads(n);
      case Vmess => Vmess.RoundTrip(lib, n);
      case Vless => Vless.PrintedReads(n);
      case Trojan => Trojan.PrintedReads(n);
      case Tuic => Tuic.PrintedReads(n);
    }
  }

  lemma LookAtRefused(lib: Library, kind: Protocol, line: string)
    requires IsCarried(kind) && HasPrefix(kind, line) && IsWholeLine(line) && !IsTooLong(line)
    requires ReadAs(lib, kind, line).Failed?
    ensures LookAt(LineReader(lib), line) == Skipped
  {
    PrefixShape(kind, line);
    TrimClean(line);
    ReadByPrefix(lib, kind, line);
  }

  lemma LookAtPrinted(lib: Library, n: ProxyNode)
    requires Lawful(lib) && WasRead(n) && IsTidyNode(n) && IsCarried(n.kind)
    ensures NodeLine(lib, n).Ok? && LookAt(LineReader(lib), NodeLine(lib, n).value) == Fate(lib, n)
  {
    PrintsRead(lib, n);
    PrintsTidy(lib, n);
    var line := NodeLine(lib, n).value;
    if !IsTooLong(line) {
      if Survives(lib, n) {
        RestorableExactly(lib, n);
        Restore(lib, n);
        LookAtRestored(lib, n, line);
      } else {
        LostNodeIsRefused(lib, n);
        LineHasPrefix(lib, n);
        LookAtRefused(lib, n.kind, line);
      }
    }
  }

  function Fates(lib: Library, nodes: seq<ProxyNode>): (r: seq<Look>)
    ensures |r| == |nodes| && forall i :: 0 <= i < |r| ==> r[i] == Fate(lib, nodes[i])
  {
    seq(|nodes|, i requires 0 <= i < |nodes| => Fate(lib, nodes[i]))
  }

  /** The nodes that come back, in order. */
  function Survivors(lib: Library, nodes: seq<ProxyNode>): (r: seq<ProxyNode>)
    ensures |r| <= |nodes|
    ensures forall i :: 0 <= i < |r| ==> r[i] in nodes && ComesBack(lib, r[i])
  {
    if nodes == [] then []
    else (if ComesBack(lib, nodes[0]) then [nodes[0]] else []) + Survivors(lib, nodes[1..])
  }

  lemma {:induction false} NodesOfFates(lib: Library, nodes: seq<ProxyNode>)
    ensures Nodes(Fates(lib, nodes)) == NormalNodes(Survivors(lib, nodes))
  {
    if nodes != [] {
      NodesOfFates(lib, nodes[1..]);
      assert Fates(lib, nodes)[1..] == Fates(lib, nodes[1..]);
    }
  }

  /** The loop over the fates: the first `max` survivors in normal form; with room to spare, every other node is
      skipped and counted. */
  lemma FatesCounted(lib: Library, nodes: seq<ProxyNode>, max: nat)
    ensures FirstNodes(Fates(lib, nodes), max).Done?
    ensures var p, back := FirstNodes(Fates(lib, nodes), max).value, Survivors(lib, nodes);
            && p.nodes == FirstOf(NormalNodes(back), max)
            && |p.nodes| + p.skipped == Consumed(Fates(lib, nodes), max)
            && (|back| < max ==> p.skipped == |nodes| - |back|)
  {
    EveryLineCounts(Fates(lib, nodes), max);
    FirstMax(Fates(lib, nodes), max);
    NodesOfFates(lib, nodes);
  }

  // ---------- read, publish, read again ----------

  lemma ReadListsPrintWhole(lib: Library, nodes: seq<ProxyNode>)
    requires WereRead(nodes)
    ensures PrintWholeLines(lib, nodes)
  {
    forall i | 0 <= i < |nodes| && IsCarried(nodes[i].kind)
      ensures NodeLine(lib, nodes[i]).Ok? && IsWholeLine(NodeLine(lib, nodes[i]).value)
    {
      PrintsRead(lib, nodes[i]);
      PrintsTidy(lib, nodes[i]);
    }
  }

  lemma LoopOverPrinted(lib: Library, nodes: seq<ProxyNode>, max: nat)
    requires Lawful(lib) && WereRead(nodes)
    ensures NodeLines(lib, nodes).Ok?
    ensures LoopOver(lib, NodeLines(lib, nodes).value, max) == FirstNodes(Fates(lib, Carried(nodes)), max)
  {
    ReadListsPrintWhole(lib, nodes);
    PrintedLines(lib, nodes);
    var carried, lines := Carried(nodes), NodeLines(lib, nodes).value;
    forall i | 0 <= i < |lines|
      ensures LookAt(LineReader(lib), lines[i]) == Fate(lib, carried[i])
    {
      LookAtPrinted(lib, carried[i]);
    }
    assert LookAll(LineReader(lib), lines) == Fates(lib, carried);
  }

  /** What is read back: the first `max` carried nodes that come back, in normal form and in order; every other carried
      node that is looked at counts as skipped. */
  predicate ReadsBack(lib: Library, nodes: seq<ProxyNode>, max: nat, result: Outcome<Parsed>) {
    var carried := Carried(nodes);
    var back := Survivors(lib, carried);
    && result.Done?
    && result.value.nodes == FirstOf(NormalNodes(back), max)
    && |result.value.nodes| + result.value.skipped == Consumed(Fates(lib, carried), max)
    && (|back| < max ==> result.value.skipped == |carried| - |back|)
  }

  lemma LoopReadsBack(lib: Library, nodes: seq<ProxyNode>, max: nat)
    ensures ReadsBack(lib, nodes, max, FirstNodes(Fates(lib, Carried(nodes)), max))
    ensures Carried(nodes) == [] ==> ReadsBack(lib, nodes, max, Done(Parsed([], 0)))
  {
    FatesCounted(lib, Carried(nodes), max);
  }

  /** Any list of nodes that were read, published and read again, plainly and wrapped. */
  lemma Republished(lib: Library, nodes: seq<ProxyNode>, max: nat)
    requires Lawful(lib) && WereRead(nodes)
    ensures V2rayText(lib, nodes).Ok? && PlainText(lib, nodes).Ok?
    ensures ReadsBack(lib, nodes, max, ParseSubscription(lib, PlainText(lib, nodes).value, max))
    ensures var result := ParseSubscription(lib, V2rayText(lib, nodes).value, max);
            if Carried(nodes) == [] || IsRecognised(PlainText(lib, nodes).value) then
              ReadsBack(lib, nodes, max, result)
            else result == Lost(max)
  {
    ReadListsPrintWhole(lib, nodes);
    SubscriptionReads(lib, nodes, max);
    LoopOverPrinted(lib, nodes, max);
    LoopReadsBack(lib, nodes, max);
  }

  lemma SurvivorsAreStable(lib: Library, nodes: seq<ProxyNode>)
    requires WereRead(nodes)
    ensures var again := NormalNodes(Survivors(lib, nodes));
            NormalNodes(again) == again && forall i :: 0 <= i < |again| ==> Survives(lib, again[i])
  {
    var back, again := Survivors(lib, nodes), NormalNodes(Survivors(lib, nodes));
    forall i | 0 <= i < |again|
      ensures NormalNode(again[i]) == again[i] && Survives(lib, again[i])
    {
      NormalWasRead(back[i]);
      NormalSurvives(lib, back[i]);
    }
  }

  /** Main result. Any subscription that was read line by line, published, and read again: from the plain text, and from
      the wrapped one if the joined lines have a recognised size, the first `max'` carried nodes that come back, in
      normal form and in order, and each other carried node that is looked at counts as skipped; otherwise everything is
      lost. Normal forms are stable. */
  lemma RepublishRoundTrip(lib: Library, text: string, max: nat, max': nat)
    requires Lawful(lib) && IsReadByLine(lib, text) && ParseSubscription(lib, text, max).Done?
    ensures var nodes := ParseSubscription(lib, text, max).value.nodes;
            var back := NormalNodes(Survivors(lib, Carried(nodes)));
            && V2rayText(lib, nodes).Ok? && PlainText(lib, nodes).Ok?
            && var plain, wrapped := PlainText(lib, nodes).value, V2rayText(lib, nodes).value;
            && ReadsBack(lib, nodes, max', ParseSubscription(lib, plain, max'))
            && (if Carried(nodes) == [] || IsRecognised(plain) then
                  ReadsBack(lib, nodes, max', ParseSubscription(lib, wrapped, max'))
                else ParseSubscription(lib, wrapped, max') == Lost(max'))
            && NormalNodes(back) == back
  {
    var nodes := ParseSubscription(lib, text, max).value.nodes;
    SubscriptionWasRead(lib, text, max);
    Republished(lib, nodes, max');
    SurvivorsAreStable(lib, Carried(nodes));
  }

  // ---------- a subscription that is lost ----------

  /** A Shadowsocks node whose line has ten bytes. */
  const TINY: ProxyNode := NewNode("", Ss, "", 0).(crypto := Some(Raw("")), password := Some(""))

  lemma TinyUserinfo()
    ensures |Ss.Userinfo(Raw(""), "")| == 2
    ensures Base64.FitsWhenEncoded(Utf8.Encode(Ss.Secret(Raw(""), "")))
  {
    assert Ss.Secret(Raw(""), "") == ":";
    assert Utf8.Encode(":") == Utf8.CharBytes(':') + Utf8.Encode("");
  }

  lemma ShortLine(u: string)
    requires |u| == 2 && forall c :: c in u ==> Base64.IsSymbol(c, Base64.Standard)
    ensures var line := Ss.LineText(u, "", 0, "");
            Utf8.Size(line) == 10 && '\n' !in line && line != "" && line[|line| - 1] == '0'
  {
    var line := Ss.LineText(u, "", 0, "");
    assert line == "ss://" + u + "@:0";
    assert Utf8.IsAscii(line);
    Utf8.EncodeOfAscii(line);
  }

  lemma TinyIsPublishable(lib: Library)
    ensures ArePublishable(lib, [TINY])
    ensures NodeLine(lib, TINY).Ok? && Utf8.Size(NodeLine(lib, TINY).value) == 10
  {
    TinyUserinfo();
    ShortLine(Ss.Userinfo(Raw(""), ""));
    ParsedCrypto("");
  }

  lemma SingleNode(lib: Library, n: ProxyNode)
    requires IsCarried(n.kind) && NodeLine(lib, n).Ok?
    ensures Carried([n]) == [n] && PlainText(lib, [n]) == Ok(NodeLine(lib, n).value)
  {
    assert [n][..0] == [];
    PrintsCarried(lib, [n]);
    assert NodeLines(lib, [n]).value == [NodeLine(lib, n).value];
  }

  lemma FirstOfOne(n: ProxyNode)
    ensures FirstOf(NormalNodes([n]), 1) == [NormalNode(n)]
  {
  }

  /** A single node with a line of fewer than 13 bytes is read from the plain text and lost from the wrapped
      one. */
  lemma ShortIsLost(lib: Library, n: ProxyNode)
    requires Lawful(lib) && IsCarried(n.kind) && ArePublishable(lib, [n])
    requires NodeLine(lib, n).Ok? && Utf8.Size(NodeLine(lib, n).value) < 13
    ensures PlainText(lib, [n]).Ok? && V2rayText(lib, [n]).Ok?
    ensures ParseSubscription(lib, PlainText(lib, [n]).value, 1) == Done(Parsed([NormalNode(n)], 0))
    ensures ParseSubscription(lib, V2rayText(lib, [n]).value, 1) == Done(Parsed([], 1))
  {
    SingleNode(lib, n);
    FirstOfOne(n);
    PlainRoundTrip(lib, [n], 1);
    SubscriptionRoundTrip(lib, [n], 1);
  }

  /** The sniffer's lower bound is real: this node is read back from the plain text, and is lost when the same text
      is wrapped in base64. */
  lemma TinySubscriptionIsLost(lib: Library)
    requires Lawful(lib)
    ensures PlainText(lib, [TINY]).Ok? && V2rayText(lib, [TINY]).Ok?
    ensures ParseSubscription(lib, PlainText(lib, [TINY]).value, 1) == Done(Parsed([TINY], 0))
    ensures ParseSubscription(lib, V2rayText(lib, [TINY]).value, 1) == Done(Parsed([], 1))
  {
    TinyIsPublishable(lib);
    ShortIsLost(lib, TINY);
    assert NormalNode(TINY) == TINY;
  }
}
