/** Why the lines of nodes that were read are clean: what a URI parser takes over literally comes from one trimmed
    line, and everything else is encoded when it is printed. */
module Tidy {
  import opened Wrappers
  import opened Library
  import opened Model
  import opened Parser
  import opened Subscription
  import opened Uri
  import opened V2ray
  import Percent
  import Query
  import Ss
  import Ssr
  import Text
  import Trojan
  import Tuic
  import Vless
  import Vmess

  /** One line without a line feed and without white space at its end. */
  predicate IsTidy(s: string) {
    '\n' !in s && EndsWell(s)
  }

  predicate EndsWell(s: string) {
    s == "" || !Text.IsWhitespace(s[|s| - 1])
  }

  // ---------- reading ----------

  lemma {:induction false} TrimmedEndsWell(s: string)
    ensures EndsWell(Text.TrimEnd(s))
    ensures '\n' !in s ==> '\n' !in Text.TrimEnd(s)
  {
    if s != [] && Text.IsWhitespace(s[|s| - 1]) {
      TrimmedEndsWell(s[..|s| - 1]);
    }
  }

  lemma {:induction false} TrimStartKeeps(s: string)
    requires '\n' !in s
    ensures '\n' !in Text.TrimStart(s)
  {
    if s != [] && Text.IsWhitespace(s[0]) {
      TrimStartKeeps(s[1..]);
    }
  }

  lemma {:induction false} LinesHaveNoLineFeed(s: string)
    ensures Text.Free(Text.Lines(s), '\n')
    decreases |s|
  {
    if s != [] && Text.Find(s, '\n').Some? {
      LinesHaveNoLineFeed(s[Text.Find(s, '\n').value + 1..]);
    }
  }

  lemma CutKeeps(s: string, c: char)
    requires '\n' !in s
    ensures '\n' !in CutAt(s, c).0 && '\n' !in CutAt(s, c).1.GetOr("")
  {
  }

  lemma AuthorityKeeps(s: string)
    requires '\n' !in s
    ensures '\n' !in SplitAuthority(s).0 && '\n' !in SplitAuthority(s).1
  {
  }

  /** What is printed literally: server and name, and the uuid of vless and tuic. ShadowsocksR and vmess print
      nothing literally. */
  predicate IsTidyNode(n: ProxyNode) {
    match n.kind
    case Ss => '\n' !in n.server && IsTidy(n.name)
    case Trojan => '\n' !in n.server && IsTidy(n.name)
    case Vless => '\n' !in n.server && IsTidy(n.name) && '\n' !in n.uuid.GetOr("")
    case Tuic => '\n' !in n.server && IsTidy(n.name) && '\n' !in n.uuid.GetOr("")
    case _ => true
  }

  // ---------- printing ----------

  lemma HostPortIsTidy(server: string, port: Port)
    requires '\n' !in server
    ensures IsWholeLine(ShowHostPort(server, port))
  {
    var s := ShowHostPort(server, port);
    assert s[|s| - 1] in ShowNat(port);
  }

  lemma QueryIsTidy(head: string, query: Option<string>)
    requires IsWholeLine(head) && (query.Some? ==> Query.NoSpace(query.value))
    ensures IsWholeLine(head + Tagged('?', query))
  {
    assert query.Some? ==> '\n' !in query.value;
  }

  lemma NameIsTidy(head: string, name: string)
    requires IsWholeLine(head) && IsTidy(name)
    ensures IsWholeLine(head + Tagged('#', NameTag(name)))
  {
  }

  lemma UriIsTidy(scheme: string, user: string, server: string, port: Port, query: Option<string>, name: string)
    requires '\n' !in scheme && '\n' !in user && '\n' !in server && IsTidy(name)
    requires query.Some? ==> Query.NoSpace(query.value)
    ensures IsWholeLine(scheme + (user + "@" + ShowHostPort(server, port) + Tagged('?', query)
                                 + Tagged('#', NameTag(name))))
  {
    HostPortIsTidy(server, port);
    var authority := user + "@" + ShowHostPort(server, port);
    assert IsWholeLine(authority);
    QueryIsTidy(authority, query);
    NameIsTidy(authority + Tagged('?', query), name);
  }

  lemma EncodedIsTidy(scheme: string, body: string)
    requires IsWholeLine(scheme) && forall c :: c in body ==> !Text.IsWhitespace(c)
    ensures IsWholeLine(scheme + body)
  {
    assert body != "" ==> body[|body| - 1] in body;
  }

  lemma SsPrintsTidy(n: ProxyNode)
    requires Ss.SsLine(n).Ok? && IsTidyNode(n)
    ensures IsWholeLine(Ss.SsLine(n).value)
  {
    var u := Ss.Userinfo(n.crypto.value, n.password.value);
    UriIsTidy(Ss.SCHEME, u, n.server, n.port, None, n.name);
    var authority := u + "@" + ShowHostPort(n.server, n.port);
    assert authority + Tagged('?', None) == authority;
  }

  lemma SsrPrintsTidy(n: ProxyNode)
    requires Ssr.SsrLine(n).Ok?
    ensures IsWholeLine(Ssr.SsrLine(n).value)
  {
    EncodedIsTidy(Ssr.SCHEME, Ssr.Code(Ssr.PlainOf(n)));
  }

  lemma VmessPrintsTidy(lib: Library, n: ProxyNode)
    requires Vmess.VmessLine(lib, n).Ok?
    ensures IsWholeLine(Vmess.VmessLine(lib, n).value)
  {
    EncodedIsTidy(Vmess.SCHEME, Vmess.Payload(lib, n));
  }

  lemma VlessPrintsTidy(n: ProxyNode)
    requires Vless.VlessLine(n).Ok? && IsTidyNode(n)
    ensures IsWholeLine(Vless.VlessLine(n).value)
  {
    Vless.QueryHasNoSpace(n);
    UriIsTidy(Vless.SCHEME, n.uuid.value, n.server, n.port, Vless.QueryText(n), n.name);
  }

  lemma TrojanPrintsTidy(n: ProxyNode)
    requires Trojan.TrojanLine(n).Ok? && IsTidyNode(n)
    ensures IsWholeLine(Trojan.TrojanLine(n).value)
  {
    Trojan.QueryHasNoSpace(n);
    UriIsTidy(Trojan.SCHEME, Percent.Urlencode(n.password.value), n.server, n.port, Trojan.QueryText(n), n.name);
  }

  lemma TuicPrintsTidy(n: ProxyNode)
    requires Tuic.TuicLine(n).Ok? && IsTidyNode(n)
    ensures IsWholeLine(Tuic.TuicLine(n).value)
  {
    Tuic.QueryHasNoSpace(n);
    UriIsTidy(Tuic.SCHEME, Tuic.Userinfo(n), n.server, n.port, Tuic.QueryText(n), n.name);
  }

  // ---------- every carried protocol ----------

  /** A tidy node prints to a tidy line. */
  lemma PrintsTidy(lib: Library, n: ProxyNode)
    requires IsCarried(n.kind) && NodeLine(lib, n).Ok? && IsTidyNode(n)
    ensures IsWholeLine(NodeLine(lib, n).value)
  {
    match n.kind {
      case Ss => SsPrintsTidy(n);
      case Ssr => SsrPrintsTidy(n);
      case Vmess => VmessPrintsTidy(lib, n);
      case Vless => VlessPrintsTidy(n);
      case Trojan => TrojanPrintsTidy(n);
      case Tuic => TuicPrintsTidy(n);
    }
  }

  // ---------- arbitrary lines ----------

  /** The parts of a trimmed line that a node takes over literally. */
  function Literal(kind: Protocol, l: string): string {
    match kind
    case Ss =>
      if !(Ss.SCHEME <= l) then ""
      else var p := Ss.SplitSs(l[|Ss.SCHEME|..]); p.hostport + p.fragment.GetOr("")
    case Trojan =>
      if !(Trojan.SCHEME <= l) then ""
      else var p := SplitUri(l[|Trojan.SCHEME|..]); p.hostpart + p.fragment.GetOr("")
    case Vless =>
      if !(Vless.SCHEME <= l) then ""
      else var p := SplitUri(l[|Vless.SCHEME|..]); p.hostpart + p.fragment.GetOr("") + p.userinfo
    case Tuic =>
      if !(Tuic.SCHEME <= l) then ""
      else
        var p := SplitUri(l[|Tuic.SCHEME|..]);
        p.hostpart + p.fragment.GetOr("") + CutAt(p.userinfo, ':').0
    case _ => ""
  }

  lemma PortHasNoLineFeed(s: string)
    requires ParsePort(s).Some?
    ensures '\n' !in s
  {
    assert s != "" ==> forall i :: 0 < i < |s| ==> s[i] == s[1..][i - 1] && s[1..][i - 1] in s[1..];
  }

  lemma LineFeedInPlainHost(s: string)
    requires !StartsBracket(s) && ParseHostPort(s).Ok?
    ensures '\n' in s <==> '\n' in ParseHostPort(s).value.0
  {
    var i := Text.FindLast(s, ':').value;
    PortHasNoLineFeed(s[i + 1..]);
    assert s == s[..i] + ":" + s[i + 1..];
  }

  lemma LineFeedInBracketedHost(s: string)
    requires StartsBracket(s) && ParseHostPort(s).Ok?
    ensures '\n' in s <==> '\n' in ParseHostPort(s).value.0
  {
    var rest := s[1..];
    var close := Text.Find(rest, ']').value;
    var after := rest[close + 1..];
    PortHasNoLineFeed(after[1..]);
    assert s == "[" + rest;
    assert rest == rest[..close] + "]" + after;
    assert after == ":" + after[1..];
  }

  /** A line feed in a host and port is one in the server. */
  lemma LineFeedIsInServer(s: string)
    requires ParseHostPort(s).Ok?
    ensures '\n' in s <==> '\n' in ParseHostPort(s).value.0
  {
    if StartsBracket(s) {
      LineFeedInBracketedHost(s);
    } else {
      LineFeedInPlainHost(s);
    }
  }

  lemma NameEndsWell(s: string, c: char)
    requires EndsWell(s)
    ensures EndsWell(CutAt(s, c).1.GetOr(""))
  {
    var (a, b) := CutAt(s, c);
    if b.Some? && b.value != "" {
      assert s[|s| - 1] == b.value[|b.value| - 1];
    }
  }

  lemma DropEndsWell(scheme: string, l: string)
    requires EndsWell(l) && scheme <= l
    ensures EndsWell(l[|scheme|..])
  {
  }

  lemma SsIsTidyExactly(l: string)
    requires EndsWell(l) && Ss.SsNode(l).Done?
    ensures IsTidyNode(Ss.SsNode(l).value) <==> '\n' !in Literal(Ss, l)
  {
    var rest := l[|Ss.SCHEME|..];
    DropEndsWell(Ss.SCHEME, l);
    NameEndsWell(rest, '#');
    LineFeedIsInServer(Ss.SplitSs(rest).hostport);
  }

  lemma TrojanNodeIsTidy(l: string, n: ProxyNode)
    requires EndsWell(l) && Trojan.SCHEME <= l && n.kind == Trojan
    requires var p := SplitUri(l[|Trojan.SCHEME|..]);
             && n.name == p.fragment.GetOr("")
             && ParseHostPort(p.hostpart).Ok? && n.server == ParseHostPort(p.hostpart).value.0
    ensures IsTidyNode(n) <==> '\n' !in Literal(Trojan, l)
  {
    var rest := l[|Trojan.SCHEME|..];
    DropEndsWell(Trojan.SCHEME, l);
    NameEndsWell(rest, '#');
    LineFeedIsInServer(SplitUri(rest).hostpart);
  }

  lemma TrojanIsTidyExactly(l: string)
    requires EndsWell(l) && Trojan.TrojanNode(l).Done?
    ensures IsTidyNode(Trojan.TrojanNode(l).value) <==> '\n' !in Literal(Trojan, l)
  {
    Trojan.PartsOfNode(l);
    TrojanNodeIsTidy(l, Trojan.TrojanNode(l).value);
  }

  lemma VlessNodeIsTidy(l: string, n: ProxyNode)
    requires EndsWell(l) && Vless.SCHEME <= l && n.kind == Vless
    requires var p := SplitUri(l[|Vless.SCHEME|..]);
             && n.name == p.fragment.GetOr("") && n.uuid == Some(p.userinfo)
             && ParseHostPort(p.hostpart).Ok? && n.server == ParseHostPort(p.hostpart).value.0
    ensures IsTidyNode(n) <==> '\n' !in Literal(Vless, l)
  {
    var rest := l[|Vless.SCHEME|..];
    DropEndsWell(Vless.SCHEME, l);
    NameEndsWell(rest, '#');
    LineFeedIsInServer(SplitUri(rest).hostpart);
  }

  lemma VlessIsTidyExactly(l: string)
    requires EndsWell(l) && Vless.VlessNode(l).Done?
    ensures IsTidyNode(Vless.VlessNode(l).value) <==> '\n' !in Literal(Vless, l)
  {
    Vless.PartsOfNode(l);
    VlessNodeIsTidy(l, Vless.VlessNode(l).value);
  }

  lemma TuicNodeIsTidy(l: string, n: ProxyNode)
    requires EndsWell(l) && Tuic.SCHEME <= l && n.kind == Tuic
    requires var p := SplitUri(l[|Tuic.SCHEME|..]);
             && n.name == p.fragment.GetOr("") && n.uuid == Some(CutAt(p.userinfo, ':').0)
             && ParseHostPort(p.hostpart).Ok? && n.server == ParseHostPort(p.hostpart).value.0
    ensures IsTidyNode(n) <==> '\n' !in Literal(Tuic, l)
  {
    var rest := l[|Tuic.SCHEME|..];
    DropEndsWell(Tuic.SCHEME, l);
    NameEndsWell(rest, '#');
    LineFeedIsInServer(SplitUri(rest).hostpart);
  }

  lemma TuicIsTidyExactly(l: string)
    requires EndsWell(l) && Tuic.TuicNode(l).Done?
    ensures IsTidyNode(Tuic.TuicNode(l).value) <==> '\n' !in Literal(Tuic, l)
  {
    Tuic.PartsOfNode(l);
    TuicNodeIsTidy(l, Tuic.TuicNode(l).value);
  }

  lemma OtherIsTidy(lib: Library, kind: Protocol, l: string)
    requires Lawful(lib) && kind !in {Ss, Trojan, Vless, Tuic} && ReadAs(lib, kind, l).Done?
    ensures IsTidyNode(ReadAs(lib, kind, l).value)
  {
    match kind {
      case Ssr => Ssr.ReadShape(l);
      case Vmess => Vmess.ReadShape(lib, l);
      case _ =>
    }
  }

  /** On any text, trimmed but perhaps with line feeds inside, a node that was read is tidy exactly when the parts
      that it takes over literally hold no line feed. */
  lemma TidyExactly(lib: Library, kind: Protocol, l: string)
    requires Lawful(lib) && EndsWell(l) && ReadAs(lib, kind, l).Done?
    ensures IsTidyNode(ReadAs(lib, kind, l).value) <==> '\n' !in Literal(kind, l)
  {
    match kind {
      case Ss => SsIsTidyExactly(l);
      case Vless => VlessIsTidyExactly(l);
      case Trojan => TrojanIsTidyExactly(l);
      case Tuic => TuicIsTidyExactly(l);
      case _ => OtherIsTidy(lib, kind, l);
    }
  }

  /** The same for whatever text is given to the line reader, as the stored text of a single node is. */
  lemma LineIsTidyExactly(lib: Library, line: string)
    requires Lawful(lib) && ParseLine(lib, line).Done?
    ensures Dispatch(Text.Trim(line)).Some?
    ensures IsTidyNode(ParseLine(lib, line).value) <==>
            '\n' !in Literal(Dispatch(Text.Trim(line)).value, Text.Trim(line))
  {
    var l := Text.Trim(line);
    TrimmedEndsWell(Text.TrimStart(line));
    TidyExactly(lib, Dispatch(l).value, l);
  }

  // ---------- single lines ----------

  lemma UriPartsKeep(rest: string)
    requires '\n' !in rest
    ensures var p := SplitUri(rest);
            '\n' !in p.userinfo && '\n' !in p.hostpart && '\n' !in p.fragment.GetOr("")
  {
    CutKeeps(rest, '#');
    AuthorityKeeps(CutAt(rest, '#').0);
    CutKeeps(SplitAuthority(CutAt(rest, '#').0).1, '?');
  }

  lemma SsPartsKeep(rest: string)
    requires '\n' !in rest
    ensures var p := Ss.SplitSs(rest); '\n' !in p.hostport && '\n' !in p.fragment.GetOr("")
  {
    CutKeeps(rest, '#');
    CutKeeps(CutAt(rest, '#').0, '?');
    AuthorityKeeps(CutAt(CutAt(rest, '#').0, '?').0);
  }

  /** A line without line feeds has none in its literal parts. */
  lemma LiteralKeeps(kind: Protocol, l: string)
    requires '\n' !in l
    ensures '\n' !in Literal(kind, l)
  {
    match kind {
      case Ss => if Ss.SCHEME <= l { SsPartsKeep(l[|Ss.SCHEME|..]); }
      case Trojan => if Trojan.SCHEME <= l { UriPartsKeep(l[|Trojan.SCHEME|..]); }
      case Vless => if Vless.SCHEME <= l { UriPartsKeep(l[|Vless.SCHEME|..]); }
      case Tuic =>
        if Tuic.SCHEME <= l {
          UriPartsKeep(l[|Tuic.SCHEME|..]);
          CutKeeps(SplitUri(l[|Tuic.SCHEME|..]).userinfo, ':');
        }
      case _ =>
    }
  }

  /** What was read from one line holds nothing that would break the printed line. */
  lemma LineIsTidy(lib: Library, line: string)
    requires Lawful(lib) && '\n' !in line && ParseLine(lib, line).Done?
    ensures IsTidyNode(ParseLine(lib, line).value)
  {
    var l := Text.Trim(line);
    TrimStartKeeps(line);
    TrimmedEndsWell(Text.TrimStart(line));
    LineIsTidyExactly(lib, line);
    LiteralKeeps(Dispatch(l).value, l);
  }
}
