/** trojan URIs (crates/proxy-core/src/protocols/trojan.rs). */
module Trojan {
  import opened Wrappers
  import opened TlsQuery
  import opened Model
  import opened Percent
  import opened Query
  import opened QueryWalk
  import opened Uri
  import Text

  const SCHEME := "trojan://"

  // ---------- reading ----------

  /** TLS carries trojan unless `security=none` is given. */
  function ReadTls(q: Locals): Option<TlsSettings> {
    if q.security == "none" then None
    else Some(TlsSettings(true, OrElse(q.sni, q.host), q.alpn, q.insecure, q.fp))
  }

  function Node(name: string, server: string, port: Port, password: string, q: Locals): ProxyNode {
    NewNode(name, Trojan, server, port).(
    password := Some(password), tls := ReadTls(q), transport := ReadTransport(q.net, q.path, q.host))
  }

  /** The node that a trojan URI describes. */
  function TrojanNode(uri: string): Outcome<ProxyNode> {
    if !(SCHEME <= uri) then Failed(UnsupportedProtocol)
    else
      var p := SplitUri(uri[|SCHEME|..]);
      match ParseHostPort(p.hostpart)
      case Err(e) => Failed(e)
      case Ok((server, port)) =>
        match PercentDecode(p.userinfo)
        case Err(e) => Failed(e)
        case Ok(password) =>
          if password == "" then Failed(MissingField("password"))
          else Done(Node(p.fragment.GetOr(""), server, port, password, Walked(Pieces(p.query))))
  }

  /** `parse_trojan` */
  method ParseTrojan(uri: string) returns (r: Outcome<ProxyNode>)
    ensures r == TrojanNode(uri)
  {
    if !(SCHEME <= uri) {
      return Failed(UnsupportedProtocol);
    }
    var p := SplitUri(uri[|SCHEME|..]);
    var hostPort := ParseHostPort(p.hostpart);
    if hostPort.Err? {
      return Failed(hostPort.error);
    }
    var (server, port) := hostPort.value;
    var password := PercentDecode(p.userinfo);
    if password.Err? {
      return Failed(password.error);
    }
    if password.value == "" {
      return Failed(MissingField("password"));
    }
    var q := WalkQuery(Pieces(p.query));
    var tls := None;
    if q.security != "none" {
      tls := Some(TlsSettings(true, OrElse(q.sni, q.host), q.alpn, q.insecure, q.fp));
    }
    var transport := ReadTransport(q.net, q.path, q.host);
    return Done(NewNode(p.fragment.GetOr(""), Trojan, server, port).(
                password := Some(password.value), tls := tls, transport := transport));
  }

  // ---------- printing ----------

  /** The query of a node: every optional value under its key, in the printed order. */
  function QueryFields(n: ProxyNode): Params {
    var w := ShowTransport(n.transport, "httpupgrade");
    TlsFields(n) + TypeFields(w) + HostFields(w)
  }

  /** The line that a node is printed as. */
  function TrojanLine(n: ProxyNode): Result<string, SerializeError> {
    if n.kind != Trojan then Err(UnsupportedKind(n.kind))
    else match n.password
         case None => Err(MissingPart("password"))
         case Some(password) =>
           Ok(SCHEME + (Urlencode(password) + "@" + ShowHostPort(n.server, n.port)
                        + Tagged('?', JoinPieces(Fields(QueryFields(n))))
                        + Tagged('#', NameTag(n.name))))
  }

  /** The pieces that `serialize_trojan` pushes, one after the other. */
  method CollectQuery(n: ProxyNode) returns (query: seq<string>)
    ensures query == Fields(QueryFields(n))
  {
    var w := ShowTransport(n.transport, "httpupgrade");
    query := PushTls([], [], n);
    assert [] + TlsFields(n) == TlsFields(n);
    query := PushType(TlsFields(n), query, w);
    query := PushHost(TlsFields(n) + TypeFields(w), query, w);
  }

  /** `serialize_trojan` */
  method SerializeTrojan(n: ProxyNode) returns (r: Result<string, SerializeError>)
    ensures r == TrojanLine(n)
  {
    if n.kind != Trojan {
      return Err(UnsupportedKind(n.kind));
    }
    if n.password == None {
      return Err(MissingPart("password"));
    }
    var out := Urlencode(n.password.value) + "@" + ShowHostPort(n.server, n.port);
    ghost var authority := out;
    var query := CollectQuery(n);
    if query != [] {
      out := out + (['?'] + Text.Join(query, "&"));
    }
    assert out == authority + Tagged('?', JoinPieces(query));
    if n.name != "" {
      out := out + (['#'] + n.name);
    }
    assert out == authority + Tagged('?', JoinPieces(query)) + Tagged('#', NameTag(n.name));
    return Ok(SCHEME + out);
  }

  // ---------- the normal form ----------

  /** What reading a printed node gives: TLS is always on, `insecure` is off, and the transport is normal. */
  function Normal(n: ProxyNode): ProxyNode {
    NewNode(n.name, Trojan, n.server, n.port).(
    password := n.password,
    tls := Some(TlsSettings(
                  true, OrElse(Sni(n), TransportHost(n.transport)), Alpn(AlpnValue(AlpnOf(n))), false, Fingerprint(n))),
    transport := NormalTransport(n.transport))
  }

  lemma FieldsArePrintable(n: ProxyNode)
    ensures ArePrintable(QueryFields(n))
  {
    var w := ShowTransport(n.transport, "httpupgrade");
    TypeIsPrintable(w);
    TlsIsPrintable(n);
    HostIsPrintable(n, w);
    ConcatIsPrintable([], TlsFields(n), TypeFields(w), HostFields(w));
    assert [] + TlsFields(n) == TlsFields(n);
  }

  lemma FieldsAreThere(n: ProxyNode)
    ensures HasFields(QueryFields(n), n, ShowTransport(n.transport, "httpupgrade"))
  {
    var fs, w := QueryFields(n), ShowTransport(n.transport, "httpupgrade");
    assert fs[..4] == TlsFields(n) && fs[4..5] == TypeFields(w) && fs[5..] == HostFields(w);
  }

  lemma NodeOfLocals(n: ProxyNode)
    requires n.password.Some?
    ensures Node(n.name, n.server, n.port, n.password.value,
                 PrintedLocals(n, ShowTransport(n.transport, "httpupgrade"))) == Normal(n)
  {
    TransportRoundTrip(n.transport);
  }

  lemma NodeOfPrinted(n: ProxyNode)
    requires n.password.Some?
    ensures Node(n.name, n.server, n.port, n.password.value, Walked(Pieces(JoinPieces(Fields(QueryFields(n)))))) ==
            Normal(n)
  {
    FieldsArePrintable(n);
    FieldsAreThere(n);
    WalkOfFields(QueryFields(n), n, ShowTransport(n.transport, "httpupgrade"));
    NodeOfLocals(n);
  }

  /** The printed query, if any. */
  function QueryText(n: ProxyNode): Option<string> {
    JoinPieces(Fields(QueryFields(n)))
  }

  lemma QueryHasNoSpace(n: ProxyNode)
    ensures QueryText(n).Some? ==> NoSpace(QueryText(n).value)
  {
    FieldsArePrintable(n);
    PiecesOfFields(QueryFields(n));
  }

  lemma PartsOfPrinted(n: ProxyNode)
    requires TrojanLine(n).Ok? && IsServer(n.server)
    ensures var line := TrojanLine(n).value;
            && SCHEME <= line
            && SplitUri(line[|SCHEME|..]) ==
               UriParts(Urlencode(n.password.value), ShowHostPort(n.server, n.port),
                        JoinPieces(Fields(QueryFields(n))), NameTag(n.name))
  {
    var fs := QueryFields(n);
    FieldsArePrintable(n);
    PiecesOfFields(fs);
    HostPortText(n.server, n.port);
    SplitPrinted(
      Urlencode(n.password.value), ShowHostPort(n.server, n.port), JoinPieces(Fields(fs)), NameTag(n.name));
  }

  /** Reading a printed node gives its normal form, unless its server starts with a bracket or its password is
      empty: then reading fails. */
  lemma PrintedReads(n: ProxyNode)
    requires TrojanLine(n).Ok? && IsServer(n.server)
    ensures SCHEME <= TrojanLine(n).value
    ensures TrojanNode(TrojanLine(n).value) ==
            if StartsBracket(n.server) then Failed(InvalidUri(ShowHostPort(n.server, n.port)))
            else if n.password == Some("") then Failed(MissingField("password"))
            else Done(Normal(n))
  {
    PartsOfPrinted(n);
    NodeOfPrinted(n);
    Percent.RoundTrip(n.password.value);
    ServerReadsBack(n.server, n.port);
  }

  // ---------- nodes that were read ----------

  /** What every node that was read from a trojan URI looks like. */
  ghost predicate IsRead(n: ProxyNode) {
    && n.kind == Trojan && IsServer(n.server)
    && n.password.Some? && n.password.value != ""
    && n.crypto == None && n.uuid == None && n.alterId == None
    && IsReadTransport(n.transport)
    && (n.tls.Some? ==>
          && n.tls.value.enabled && Text.Free(n.tls.value.alpn, ',')
          && (n.tls.value.sni == None ==> TransportHost(n.transport) == None))
  }

  lemma NodeShape(name: string, server: string, port: Port, password: string, ps: seq<string>)
    requires IsServer(server) && password != ""
    ensures IsRead(Node(name, server, port, password, Walked(ps)))
  {
    var q := Walked(ps);
    ReadTransportShape(q.net, q.path, q.host);
    AlpnIsFree(Last(ps, {"alpn"}));
  }

  /** Where the parts of a node that was read come from. */
  lemma PartsOfNode(uri: string)
    requires TrojanNode(uri).Done?
    ensures SCHEME <= uri
    ensures var n, p := TrojanNode(uri).value, SplitUri(uri[|SCHEME|..]);
            && n.kind == Trojan && n.name == p.fragment.GetOr("")
            && ParseHostPort(p.hostpart).Ok? && n.server == ParseHostPort(p.hostpart).value.0
  {
  }

  lemma ReadShape(uri: string)
    requires TrojanNode(uri).Done?
    ensures IsRead(TrojanNode(uri).value)
  {
    var p := SplitUri(uri[|SCHEME|..]);
    PartsAreFree(uri[|SCHEME|..]);
    ServerOfHostPort(p.hostpart);
    var (server, port) := ParseHostPort(p.hostpart).value;
    NodeShape(p.fragment.GetOr(""), server, port, PercentDecode(p.userinfo).value, Pieces(p.query));
  }

  /** For every node that can be printed: its line is read as its normal form if and only if its server holds no
      delimiter of the URI and does not start with a bracket, and its password is not empty. Where the parts of the
      line can be told apart, the error is stated. */
  lemma RoundTrip(n: ProxyNode)
    requires TrojanLine(n).Ok?
    ensures TrojanNode(TrojanLine(n).value) == Done(Normal(n)) <==>
            IsServer(n.server) && !StartsBracket(n.server) && n.password.value != ""
    ensures IsServer(n.server) ==>
              TrojanNode(TrojanLine(n).value) ==
              if StartsBracket(n.server) then Failed(InvalidUri(ShowHostPort(n.server, n.port)))
              else if n.password == Some("") then Failed(MissingField("password"))
              else Done(Normal(n))
  {
    if IsServer(n.server) {
      PrintedReads(n);
    }
    if TrojanNode(TrojanLine(n).value).Done? {
      ReadShape(TrojanLine(n).value);
    }
  }

  /** Exactly what one trip through the printer changes in a node that was read, and when it changes nothing. */
  lemma NormalOfRead(n: ProxyNode)
    requires IsRead(n)
    ensures Normal(n) == n.(
            tls := match n.tls
                   case Some(t) => Some(t.(insecure := false))
                   case None => Some(TlsSettings(true, TransportHost(n.transport), [], false, None)),
            transport := WithoutEmptyHost(n.transport))
    ensures Normal(n) == n <==> n.tls.Some? && !n.tls.value.insecure && WithoutEmptyHost(n.transport) == n.transport
  {
    NormalOfReadTransport(n.transport);
    if n.tls.Some? {
      AlpnRoundTrip(n.tls.value.alpn);
    }
  }

  /** The normal form is normal: one trip is enough. */
  lemma NormalIsStable(n: ProxyNode)
    requires IsRead(n)
    ensures Normal(Normal(n)) == Normal(n) && IsRead(Normal(n))
  {
    NormalTransportTwice(n.transport);
    NormalOfRead(n);
    NormalOfRead(Normal(n));
  }

  /** The word for TLS can be read off a printed line. */
  function SecurityOf(line: string): Option<string>
    requires SCHEME <= line
  {
    Last(Pieces(SplitUri(line[|SCHEME|..]).query), {"security"})
  }

  lemma SecurityOfPrinted(n: ProxyNode)
    requires TrojanLine(n).Ok? && IsServer(n.server)
    ensures SCHEME <= TrojanLine(n).value
    ensures SecurityOf(TrojanLine(n).value) == if IsTlsOn(n) then Some("tls") else None
  {
    PartsOfPrinted(n);
    FieldsArePrintable(n);
    FieldsAreThere(n);
    RecoverField(QueryFields(n), "security", if IsTlsOn(n) then Some("tls") else None);
  }

  lemma SameFields(n: ProxyNode)
    requires IsRead(n) && n.tls.Some?
    ensures TrojanLine(Normal(n)) == TrojanLine(n)
  {
    NormalOfRead(n);
    NormalTransportPrints(n.transport, "httpupgrade");
    assert QueryFields(Normal(n)) == QueryFields(n);
  }

  /** A node that was read and its normal form are printed as the same line exactly when TLS was on: without it the
      line of the normal form says `security=tls`, and the line of the node does not. */
  lemma LineIsStableExactly(n: ProxyNode)
    requires IsRead(n)
    ensures TrojanLine(Normal(n)) == TrojanLine(n) <==> n.tls.Some?
  {
    if n.tls.Some? {
      SameFields(n);
    } else {
      SecurityOfPrinted(n);
      SecurityOfPrinted(Normal(n));
    }
  }

  /** A node that was read is printed; the printed line is read as the normal form exactly when the server does
      not start with a bracket; the normal form prints to a line that is read as itself. */
  lemma ReadRoundTrip(uri: string)
    requires TrojanNode(uri).Done?
    ensures var n := TrojanNode(uri).value;
            && TrojanLine(n).Ok?
            && (TrojanNode(TrojanLine(n).value) == Done(Normal(n)) <==> !StartsBracket(n.server))
            && Normal(Normal(n)) == Normal(n)
            && IsRead(Normal(n))
  {
    var n := TrojanNode(uri).value;
    ReadShape(uri);
    PrintedReads(n);
    NormalIsStable(n);
  }
}
