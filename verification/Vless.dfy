/** vless URIs (crates/proxy-core/src/protocols/vless.rs). */
module Vless {
  import opened Wrappers
  import opened TlsQuery
  import opened Model
  import opened Percent
  import opened Query
  import opened QueryWalk
  import opened Uri
  import Text

  const SCHEME := "vless://"

  // ---------- reading ----------

  /** TLS is on only for three values of `security`. */
  function ReadTls(q: Locals): Option<TlsSettings> {
    if q.security == "tls" || q.security == "reality" || q.security == "xtls" then
      Some(TlsSettings(true, OrElse(q.sni, q.host), q.alpn, q.insecure, q.fp))
    else None
  }

  function Node(name: string, server: string, port: Port, uuid: string, q: Locals): ProxyNode {
    NewNode(name, Vless, server, port).(
    uuid := Some(uuid), tls := ReadTls(q), transport := ReadTransport(q.net, q.path, q.host))
  }

  /** The node that a vless URI describes; the user information is taken as it is. */
  function VlessNode(uri: string): Outcome<ProxyNode> {
    if !(SCHEME <= uri) then Failed(UnsupportedProtocol)
    else
      var p := SplitUri(uri[|SCHEME|..]);
      match ParseHostPort(p.hostpart)
      case Err(e) => Failed(e)
      case Ok((server, port)) =>
        if p.userinfo == "" then Failed(MissingField("uuid"))
        else Done(Node(p.fragment.GetOr(""), server, port, p.userinfo, Walked(Pieces(p.query))))
  }

  /** `parse_vless` */
  method ParseVless(uri: string) returns (r: Outcome<ProxyNode>)
    ensures r == VlessNode(uri)
  {
    if !(SCHEME <= uri) {
      return Failed(UnsupportedProtocol);
    }
    var p := SplitUri(uri[|SCHEME|..]);
    var hostPort := ParseHostPort(p.hostpart);
    if hostPort.Err? {
      return Failed(hostPort.error);
    }
    var (server, port) := hostPort.value;
    if p.userinfo == "" {
      return Failed(MissingField("uuid"));
    }
    var q := WalkQuery(Pieces(p.query));
    var tls := None;
    if q.security == "tls" || q.security == "reality" || q.security == "xtls" {
      tls := Some(TlsSettings(true, OrElse(q.sni, q.host), q.alpn, q.insecure, q.fp));
    }
    var transport := ReadTransport(q.net, q.path, q.host);
    return Done(NewNode(p.fragment.GetOr(""), Vless, server, port).(
                uuid := Some(p.userinfo), tls := tls, transport := transport));
  }

  // ---------- printing ----------

  /** The query of a node: `encryption` first, then every optional value under its key, in the printed order. */
  function QueryFields(n: ProxyNode): Params {
    var w := ShowTransport(n.transport, "httpupgrade");
    EncryptionFields() + TypeFields(w) + TlsFields(n) + HostFields(w)
  }

  function EncryptionFields(): Params {
    [("encryption", Some("none"))]
  }

  /** The line that a node is printed as. */
  function VlessLine(n: ProxyNode): Result<string, SerializeError> {
    if n.kind != Vless then Err(UnsupportedKind(n.kind))
    else match n.uuid
         case None => Err(MissingPart("uuid"))
         case Some(uuid) =>
           Ok(SCHEME + (uuid + "@" + ShowHostPort(n.server, n.port)
                        + Tagged('?', JoinPieces(Fields(QueryFields(n))))
                        + Tagged('#', NameTag(n.name))))
  }

  lemma EncryptionIsPrinted()
    ensures Fields(EncryptionFields()) == ["encryption=none"]
  {
    UnreservedStays("none");
    assert EncryptionFields()[..0] == [];
    assert "encryption" + "=" + "none" == "encryption=none";
    assert Field("encryption", Some("none")) == ["encryption=none"];
  }

  /** What `serialize_vless` appends behind `?encryption=none`, one field after the other. */
  method AppendQuery(n: ProxyNode, head: string) returns (out: string)
    ensures IsQueryText(out, head, QueryFields(n))
  {
    var w := ShowTransport(n.transport, "httpupgrade");
    out := head + "encryption=none";
    ghost var fs := EncryptionFields();
    EncryptionIsPrinted();
    out := AppendPlain(head, fs, out, "type", if w.net == "tcp" then None else Some(w.net));
    fs := fs + TypeFields(w);
    out := AppendTls(head, fs, out, n);
    fs := fs + TlsFields(n);
    out := AppendHost(head, fs, out, w);
  }

  /** `serialize_vless` */
  method SerializeVless(n: ProxyNode) returns (r: Result<string, SerializeError>)
    ensures r == VlessLine(n)
  {
    if n.kind != Vless {
      return Err(UnsupportedKind(n.kind));
    }
    if n.uuid == None {
      return Err(MissingPart("uuid"));
    }
    var authority := n.uuid.value + "@" + ShowHostPort(n.server, n.port);
    var out := AppendQuery(n, SCHEME + (authority + "?"));
    ghost var query := Text.Join(Fields(QueryFields(n)), "&");
    PushedText(SCHEME, authority, query, n.name);
    if n.name != "" {
      out := out + "#" + n.name;
    }
    return Ok(out);
  }

  // ---------- the normal form ----------

  /** What reading a printed node gives: `insecure` is off, the server name falls back to the printed host, and
      the transport is normal. */
  function Normal(n: ProxyNode): ProxyNode {
    NewNode(n.name, Vless, n.server, n.port).(
    uuid := n.uuid,
    tls := if IsTlsOn(n) then
      Some(TlsSettings(
             true, OrElse(Sni(n), TransportHost(n.transport)), Alpn(AlpnValue(AlpnOf(n))), false, Fingerprint(n)))
    else None,
    transport := NormalTransport(n.transport))
  }

  lemma EncryptionIsPrintable(n: ProxyNode, w: TransportText)
    ensures ArePrintable(EncryptionFields())
    ensures OtherKeys(EncryptionFields(), TypeFields(w)) && OtherKeys(EncryptionFields(), TlsFields(n))
    ensures OtherKeys(EncryptionFields(), HostFields(w))
  {
  }

  lemma FieldsArePrintable(n: ProxyNode)
    ensures ArePrintable(QueryFields(n))
  {
    var w := ShowTransport(n.transport, "httpupgrade");
    EncryptionIsPrintable(n, w);
    TypeIsPrintable(w);
    TlsIsPrintable(n);
    HostIsPrintable(n, w);
    ConcatIsPrintable(EncryptionFields(), TypeFields(w), TlsFields(n), HostFields(w));
  }

  lemma FieldsAreThere(n: ProxyNode)
    ensures HasFields(QueryFields(n), n, ShowTransport(n.transport, "httpupgrade"))
  {
    var fs, w := QueryFields(n), ShowTransport(n.transport, "httpupgrade");
    assert fs[1..2] == TypeFields(w) && fs[2..6] == TlsFields(n) && fs[6..] == HostFields(w);
  }

  lemma NodeOfLocals(n: ProxyNode)
    requires n.uuid.Some?
    ensures Node(n.name, n.server, n.port, n.uuid.value,
                 PrintedLocals(n, ShowTransport(n.transport, "httpupgrade"))) == Normal(n)
  {
    TransportRoundTrip(n.transport);
  }

  lemma NodeOfPrinted(n: ProxyNode)
    requires n.uuid.Some?
    ensures Node(n.name, n.server, n.port, n.uuid.value, Walked(Pieces(JoinPieces(Fields(QueryFields(n)))))) ==
            Normal(n)
  {
    FieldsArePrintable(n);
    FieldsAreThere(n);
    WalkOfFields(QueryFields(n), n, ShowTransport(n.transport, "httpupgrade"));
    NodeOfLocals(n);
  }

  /** The printed query, if any. */
  function QueryText(n: ProxyNode): Option<string> {
    JoinPieces(Fields(QueryFields(n)))
  }

  lemma QueryHasNoSpace(n: ProxyNode)
    ensures QueryText(n).Some? ==> NoSpace(QueryText(n).value)
  {
    FieldsArePrintable(n);
    PiecesOfFields(QueryFields(n));
  }

  lemma PartsOfPrinted(n: ProxyNode)
    requires VlessLine(n).Ok? && IsServer(n.server) && '#' !in n.uuid.value
    ensures var line := VlessLine(n).value;
            && SCHEME <= line
            && SplitUri(line[|SCHEME|..]) ==
               UriParts(n.uuid.value, ShowHostPort(n.server, n.port),
                        JoinPieces(Fields(QueryFields(n))), NameTag(n.name))
  {
    var fs := QueryFields(n);
    FieldsArePrintable(n);
    PiecesOfFields(fs);
    HostPortText(n.server, n.port);
    SplitPrinted(n.uuid.value, ShowHostPort(n.server, n.port), JoinPieces(Fields(fs)), NameTag(n.name));
  }

  /** Reading a printed node gives its normal form, unless its server starts with a bracket or its uuid is empty:
      then reading fails. */
  lemma PrintedReads(n: ProxyNode)
    requires VlessLine(n).Ok? && IsServer(n.server) && '#' !in n.uuid.value
    ensures SCHEME <= VlessLine(n).value
    ensures VlessNode(VlessLine(n).value) ==
            if StartsBracket(n.server) then Failed(InvalidUri(ShowHostPort(n.server, n.port)))
            else if n.uuid == Some("") then Failed(MissingField("uuid"))
            else Done(Normal(n))
  {
    PartsOfPrinted(n);
    NodeOfPrinted(n);
    ServerReadsBack(n.server, n.port);
  }

  // ---------- nodes that were read ----------

  /** What every node that was read from a vless URI looks like. */
  ghost predicate IsRead(n: ProxyNode) {
    && n.kind == Vless && IsServer(n.server)
    && n.uuid.Some? && n.uuid.value != "" && '#' !in n.uuid.value
    && n.crypto == None && n.password == None && n.alterId == None
    && IsReadTransport(n.transport)
    && (n.tls.Some? ==>
          && n.tls.value.enabled && Text.Free(n.tls.value.alpn, ',')
          && (n.tls.value.sni == None ==> TransportHost(n.transport) == None))
  }

  lemma NodeShape(name: string, server: string, port: Port, uuid: string, ps: seq<string>)
    requires IsServer(server) && uuid != "" && '#' !in uuid
    ensures IsRead(Node(name, server, port, uuid, Walked(ps)))
  {
    var q := Walked(ps);
    ReadTransportShape(q.net, q.path, q.host);
    AlpnIsFree(Last(ps, {"alpn"}));
  }

  /** Where the parts of a node that was read come from. */
  lemma PartsOfNode(uri: string)
    requires VlessNode(uri).Done?
    ensures SCHEME <= uri
    ensures var n, p := VlessNode(uri).value, SplitUri(uri[|SCHEME|..]);
            && n.kind == Vless && n.name == p.fragment.GetOr("")
            && ParseHostPort(p.hostpart).Ok? && n.server == ParseHostPort(p.hostpart).value.0
            && n.uuid == Some(p.userinfo)
  {
  }

  lemma ReadShape(uri: string)
    requires VlessNode(uri).Done?
    ensures IsRead(VlessNode(uri).value)
  {
    var p := SplitUri(uri[|SCHEME|..]);
    PartsAreFree(uri[|SCHEME|..]);
    ServerOfHostPort(p.hostpart);
    var (server, port) := ParseHostPort(p.hostpart).value;
    NodeShape(p.fragment.GetOr(""), server, port, p.userinfo, Pieces(p.query));
  }

  /** For every node that can be printed: its line is read as its normal form if and only if its server holds no
      delimiter of the URI and does not start with a bracket, and its uuid is not empty and holds no `#`. Where the
      parts of the line can be told apart, the error is stated. */
  lemma RoundTrip(n: ProxyNode)
    requires VlessLine(n).Ok?
    ensures VlessNode(VlessLine(n).value) == Done(Normal(n)) <==>
            IsServer(n.server) && !StartsBracket(n.server) && n.uuid.value != "" && '#' !in n.uuid.value
    ensures IsServer(n.server) && '#' !in n.uuid.value ==>
              VlessNode(VlessLine(n).value) ==
              if StartsBracket(n.server) then Failed(InvalidUri(ShowHostPort(n.server, n.port)))
              else if n.uuid == Some("") then Failed(MissingField("uuid"))
              else Done(Normal(n))
  {
    if IsServer(n.server) && '#' !in n.uuid.value {
      PrintedReads(n);
    }
    if VlessNode(VlessLine(n).value).Done? {
      ReadShape(VlessLine(n).value);
    }
  }

  /** Exactly what one trip through the printer changes in a node that was read, and when it changes nothing. */
  lemma NormalOfRead(n: ProxyNode)
    requires IsRead(n)
    ensures Normal(n) == n.(
            tls := match n.tls
                   case Some(t) => Some(t.(insecure := false))
                   case None => None,
            transport := WithoutEmptyHost(n.transport))
    ensures Normal(n) == n <==> (n.tls.Some? ==> !n.tls.value.insecure) && WithoutEmptyHost(n.transport) == n.transport
  {
    NormalOfReadTransport(n.transport);
    if n.tls.Some? {
      AlpnRoundTrip(n.tls.value.alpn);
    }
  }

  /** The trip does not change the printed line: it is stable from the first time on. */
  lemma LineIsStable(n: ProxyNode)
    requires IsRead(n)
    ensures VlessLine(Normal(n)) == VlessLine(n)
  {
    NormalOfRead(n);
    NormalTransportPrints(n.transport, "httpupgrade");
    assert QueryFields(Normal(n)) == QueryFields(n);
  }

  /** The normal form is normal: one trip is enough. */
  lemma NormalIsStable(n: ProxyNode)
    requires IsRead(n)
    ensures Normal(Normal(n)) == Normal(n) && IsRead(Normal(n))
  {
    NormalTransportTwice(n.transport);
    NormalOfRead(n);
    NormalOfRead(Normal(n));
  }

  /** A node that was read is printed; the printed line is read as the normal form exactly when the server does
      not start with a bracket; the normal form is printed as the same line. */
  lemma ReadRoundTrip(uri: string)
    requires VlessNode(uri).Done?
    ensures var n := VlessNode(uri).value;
            && VlessLine(n).Ok?
            && (VlessNode(VlessLine(n).value) == Done(Normal(n)) <==> !StartsBracket(n.server))
            && Normal(Normal(n)) == Normal(n)
            && VlessLine(Normal(n)) == VlessLine(n)
            && IsRead(Normal(n))
  {
    var n := VlessNode(uri).value;
    ReadShape(uri);
    PrintedReads(n);
    LineIsStable(n);
    NormalIsStable(n);
  }
}
