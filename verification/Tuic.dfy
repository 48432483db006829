/** tuic URIs (crates/proxy-core/src/protocols/tuic.rs). */
module Tuic {
  import opened Wrappers
  import opened Model
  import opened Percent
  import opened Query
  import opened Uri
  import Text

  const SCHEME := "tuic://"

  // ---------- reading ----------

  const INSECURE_KEYS := {"allow_insecure", "insecure"}

  function ReadTls(ps: seq<string>): TlsSettings {
    TlsSettings(true, Last(ps, {"sni"}), Alpn(Last(ps, {"alpn"})), Truthy(Last(ps, INSECURE_KEYS)), None)
  }

  function Node(name: string, server: string, port: Port, uuid: string, password: string, tls: TlsSettings): ProxyNode {
    NewNode(name, Tuic, server, port).(uuid := Some(uuid), password := Some(password), tls := Some(tls))
  }

  /** The node that a tuic URI describes. */
  function TuicNode(uri: string): Outcome<ProxyNode> {
    if !(SCHEME <= uri) then Failed(UnsupportedProtocol)
    else
      var p := SplitUri(uri[|SCHEME|..]);
      match ParseHostPort(p.hostpart)
      case Err(e) => Failed(e)
      case Ok((server, port)) =>
        match Text.SplitOnce(p.userinfo, ':')
        case None => Failed(MissingField("uuid"))
        case Some((uuid, raw)) =>
          match PercentDecode(raw)
          case Err(e) => Failed(e)
          case Ok(password) =>
            Done(Node(p.fragment.GetOr(""), server, port, uuid, password, ReadTls(Pieces(p.query))))
  }

  lemma ReadTlsStep(ps: seq<string>, i: nat)
    requires i < |ps|
    ensures var t := ReadTls(ps[..i]);
            ReadTls(ps[..i + 1]) ==
            match Text.SplitOnce(ps[i], '=')
            case None => t
            case Some((k, raw)) =>
              var v := DecodeOrEmpty(raw);
              if k == "sni" then t.(sni := Some(v))
              else if k == "alpn" then t.(alpn := Text.Split(v, ','))
              else if k == "allow_insecure" || k == "insecure" then t.(insecure := v == "1" || v == "true")
              else t
  {
    LastStep(ps, i, {"sni"});
    LastStep(ps, i, {"alpn"});
    LastStep(ps, i, INSECURE_KEYS);
  }

  /** The loop over the query. */
  method WalkQuery(ps: seq<string>) returns (tls: TlsSettings)
    ensures tls == ReadTls(ps)
  {
    var sni, alpn, insecure := None, [], false;
    for i := 0 to |ps|
      invariant TlsSettings(true, sni, alpn, insecure, None) == ReadTls(ps[..i])
    {
      ReadTlsStep(ps, i);
      match Text.SplitOnce(ps[i], '=') {
        case None =>
        case Some((k, raw)) =>
          var v := DecodeOrEmpty(raw);
          if k == "sni" { sni := Some(v); }
          else if k == "alpn" { alpn := Text.Split(v, ','); }
          else if k == "allow_insecure" || k == "insecure" { insecure := v == "1" || v == "true"; }
      }
    }
    assert ps[..|ps|] == ps;
    return TlsSettings(true, sni, alpn, insecure, None);
  }

  /** `parse_tuic` */
  method ParseTuic(uri: string) returns (r: Outcome<ProxyNode>)
    ensures r == TuicNode(uri)
  {
    if !(SCHEME <= uri) {
      return Failed(UnsupportedProtocol);
    }
    var p := SplitUri(uri[|SCHEME|..]);
    var hostPort := ParseHostPort(p.hostpart);
    if hostPort.Err? {
      return Failed(hostPort.error);
    }
    var (server, port) := hostPort.value;
    var userinfo := Text.SplitOnce(p.userinfo, ':');
    if userinfo.None? {
      return Failed(MissingField("uuid"));
    }
    var (uuid, raw) := userinfo.value;
    var password := PercentDecode(raw);
    if password.Err? {
      return Failed(password.error);
    }
    var tls := WalkQuery(Pieces(p.query));
    return Done(NewNode(p.fragment.GetOr(""), Tuic, server, port).(
                uuid := Some(uuid), password := Some(password.value), tls := Some(tls)));
  }

  // ---------- printing ----------

  function IsInsecure(n: ProxyNode): bool {
    n.tls.Some? && n.tls.value.insecure
  }

  const CONGESTION := "congestion_control"
  const RELAY := "udp_relay_mode"

  /** The query of a node: two fixed fields, then the TLS settings. */
  function QueryFields(n: ProxyNode): Params {
    [(CONGESTION, Some("bbr")),
     (RELAY, Some("native")),
     ("sni", Sni(n)),
     ("alpn", AlpnValue(AlpnOf(n))),
     ("allow_insecure", if IsInsecure(n) then Some("1") else None)]
  }

  function Userinfo(n: ProxyNode): string {
    n.uuid.GetOr("") + ":" + Urlencode(n.password.GetOr(""))
  }

  /** The line that a node is printed as. */
  function TuicLine(n: ProxyNode): Result<string, SerializeError> {
    if n.kind != Tuic then Err(UnsupportedKind(n.kind))
    else Ok(SCHEME + (Userinfo(n) + "@" + ShowHostPort(n.server, n.port)
                      + Tagged('?', JoinPieces(Fields(QueryFields(n))))
                      + Tagged('#', NameTag(n.name))))
  }

  lemma FirstIsPrinted(head: string)
    ensures IsQueryText(head + (CONGESTION + "=" + "bbr"), head, [(CONGESTION, Some("bbr"))])
  {
    var fs: Params := [(CONGESTION, Some("bbr"))];
    PlainWordStays("bbr");
    assert fs[..0] == [];
    assert Fields(fs) == [CONGESTION + "=" + "bbr"];
  }

  lemma AllFields(n: ProxyNode)
    ensures QueryFields(n) ==
            [(CONGESTION, Some("bbr"))] + [(RELAY, Some("native"))] + [("sni", Sni(n))]
            + [("alpn", AlpnValue(AlpnOf(n)))] + [("allow_insecure", if IsInsecure(n) then Some("1") else None)]
  {
  }

  /** What `serialize_tuic` appends behind the `?`, one field after the other. */
  method AppendQuery(n: ProxyNode, head: string) returns (out: string)
    ensures IsQueryText(out, head, QueryFields(n))
  {
    FirstIsPrinted(head);
    AllFields(n);
    out := head + (CONGESTION + "=" + "bbr");
    ghost var fs: Params := [(CONGESTION, Some("bbr"))];
    out := AppendPlain(head, fs, out, RELAY, Some("native"));
    fs := fs + [(RELAY, Some("native"))];
    out := AppendField(head, fs, out, "sni", Sni(n));
    fs := fs + [("sni", Sni(n))];
    out := AppendField(head, fs, out, "alpn", AlpnValue(AlpnOf(n)));
    fs := fs + [("alpn", AlpnValue(AlpnOf(n)))];
    out := AppendPlain(head, fs, out, "allow_insecure", if IsInsecure(n) then Some("1") else None);
  }

  /** `serialize_tuic` */
  method SerializeTuic(n: ProxyNode) returns (r: Result<string, SerializeError>)
    ensures r == TuicLine(n)
  {
    if n.kind != Tuic {
      return Err(UnsupportedKind(n.kind));
    }
    var authority := n.uuid.GetOr("") + ":" + Urlencode(n.password.GetOr("")) + "@" + ShowHostPort(n.server, n.port);
    var out := AppendQuery(n, SCHEME + (authority + "?"));
    ghost var query := Text.Join(Fields(QueryFields(n)), "&");
    PushedText(SCHEME, authority, query, n.name);
    if n.name != "" {
      out := out + "#" + n.name;
    }
    return Ok(out);
  }

  // ---------- round trip ----------

  /** What reading a printed node gives. */
  function Normal(n: ProxyNode): ProxyNode {
    Node(n.name, n.server, n.port, n.uuid.GetOr(""), n.password.GetOr(""),
         TlsSettings(true, Sni(n), Alpn(AlpnValue(AlpnOf(n))), IsInsecure(n), None))
  }

  lemma LongKeys()
    ensures IsKey(CONGESTION) && IsPieceText(CONGESTION)
    ensures IsKey(RELAY) && IsPieceText(RELAY)
    ensures |CONGESTION| == 18 && |RELAY| == 14 && RELAY[0] == 'u'
  {
  }

  lemma FieldsArePrintable(n: ProxyNode)
    ensures ArePrintable(QueryFields(n))
  {
    LongKeys();
  }

  lemma FieldsAreThere(n: ProxyNode)
    ensures ("sni", Sni(n)) in QueryFields(n)
    ensures ("alpn", AlpnValue(AlpnOf(n))) in QueryFields(n)
    ensures ("allow_insecure", if IsInsecure(n) then Some("1") else None) in QueryFields(n)
    ensures forall i :: 0 <= i < |QueryFields(n)| ==> QueryFields(n)[i].0 != "insecure"
  {
    var fs := QueryFields(n);
    assert fs[2].0 == "sni" && fs[3].0 == "alpn" && fs[4].0 == "allow_insecure";
  }

  lemma TlsOfPrinted(n: ProxyNode)
    ensures ReadTls(Pieces(JoinPieces(Fields(QueryFields(n))))) == Normal(n).tls.value
  {
    var fs := QueryFields(n);
    FieldsArePrintable(n);
    FieldsAreThere(n);
    RecoverField(fs, "sni", Sni(n));
    RecoverField(fs, "alpn", AlpnValue(AlpnOf(n)));
    RecoverField(fs, "allow_insecure", if IsInsecure(n) then Some("1") else None);
    RecoverNothing(fs, "insecure");
    LastOfTwoKeys(Pieces(JoinPieces(Fields(fs))), "allow_insecure", "insecure");
  }

  /** The printed query, if any. */
  function QueryText(n: ProxyNode): Option<string> {
    JoinPieces(Fields(QueryFields(n)))
  }

  lemma QueryHasNoSpace(n: ProxyNode)
    ensures QueryText(n).Some? ==> NoSpace(QueryText(n).value)
  {
    FieldsArePrintable(n);
    PiecesOfFields(QueryFields(n));
  }

  lemma PartsOfPrinted(n: ProxyNode)
    requires n.kind == Tuic && IsServer(n.server) && '#' !in n.uuid.GetOr("")
    ensures var line := TuicLine(n).value;
            && SCHEME <= line
            && SplitUri(line[|SCHEME|..]) ==
               UriParts(Userinfo(n), ShowHostPort(n.server, n.port),
                        JoinPieces(Fields(QueryFields(n))), NameTag(n.name))
  {
    var fs := QueryFields(n);
    FieldsArePrintable(n);
    PiecesOfFields(fs);
    HostPortText(n.server, n.port);
    SplitPrinted(Userinfo(n), ShowHostPort(n.server, n.port), JoinPieces(Fields(fs)), NameTag(n.name));
  }

  /** Reading a printed node gives its normal form, unless its server starts with a bracket: then reading
      fails. */
  lemma PrintedReads(n: ProxyNode)
    requires n.kind == Tuic && IsServer(n.server)
    requires '#' !in n.uuid.GetOr("") && ':' !in n.uuid.GetOr("")
    ensures SCHEME <= TuicLine(n).value
    ensures TuicNode(TuicLine(n).value) ==
            if StartsBracket(n.server) then Failed(InvalidUri(ShowHostPort(n.server, n.port))) else Done(Normal(n))
  {
    var uuid, enc := n.uuid.GetOr(""), Urlencode(n.password.GetOr(""));
    PartsOfPrinted(n);
    TlsOfPrinted(n);
    Text.FindAt(uuid, ':', enc);
    assert Userinfo(n) == uuid + [':'] + enc;
    Percent.RoundTrip(n.password.GetOr(""));
    ServerReadsBack(n.server, n.port);
  }

  // ---------- nodes that were read ----------

  /** What every node that was read from a tuic URI looks like. */
  ghost predicate IsRead(n: ProxyNode) {
    && n.kind == Tuic && IsServer(n.server)
    && n.uuid.Some? && '#' !in n.uuid.value && ':' !in n.uuid.value
    && n.password.Some? && n.crypto == None && n.alterId == None && n.transport == None
    && n.tls.Some? && n.tls.value.enabled && n.tls.value.fingerprint == None && Text.Free(n.tls.value.alpn, ',')
  }

  /** Where the parts of a node that was read come from. */
  lemma PartsOfNode(uri: string)
    requires TuicNode(uri).Done?
    ensures SCHEME <= uri
    ensures var n, p := TuicNode(uri).value, SplitUri(uri[|SCHEME|..]);
            && n.kind == Tuic && n.name == p.fragment.GetOr("")
            && ParseHostPort(p.hostpart).Ok? && n.server == ParseHostPort(p.hostpart).value.0
            && n.uuid == Some(CutAt(p.userinfo, ':').0)
  {
  }

  lemma ReadShape(uri: string)
    requires TuicNode(uri).Done?
    ensures IsRead(TuicNode(uri).value)
  {
    var p := SplitUri(uri[|SCHEME|..]);
    PartsAreFree(uri[|SCHEME|..]);
    ServerOfHostPort(p.hostpart);
    AlpnIsFree(Last(Pieces(p.query), {"alpn"}));
  }

  /** For every node that can be printed: its line is read as its normal form if and only if its server holds no
      delimiter of the URI and does not start with a bracket, and its uuid holds neither `#` nor `:`. Where the parts
      of the line can be told apart, the error is stated. */
  lemma RoundTrip(n: ProxyNode)
    requires TuicLine(n).Ok?
    ensures TuicNode(TuicLine(n).value) == Done(Normal(n)) <==>
            && IsServer(n.server) && !StartsBracket(n.server)
            && '#' !in n.uuid.GetOr("") && ':' !in n.uuid.GetOr("")
    ensures IsServer(n.server) && '#' !in n.uuid.GetOr("") && ':' !in n.uuid.GetOr("") ==>
              TuicNode(TuicLine(n).value) ==
              if StartsBracket(n.server) then Failed(InvalidUri(ShowHostPort(n.server, n.port))) else Done(Normal(n))
  {
    if IsServer(n.server) && '#' !in n.uuid.GetOr("") && ':' !in n.uuid.GetOr("") {
      PrintedReads(n);
    }
    if TuicNode(TuicLine(n).value).Done? {
      ReadShape(TuicLine(n).value);
    }
  }

  lemma NormalOfRead(n: ProxyNode)
    requires IsRead(n)
    ensures Normal(n) == n
  {
    AlpnRoundTrip(n.tls.value.alpn);
  }

  /** The printer loses nothing: a node that was read is read again from its printed line, exactly when its server
      does not start with a bracket. */
  lemma ReadRoundTrip(uri: string)
    requires TuicNode(uri).Done?
    ensures var n := TuicNode(uri).value;
            && TuicLine(n).Ok?
            && (TuicNode(TuicLine(n).value) == Done(n) <==> !StartsBracket(n.server))
  {
    var n := TuicNode(uri).value;
    ReadShape(uri);
    PrintedReads(n);
    NormalOfRead(n);
  }
}
