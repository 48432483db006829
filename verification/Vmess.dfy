/** vmess URIs (crates/proxy-core/src/protocols/vmess.rs): base64 around a JSON object, modelled as a field map. */
module Vmess {
  import opened Wrappers
  import opened Library
  import opened Model
  import opened Uri
  import Base64
  import Query
  import Text
  import Utf8

  const SCHEME := "vmess://"

  // ---------- reading ----------

  /** The closure `get`: a string, or a number or boolean as text. */
  function Get(v: Json, key: string): Option<string> {
    if v.OtherJson? || key !in v.fields then None
    else match v.fields[key]
         case TextField(s) => Some(s)
         case NumberField(s) => Some(s)
         case BoolField(b) => Some(if b then "true" else "false")
         case OtherField => None
  }

  /** `filter(|s| !s.is_empty())` on an optional text */
  function Filled(s: Option<string>): Option<string> {
    if s == Some("") then None else s
  }

  /** The non-empty texts of a list. */
  function FilledAll(parts: seq<string>): seq<string> {
    if parts == [] then []
    else (if parts[0] == "" then [] else [parts[0]]) + FilledAll(parts[1..])
  }

  function ReadAlpn(v: Option<string>): seq<string> {
    match v
    case None => []
    case Some(s) => FilledAll(Text.Split(s, ','))
  }

  predicate IsTlsWord(tls: Option<string>, security: Option<string>) {
    || tls in {Some("tls"), Some("xtls"), Some("reality")}
    || security == Some("tls")
  }

  function ReadPort(v: Option<string>): Option<Port> {
    match v case None => None case Some(s) => ParsePort(s)
  }

  /** `http` is another word for an HTTP upgrade here. */
  function ReadNet(net: string, path: string, host: Option<string>): Option<Transport> {
    if net == "http" then Some(OnlyHttpUpgrade(path, host)) else ReadTransport(net, path, host)
  }

  function ReadTls(v: Json): Option<TlsSettings> {
    if IsTlsWord(Get(v, "tls"), Get(v, "security")) then
      Some(TlsSettings(true, OrElse(Filled(Get(v, "sni")), Get(v, "host")), ReadAlpn(Get(v, "alpn")),
                       Query.Truthy(Get(v, "allowInsecure")), Filled(Get(v, "fp"))))
    else None
  }

  /** The node that a JSON value describes. */
  function NodeOfJson(v: Json): Outcome<ProxyNode> {
    match Get(v, "add")
    case None => Failed(MissingField("add"))
    case Some(server) =>
      match ReadPort(Get(v, "port"))
      case None => Failed(InvalidPort)
      case Some(port) =>
        Done(NewNode(Get(v, "ps").GetOr(""), Vmess, server, port).(
             uuid := Get(v, "id"),
             alterId := ReadPort(Get(v, "aid")),
             tls := ReadTls(v),
             transport := ReadNet(Get(v, "net").GetOr("tcp"), Get(v, "path").GetOr(""), Get(v, "host"))))
  }

  /** `parse_vmess` */
  function VmessNode(lib: Library, uri: string): Outcome<ProxyNode> {
    if !(SCHEME <= uri) then Failed(UnsupportedProtocol)
    else match Base64.DecodeUrlString(uri[|SCHEME|..])
         case Err(e) => Failed(e)
         case Ok(text) =>
           match lib.parseJson(text)
           case None => Failed(InvalidUri(uri))
           case Some(v) => NodeOfJson(v)
  }

  // ---------- printing ----------

  function Kept(s: Option<string>): Option<string> {
    NonEmpty(s.GetOr(""))
  }

  predicate IsInsecure(n: ProxyNode) {
    n.tls.Some? && n.tls.value.insecure
  }

  /** What is printed under a key, if anything. */
  function Printed(n: ProxyNode, key: string): Option<string> {
    var w := ShowTransport(n.transport, "http");
    if key == "v" then Some("2")
    else if key == "ps" then Some(n.name)
    else if key == "add" then Some(n.server)
    else if key == "port" then Some(ShowNat(n.port))
    else if key == "id" then Some(n.uuid.GetOr(""))
    else if key == "aid" then Some(ShowNat(n.alterId.GetOr(0)))
    else if key == "net" then Some(w.net)
    else if key == "type" then Some("none")
    else if key == "path" then Some(w.path)
    else if key == "host" then NonEmpty(w.host)
    else if key == "tls" then Some(if IsTlsOn(n) then "tls" else "none")
    else if key == "sni" then Kept(Sni(n))
    else if key == "alpn" then NonEmpty(Text.Join(AlpnOf(n), ","))
    else if key == "fp" then Kept(Fingerprint(n))
    else if key == "allowInsecure" then Some(if IsInsecure(n) then "1" else "0")
    else None
  }

  const KEYS := {
    "v", "ps", "add", "port", "id", "aid", "net", "type", "path", "host", "tls", "sni", "alpn", "fp",
    "allowInsecure"}

  /** The part of the printed object under some of the keys. */
  function PrintedOn(n: ProxyNode, keys: set<string>): map<string, string> {
    map k | k in keys && Printed(n, k).Some? :: Printed(n, k).value
  }

  /** The object that is printed. */
  function PrintedMap(n: ProxyNode): map<string, string> {
    PrintedOn(n, KEYS)
  }

  function Payload(lib: Library, n: ProxyNode): string {
    Base64.Padded(Utf8.Encode(lib.printJson(PrintedMap(n))))
  }

  /** The line that a node is printed as. */
  function VmessLine(lib: Library, n: ProxyNode): Result<string, SerializeError> {
    if n.kind != Vmess then Err(UnsupportedKind(n.kind))
    else Ok(SCHEME + Payload(lib, n))
  }

  /** One insert of `serialize_vmess`. */
  method Insert(ghost n: ProxyNode, ghost keys: set<string>, obj: map<string, string>, key: string, value: string)
    returns (ghost keys': set<string>, r: map<string, string>)
    requires obj == PrintedOn(n, keys) && Printed(n, key) == Some(value)
    ensures keys' == keys + {key}
    ensures r == PrintedOn(n, keys + {key})
  {
    keys', r := keys + {key}, obj[key := value];
  }

  /** One insert of `serialize_vmess` that is left out when the text is empty. */
  method InsertFilled(ghost n: ProxyNode, ghost keys: set<string>, obj: map<string, string>, key: string, value: string)
    returns (ghost keys': set<string>, r: map<string, string>)
    requires obj == PrintedOn(n, keys) && Printed(n, key) == NonEmpty(value)
    ensures keys' == keys + {key}
    ensures r == PrintedOn(n, keys + {key})
  {
    keys', r := keys + {key}, obj;
    if value != "" {
      r := r[key := value];
    }
  }

  const NODE_KEYS := {"v", "ps", "add", "port", "id", "aid"}
  const TRANSPORT_KEYS := {"net", "type", "path", "host"}
  const TLS_KEYS := {"tls", "sni", "alpn", "fp", "allowInsecure"}

  method InsertNode(n: ProxyNode) returns (obj: map<string, string>)
    ensures obj == PrintedOn(n, NODE_KEYS)
  {
    ghost var ks := {};
    obj := map[];
    ks, obj := Insert(n, ks, obj, "v", "2");
    ks, obj := Insert(n, ks, obj, "ps", n.name);
    ks, obj := Insert(n, ks, obj, "add", n.server);
    ks, obj := Insert(n, ks, obj, "port", ShowNat(n.port));
    ks, obj := Insert(n, ks, obj, "id", n.uuid.GetOr(""));
    ks, obj := Insert(n, ks, obj, "aid", ShowNat(n.alterId.GetOr(0)));
    assert ks == NODE_KEYS;
  }

  method InsertTransport(n: ProxyNode, ghost keys: set<string>, obj: map<string, string>)
    returns (r: map<string, string>)
    requires obj == PrintedOn(n, keys)
    ensures r == PrintedOn(n, keys + TRANSPORT_KEYS)
  {
    var w := ShowTransport(n.transport, "http");
    ghost var ks := keys;
    ks, r := Insert(n, ks, obj, "net", w.net);
    ks, r := Insert(n, ks, r, "type", "none");
    ks, r := Insert(n, ks, r, "path", w.path);
    ks, r := InsertFilled(n, ks, r, "host", w.host);
    assert ks == keys + TRANSPORT_KEYS;
  }

  method InsertTls(n: ProxyNode, ghost keys: set<string>, obj: map<string, string>) returns (r: map<string, string>)
    requires obj == PrintedOn(n, keys)
    ensures r == PrintedOn(n, keys + TLS_KEYS)
  {
    ghost var ks := keys;
    ks, r := Insert(n, ks, obj, "tls", if IsTlsOn(n) then "tls" else "none");
    ks, r := InsertFilled(n, ks, r, "sni", Sni(n).GetOr(""));
    ks, r := InsertFilled(n, ks, r, "alpn", Text.Join(AlpnOf(n), ","));
    ks, r := InsertFilled(n, ks, r, "fp", Fingerprint(n).GetOr(""));
    ks, r := Insert(n, ks, r, "allowInsecure", if IsInsecure(n) then "1" else "0");
    assert ks == keys + TLS_KEYS;
  }

  /** The object that `serialize_vmess` builds. */
  method CollectFields(n: ProxyNode) returns (obj: map<string, string>)
    ensures obj == PrintedMap(n)
  {
    obj := InsertNode(n);
    obj := InsertTransport(n, NODE_KEYS, obj);
    obj := InsertTls(n, NODE_KEYS + TRANSPORT_KEYS, obj);
    assert NODE_KEYS + TRANSPORT_KEYS + TLS_KEYS == KEYS;
  }

  /** `serialize_vmess` */
  method SerializeVmess(lib: Library, n: ProxyNode) returns (r: Result<string, SerializeError>)
    ensures r == VmessLine(lib, n)
  {
    if n.kind != Vmess {
      return Err(UnsupportedKind(n.kind));
    }
    var obj := CollectFields(n);
    var b64 := Base64.Padded(Utf8.Encode(lib.printJson(obj)));
    return Ok(SCHEME + b64);
  }

  // ---------- the normal form ----------

  /** The protocol names that survive: those that are not empty once the printed list is cut at its commas. */
  function NormalAlpn(alpn: seq<string>): seq<string> {
    ReadAlpn(NonEmpty(Text.Join(alpn, ",")))
  }

  /** What reading a printed node gives: id and alterId are always there, empty texts are dropped, the server name
      falls back to the printed host, and the transport is normal. */
  function Normal(n: ProxyNode): ProxyNode {
    NewNode(n.name, Vmess, n.server, n.port).(
    uuid := Some(n.uuid.GetOr("")),
    alterId := Some(n.alterId.GetOr(0)),
    tls := if IsTlsOn(n) then
      Some(TlsSettings(true, OrElse(Kept(Sni(n)), TransportHost(n.transport)), NormalAlpn(AlpnOf(n)),
                       IsInsecure(n), Kept(Fingerprint(n))))
    else None,
    transport := NormalTransport(n.transport))
  }

  predicate Fits(lib: Library, n: ProxyNode) {
    Base64.FitsWhenEncoded(Utf8.Encode(lib.printJson(PrintedMap(n))))
  }

  function PrintedJson(n: ProxyNode): Json {
    JsonObject(AsTexts(PrintedMap(n)))
  }

  lemma GetPrinted(n: ProxyNode, key: string)
    requires key in KEYS
    ensures Get(PrintedJson(n), key) == Printed(n, key)
  {
  }

  lemma NetOfPrinted(t: Option<Transport>)
    ensures var w := ShowTransport(t, "http"); ReadNet(w.net, w.path, NonEmpty(w.host)) == NormalTransport(t)
  {
    TransportRoundTrip(t);
  }

  /** What the reader finds under the keys of the node itself. */
  predicate HoldsNode(v: Json, n: ProxyNode) {
    && Get(v, "add") == Some(n.server)
    && Get(v, "port") == Some(ShowNat(n.port))
    && Get(v, "ps") == Some(n.name)
    && Get(v, "id") == Some(n.uuid.GetOr(""))
    && Get(v, "aid") == Some(ShowNat(n.alterId.GetOr(0)))
  }

  predicate HoldsTransport(v: Json, w: TransportText) {
    Get(v, "net") == Some(w.net) && Get(v, "path") == Some(w.path) && Get(v, "host") == NonEmpty(w.host)
  }

  predicate HoldsTls(v: Json, n: ProxyNode) {
    && Get(v, "tls") == Some(if IsTlsOn(n) then "tls" else "none")
    && Get(v, "security") == None
    && Get(v, "sni") == Kept(Sni(n))
    && Get(v, "alpn") == NonEmpty(Text.Join(AlpnOf(n), ","))
    && Get(v, "fp") == Kept(Fingerprint(n))
    && Get(v, "allowInsecure") == Some(if IsInsecure(n) then "1" else "0")
  }

  lemma PrintedHoldsNode(n: ProxyNode)
    ensures HoldsNode(PrintedJson(n), n)
  {
    GetPrinted(n, "add");
    GetPrinted(n, "port");
    GetPrinted(n, "ps");
    GetPrinted(n, "id");
    GetPrinted(n, "aid");
  }

  lemma PrintedHoldsTransport(n: ProxyNode)
    ensures HoldsTransport(PrintedJson(n), ShowTransport(n.transport, "http"))
  {
    GetPrinted(n, "net");
    GetPrinted(n, "path");
    GetPrinted(n, "host");
  }

  lemma PrintedHoldsTls(n: ProxyNode)
    ensures HoldsTls(PrintedJson(n), n)
  {
    GetPrinted(n, "tls");
    GetPrinted(n, "sni");
    GetPrinted(n, "alpn");
    GetPrinted(n, "allowInsecure");
    GetPrinted(n, "fp");
  }

  lemma NodeOfHeld(v: Json, n: ProxyNode)
    requires HoldsNode(v, n) && HoldsTransport(v, ShowTransport(n.transport, "http")) && HoldsTls(v, n)
    ensures NodeOfJson(v) == Done(Normal(n))
  {
    NetOfPrinted(n.transport);
    PortRoundTrip(n.port);
    PortRoundTrip(n.alterId.GetOr(0));
    assert ReadTls(v) == Normal(n).tls;
  }

  lemma NodeOfPrinted(n: ProxyNode)
    ensures NodeOfJson(PrintedJson(n)) == Done(Normal(n))
  {
    PrintedHoldsNode(n);
    PrintedHoldsTransport(n);
    PrintedHoldsTls(n);
    NodeOfHeld(PrintedJson(n), n);
  }

  /** Reading any printed node gives its normal form, whatever its fields hold, unless the printed object is too
      long for the base64 reader: then reading fails. */
  lemma RoundTrip(lib: Library, n: ProxyNode)
    requires Lawful(lib) && n.kind == Vmess
    ensures SCHEME <= VmessLine(lib, n).value
    ensures VmessNode(lib, VmessLine(lib, n).value) ==
            if Fits(lib, n) then Done(Normal(n)) else Failed(InvalidBase64(Payload(lib, n)))
  {
    Base64.TextRoundTrip(lib.printJson(PrintedMap(n)), Base64.Standard);
    Text.DropPrefix(SCHEME, Payload(lib, n));
    NodeOfPrinted(n);
  }

  // ---------- nodes that were read ----------

  ghost predicate AllFilled(parts: seq<string>) {
    forall i :: 0 <= i < |parts| ==> parts[i] != ""
  }

  /** What every node that was read from a vmess URI looks like. */
  ghost predicate IsRead(n: ProxyNode) {
    && n.kind == Vmess && n.crypto == None && n.password == None
    && IsReadTransport(n.transport)
    && (n.tls.Some? ==>
          && n.tls.value.enabled && n.tls.value.fingerprint != Some("")
          && Text.Free(n.tls.value.alpn, ',') && AllFilled(n.tls.value.alpn)
          && (n.tls.value.sni.GetOr("") == "" ==> TransportHost(n.transport) == None))
  }

  lemma {:induction false} FilledAllShape(parts: seq<string>, c: char)
    requires Text.Free(parts, c)
    ensures Text.Free(FilledAll(parts), c) && AllFilled(FilledAll(parts))
  {
    if parts != [] {
      FilledAllShape(parts[1..], c);
    }
  }

  lemma {:induction false} FilledAllStays(parts: seq<string>)
    requires AllFilled(parts)
    ensures FilledAll(parts) == parts
  {
    if parts != [] {
      FilledAllStays(parts[1..]);
      assert parts == [parts[0]] + parts[1..];
    }
  }

  /** Names without commas that are not empty survive. */
  lemma AlpnRoundTrip(alpn: seq<string>)
    requires Text.Free(alpn, ',') && AllFilled(alpn)
    ensures NormalAlpn(alpn) == alpn
  {
    if alpn != [] {
      Text.SplitOfJoin(alpn, ',');
      FilledAllStays(alpn);
      assert Text.Join(alpn, ",") != "" by {
        assert alpn[0] != "";
      }
    }
  }

  lemma JsonShape(v: Json)
    requires NodeOfJson(v).Done?
    ensures IsRead(NodeOfJson(v).value)
  {
    ReadTransportShape(Get(v, "net").GetOr("tcp"), Get(v, "path").GetOr(""), Get(v, "host"));
    if Get(v, "alpn").Some? {
      FilledAllShape(Text.Split(Get(v, "alpn").value, ','), ',');
    }
  }

  lemma ReadShape(lib: Library, uri: string)
    requires VmessNode(lib, uri).Done?
    ensures IsRead(VmessNode(lib, uri).value)
  {
    JsonShape(lib.parseJson(Base64.DecodeUrlString(uri[|SCHEME|..]).value).value);
  }

  /** Exactly what one trip through the printer changes in a node that was read, and when it changes nothing. */
  lemma NormalOfRead(n: ProxyNode)
    requires IsRead(n)
    ensures Normal(n) == n.(
            uuid := Some(n.uuid.GetOr("")),
            alterId := Some(n.alterId.GetOr(0)),
            tls := match n.tls
                   case Some(t) => Some(t.(sni := Filled(t.sni)))
                   case None => None,
            transport := WithoutEmptyHost(n.transport))
    ensures Normal(n) == n <==>
            && n.uuid.Some? && n.alterId.Some?
            && (n.tls.Some? ==> n.tls.value.sni != Some(""))
            && WithoutEmptyHost(n.transport) == n.transport
  {
    NormalOfReadTransport(n.transport);
    if n.tls.Some? {
      AlpnRoundTrip(n.tls.value.alpn);
    }
  }

  /** Everything that the printer looks at. */
  function Shown(n: ProxyNode): (ProxyNode, TransportText, Option<string>, string, Option<string>, bool, bool) {
    (NewNode(n.name, n.kind, n.server, n.port).(uuid := Some(n.uuid.GetOr("")), alterId := Some(n.alterId.GetOr(0))),
     ShowTransport(n.transport, "http"), Kept(Sni(n)), Text.Join(AlpnOf(n), ","), Kept(Fingerprint(n)), IsTlsOn(n),
     IsInsecure(n))
  }

  lemma PrintedOfShown(m: ProxyNode, n: ProxyNode, key: string)
    requires Shown(m) == Shown(n)
    ensures Printed(m, key) == Printed(n, key)
  {
  }

  /** The trip does not change the printed object: it is stable from the first time on. */
  lemma PrintedMapIsStable(n: ProxyNode)
    requires IsRead(n)
    ensures PrintedMap(Normal(n)) == PrintedMap(n)
  {
    NormalOfRead(n);
    assert Shown(Normal(n)) == Shown(n);
    forall k: string
      ensures Printed(Normal(n), k) == Printed(n, k)
    {
      PrintedOfShown(Normal(n), n, k);
    }
  }

  /** The normal form is normal: one trip is enough. */
  lemma NormalIsStable(n: ProxyNode)
    requires IsRead(n)
    ensures Normal(Normal(n)) == Normal(n) && IsRead(Normal(n))
  {
    NormalTransportTwice(n.transport);
    NormalOfRead(n);
    NormalOfRead(Normal(n));
  }

  /** A node that was read is printed; the printed line is read as the normal form exactly when it fits the
      base64 reader; the normal form is printed as the same line. */
  lemma ReadRoundTrip(lib: Library, uri: string)
    requires Lawful(lib) && VmessNode(lib, uri).Done?
    ensures var n := VmessNode(lib, uri).value;
            && VmessLine(lib, n).Ok?
            && (VmessNode(lib, VmessLine(lib, n).value) == Done(Normal(n)) <==> Fits(lib, n))
            && Normal(Normal(n)) == Normal(n)
            && VmessLine(lib, Normal(n)) == VmessLine(lib, n)
            && IsRead(Normal(n))
  {
    var n := VmessNode(lib, uri).value;
    ReadShape(lib, uri);
    RoundTrip(lib, n);
    PrintedMapIsStable(n);
    NormalIsStable(n);
  }
}
