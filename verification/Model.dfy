/** The node model that every protocol is read into (crates/proxy-core/src/model.rs). */
module Model {
  import opened Wrappers
  import Text
  import Uri

  datatype Protocol =
    | Ss | Ssr | Socks5 | Http | Vmess | Vless | Trojan | Hysteria | Hysteria2 | Tuic | Wireguard

  /** Why a node could not be printed (crates/proxy-core/src/error.rs). */
  datatype SerializeError =
    | UnsupportedKind(kind: Protocol)
    | MissingPart(field: string)

  /** Encryption methods; an unknown one keeps its lower-case name. */
  datatype Crypto =
    | Aes256Gcm | Aes128Gcm | Chacha20IetfPoly1305 | Aes128Cfb | Aes192Cfb | Aes256Cfb
    | Chacha20Ietf | Salsa20 | Rc4Md5 | Plain
    | Raw(name: string)

  datatype Websocket = Websocket(path: string, host: Option<string>, headers: map<string, string>)

  datatype Grpc = Grpc(serviceName: string)

  datatype HttpUpgrade = HttpUpgrade(path: string, host: Option<string>)

  datatype Transport = Transport(websocket: Option<Websocket>, grpc: Option<Grpc>, httpUpgrade: Option<HttpUpgrade>)

  datatype TlsSettings = TlsSettings(
    enabled: bool, sni: Option<string>, alpn: seq<string>, insecure: bool, fingerprint: Option<string>)

  datatype ProxyNode = ProxyNode(
    name: string, kind: Protocol, server: string, port: Uri.Port,
    crypto: Option<Crypto>, password: Option<string>, uuid: Option<string>, alterId: Option<Uri.Port>,
    tls: Option<TlsSettings>, transport: Option<Transport>)

  /** `ProxyNode::new` */
  function NewNode(name: string, kind: Protocol, server: string, port: Uri.Port): ProxyNode {
    ProxyNode(name, kind, server, port, None, None, None, None, None, None)
  }

  // ---------- TLS, as the printers look at it ----------

  predicate IsTlsOn(n: ProxyNode) {
    n.tls.Some? && n.tls.value.enabled
  }

  function Sni(n: ProxyNode): Option<string> {
    if n.tls.Some? then n.tls.value.sni else None
  }

  function Fingerprint(n: ProxyNode): Option<string> {
    if n.tls.Some? then n.tls.value.fingerprint else None
  }

  function AlpnOf(n: ProxyNode): seq<string> {
    if n.tls.Some? then n.tls.value.alpn else []
  }

  // ---------- encryption methods ----------

  /** `Crypto::from_str` */
  function ParseCrypto(s: string): Crypto {
    CryptoNamed(Text.ToLower(s))
  }

  function CryptoNamed(l: string): Crypto {
    if l == "aes-256-gcm" then Aes256Gcm
    else if l == "aes-128-gcm" then Aes128Gcm
    else if l == "chacha20-ietf-poly1305" then Chacha20IetfPoly1305
    else if l == "aes-128-cfb" then Aes128Cfb
    else if l == "aes-192-cfb" then Aes192Cfb
    else if l == "aes-256-cfb" then Aes256Cfb
    else if l == "chacha20-ietf" then Chacha20Ietf
    else if l == "salsa20" then Salsa20
    else if l == "rc4-md5" then Rc4Md5
    else if l == "2022-blake3-aes-256-gcm" || l == "none" || l == "plain" then Plain
    else Raw(l)
  }

  /** `Crypto::as_str` */
  function CryptoName(c: Crypto): string {
    match c
    case Aes256Gcm => "aes-256-gcm"
    case Aes128Gcm => "aes-128-gcm"
    case Chacha20IetfPoly1305 => "chacha20-ietf-poly1305"
    case Aes128Cfb => "aes-128-cfb"
    case Aes192Cfb => "aes-192-cfb"
    case Aes256Cfb => "aes-256-cfb"
    case Chacha20Ietf => "chacha20-ietf"
    case Salsa20 => "salsa20"
    case Rc4Md5 => "rc4-md5"
    case Plain => "plain"
    case Raw(name) => name
  }

  /** A method that survives being printed and read. */
  predicate IsCrypto(c: Crypto) {
    ParseCrypto(CryptoName(c)) == c
  }

  /** Every method that was read survives, and its name has no character, other than lower-case letters and
      digits and hyphens, that the text did not have. */
  lemma ParsedCrypto(s: string)
    ensures IsCrypto(ParseCrypto(s))
  {
    var c := ParseCrypto(s);
    if c.Raw? {
      Text.ToLowerTwice(s);
    } else {
      assert Text.ToLower(CryptoName(c)) == CryptoName(c);
    }
  }

  lemma NameChars(crypto: Crypto, c: char)
    requires c == ':' || c == '/' || c == '?'
    requires !crypto.Raw?
    ensures c !in CryptoName(crypto)
  {
  }

  lemma CryptoNameChars(s: string, c: char)
    requires c !in s
    requires c == ':' || c == '/' || c == '?'
    ensures c !in CryptoName(ParseCrypto(s))
  {
    Text.ToLowerChars(s, c);
    if !ParseCrypto(s).Raw? {
      NameChars(ParseCrypto(s), c);
    }
  }

  /** The names that stand for a method, in lower case. */
  const METHODS: map<string, Crypto> := map[
    "aes-256-gcm" := Aes256Gcm, "aes-128-gcm" := Aes128Gcm, "chacha20-ietf-poly1305" := Chacha20IetfPoly1305,
    "aes-128-cfb" := Aes128Cfb, "aes-192-cfb" := Aes192Cfb, "aes-256-cfb" := Aes256Cfb,
    "chacha20-ietf" := Chacha20Ietf, "salsa20" := Salsa20, "rc4-md5" := Rc4Md5,
    "2022-blake3-aes-256-gcm" := Plain, "none" := Plain, "plain" := Plain]

  lemma NamedExactly(l: string)
    ensures CryptoNamed(l) == if l in METHODS then METHODS[l] else Raw(l)
  {
  }

  /** A name in any letter case stands for its method, any other text for itself in lower case. */
  lemma ParseCryptoExactly(s: string, lower: string)
    requires Text.IsCaseOf(s, lower) && Text.IsLower(lower)
    ensures ParseCrypto(s) == if lower in METHODS then METHODS[lower] else Raw(lower)
  {
    Text.LowerOfCase(s, lower);
    assert ParseCrypto(s) == CryptoNamed(lower);
    NamedExactly(lower);
  }

  // ---------- transports ----------

  function OnlyWebsocket(path: string, host: Option<string>): Transport {
    Transport(Some(Websocket(path, host, map[])), None, None)
  }

  function OnlyGrpc(serviceName: string): Transport {
    Transport(None, Some(Grpc(serviceName)), None)
  }

  function OnlyHttpUpgrade(path: string, host: Option<string>): Transport {
    Transport(None, None, Some(HttpUpgrade(path, host)))
  }

  /** The transport that trojan and vless read from `type`, `path` and `host`. */
  function ReadTransport(net: string, path: string, host: Option<string>): Option<Transport> {
    if net == "ws" || net == "websocket" then Some(OnlyWebsocket(path, host))
    else if net == "grpc" then Some(OnlyGrpc(Text.TrimStartMatches(path, '/')))
    else if net == "httpupgrade" then Some(OnlyHttpUpgrade(path, host))
    else None
  }

  datatype TransportText = TransportText(net: string, host: string, path: string)

  /** What the printers write for a transport; `upgrade` is the word for an HTTP upgrade. */
  function ShowTransport(t: Option<Transport>, upgrade: string): TransportText {
    if t.Some? && t.value.websocket.Some? then
      TransportText("ws", t.value.websocket.value.host.GetOr(""), t.value.websocket.value.path)
    else if t.Some? && t.value.grpc.Some? then
      TransportText("grpc", "", "/" + t.value.grpc.value.serviceName)
    else if t.Some? && t.value.httpUpgrade.Some? then
      TransportText(upgrade, t.value.httpUpgrade.value.host.GetOr(""), t.value.httpUpgrade.value.path)
    else TransportText("tcp", "", "")
  }

  /** An empty text is not printed. */
  function NonEmpty(s: string): Option<string> {
    if s == "" then None else Some(s)
  }

  /** The normal form of a transport: one kind only, no headers, no empty host, no leading slash in a service
      name. */
  function NormalTransport(t: Option<Transport>): Option<Transport> {
    if t.Some? && t.value.websocket.Some? then
      var ws := t.value.websocket.value;
      Some(OnlyWebsocket(ws.path, NonEmpty(ws.host.GetOr(""))))
    else if t.Some? && t.value.grpc.Some? then
      Some(OnlyGrpc(Text.TrimStartMatches(t.value.grpc.value.serviceName, '/')))
    else if t.Some? && t.value.httpUpgrade.Some? then
      var h := t.value.httpUpgrade.value;
      Some(OnlyHttpUpgrade(h.path, NonEmpty(h.host.GetOr(""))))
    else None
  }

  /** The host that is printed for a transport. */
  function TransportHost(t: Option<Transport>): Option<string> {
    NonEmpty(ShowTransport(t, "").host)
  }

  /** What a transport that was read looks like. */
  predicate IsReadTransport(t: Option<Transport>) {
    match t
    case None => true
    case Some(Transport(Some(ws), None, None)) => ws.headers == map[]
    case Some(Transport(None, Some(g), None)) => g.serviceName == "" || g.serviceName[0] != '/'
    case Some(Transport(None, None, Some(_))) => true
    case _ => false
  }

  /** Only an empty host is lost when a transport that was read is printed and read again. */
  function WithoutEmptyHost(t: Option<Transport>): Option<Transport>
    requires IsReadTransport(t)
  {
    match t
    case Some(Transport(Some(ws), None, None)) =>
      Some(OnlyWebsocket(ws.path, if ws.host == Some("") then None else ws.host))
    case Some(Transport(None, None, Some(h))) =>
      Some(OnlyHttpUpgrade(h.path, if h.host == Some("") then None else h.host))
    case _ => t
  }

  lemma NormalOfReadTransport(t: Option<Transport>)
    requires IsReadTransport(t)
    ensures NormalTransport(t) == WithoutEmptyHost(t)
  {
  }

  lemma NormalTransportTwice(t: Option<Transport>)
    ensures IsReadTransport(NormalTransport(t))
    ensures NormalTransport(NormalTransport(t)) == NormalTransport(t)
    ensures TransportHost(NormalTransport(t)) == TransportHost(t)
  {
  }

  /** A transport that was read and its normal form are printed alike. */
  lemma NormalTransportPrints(t: Option<Transport>, upgrade: string)
    requires IsReadTransport(t)
    ensures ShowTransport(NormalTransport(t), upgrade) == ShowTransport(t, upgrade)
  {
  }

  lemma ReadTransportShape(net: string, path: string, host: Option<string>)
    ensures IsReadTransport(ReadTransport(net, path, host))
  {
  }

  /** A printed transport is read back in normal form. */
  lemma TransportRoundTrip(t: Option<Transport>)
    ensures var w := ShowTransport(t, "httpupgrade");
            ReadTransport(w.net, w.path, NonEmpty(w.host)) == NormalTransport(t)
  {
    if t.Some? && t.value.websocket.None? && t.value.grpc.Some? {
      var name := t.value.grpc.value.serviceName;
      assert ("/" + name)[1..] == name;
    }
  }
}
