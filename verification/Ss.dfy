/** Shadowsocks URIs (crates/proxy-core/src/protocols/ss.rs). */
module Ss {
  import opened Wrappers
  import opened Model
  import opened Percent
  import opened Uri
  import Base64
  import Text
  import Utf8

  const SCHEME := "ss://"

  // ---------- reading ----------

  /** The methods that a plain `method:password` may start with. */
  predicate IsKnownMethod(method_: string) {
    Text.ToLower(method_) in {
      "aes-256-gcm", "aes-128-gcm", "chacha20-ietf-poly1305", "aes-128-cfb", "aes-192-cfb", "aes-256-cfb",
      "chacha20-ietf", "salsa20", "rc4-md5", "2022-blake3-aes-256-gcm", "2022-blake3-aes-128-gcm",
      "2022-blake3-chacha20-poly1305", "none", "plain"}
  }

  /** `base64(method:password)` */
  function ReadEncoded(userinfo: string): Result<(Crypto, string), ParseError> {
    match Base64.DecodeUrlString(userinfo)
    case Err(e) => Err(e)
    case Ok(decoded) =>
      match Text.SplitOnce(decoded, ':')
      case None => Err(InvalidUri(userinfo))
      case Some((m, password)) => Ok((ParseCrypto(m), password))
  }

  /** `parse_userinfo`: plain when it starts with a known method and a colon, base64 otherwise. */
  function ReadUserinfo(userinfo: string): Result<(Crypto, string), ParseError> {
    match Text.SplitOnce(userinfo, ':')
    case None => ReadEncoded(userinfo)
    case Some((m, rest)) =>
      if IsKnownMethod(m) then
        match PercentDecode(rest)
        case Err(e) => Err(e)
        case Ok(password) => Ok((ParseCrypto(m), password))
      else ReadEncoded(userinfo)
  }

  function Node(name: string, server: string, port: Port, crypto: Crypto, password: string): ProxyNode {
    NewNode(name, Ss, server, port).(crypto := Some(crypto), password := Some(password))
  }

  datatype SsParts = SsParts(userinfo: string, hostport: string, fragment: Option<string>)

  /** Fragment behind the first `#`, the query behind the first `?` dropped, then the authority cut at the last
      `@`, and slashes behind the port ignored. */
  function SplitSs(rest: string): SsParts {
    var (auth, fragment) := CutAt(rest, '#');
    var (userinfoAndHost, query) := CutAt(auth, '?');
    var (userinfo, hostport) := SplitAuthority(userinfoAndHost);
    SsParts(userinfo, Text.TrimEndMatches(hostport, '/'), fragment)
  }

  /** `parse_ss` */
  function SsNode(uri: string): Outcome<ProxyNode> {
    if !(SCHEME <= uri) then Failed(UnsupportedProtocol)
    else
      var p := SplitSs(uri[|SCHEME|..]);
      match ParseHostPort(p.hostport)
      case Err(e) => Failed(e)
      case Ok((server, port)) => NodeWithSecret(p.fragment.GetOr(""), server, port, ReadUserinfo(p.userinfo))
  }

  function NodeWithSecret(name: string, server: string, port: Port,
                          secret: Result<(Crypto, string), ParseError>): Outcome<ProxyNode> {
    match secret
    case Err(e) => Failed(e)
    case Ok((crypto, password)) => Done(Node(name, server, port, crypto, password))
  }

  // ---------- printing ----------

  /** The user information before it is encoded. */
  function Secret(crypto: Crypto, password: string): string {
    CryptoName(crypto) + ":" + password
  }

  function Userinfo(crypto: Crypto, password: string): string {
    Base64.Unpadded(Utf8.Encode(Secret(crypto, password)), Base64.Standard)
  }

  function LineText(userinfo: string, server: string, port: Port, name: string): string {
    SCHEME + (userinfo + "@" + ShowHostPort(server, port) + Tagged('#', NameTag(name)))
  }

  /** The line that a node is printed as. */
  function SsLine(n: ProxyNode): Result<string, SerializeError> {
    if n.kind != Ss then Err(UnsupportedKind(n.kind))
    else if n.crypto == None then Err(MissingPart("crypto"))
    else if n.password == None then Err(MissingPart("password"))
    else Ok(LineText(Userinfo(n.crypto.value, n.password.value), n.server, n.port, n.name))
  }

  /** `serialize_ss` */
  method SerializeSs(n: ProxyNode) returns (r: Result<string, SerializeError>)
    ensures r == SsLine(n)
  {
    if n.kind != Ss {
      return Err(UnsupportedKind(n.kind));
    }
    if n.crypto == None {
      return Err(MissingPart("crypto"));
    }
    if n.password == None {
      return Err(MissingPart("password"));
    }
    var userinfo := CryptoName(n.crypto.value) + ":" + n.password.value;
    var b64 := Base64.Unpadded(Utf8.Encode(userinfo), Base64.Standard);
    var out := b64 + "@" + ShowHostPort(n.server, n.port);
    ghost var authority := out;
    if n.name != "" {
      out := out + "#" + n.name;
    }
    assert out == authority + Tagged('#', NameTag(n.name));
    return Ok(SCHEME + out);
  }

  // ---------- round trip ----------

  /** What reading a printed node gives. */
  function Normal(n: ProxyNode): ProxyNode
    requires n.crypto.Some? && n.password.Some?
  {
    Node(n.name, n.server, n.port, n.crypto.value, n.password.value)
  }

  predicate Fits(n: ProxyNode) {
    n.crypto.Some? && n.password.Some? &&
    Base64.FitsWhenEncoded(Utf8.Encode(Secret(n.crypto.value, n.password.value)))
  }

  /** A method whose name can stand before the colon. */
  predicate IsPrintableCrypto(c: Crypto) {
    IsCrypto(c) && ':' !in CryptoName(c)
  }

  lemma UserinfoText(crypto: Crypto, password: string)
    ensures var u := Userinfo(crypto, password);
            ':' !in u && '#' !in u && '?' !in u && '@' !in u
  {
  }

  lemma UserinfoRoundTrip(crypto: Crypto, password: string)
    requires IsPrintableCrypto(crypto)
    ensures ReadUserinfo(Userinfo(crypto, password)) ==
            if Base64.FitsWhenEncoded(Utf8.Encode(Secret(crypto, password))) then Ok((crypto, password))
            else Err(InvalidBase64(Userinfo(crypto, password)))
  {
    var secret := Secret(crypto, password);
    UserinfoText(crypto, password);
    Base64.TextRoundTrip(secret, Base64.Standard);
    Text.FindAt(CryptoName(crypto), ':', password);
    assert secret == CryptoName(crypto) + [':'] + password;
  }

  lemma NoTrailingSlash(server: string, port: Port)
    ensures Text.TrimEndMatches(ShowHostPort(server, port), '/') == ShowHostPort(server, port)
  {
    var s := ShowHostPort(server, port);
    assert s[|s| - 1] in ShowNat(port);
  }

  lemma PartsOfText(userinfo: string, server: string, port: Port, fragment: Option<string>)
    requires '#' !in userinfo && '?' !in userinfo && IsServer(server)
    ensures SplitSs(userinfo + "@" + ShowHostPort(server, port) + Tagged('#', fragment)) ==
            SsParts(userinfo, ShowHostPort(server, port), fragment)
  {
    var host := ShowHostPort(server, port);
    var auth := userinfo + ['@'] + host;
    HostPortText(server, port);
    CutPrinted(auth, '#', fragment);
    CutPrinted(auth, '?', None);
    assert auth + Tagged('?', None) == auth;
    Text.FindLastAt(userinfo, '@', host);
    NoTrailingSlash(server, port);
  }

  lemma PartsOfLine(userinfo: string, server: string, port: Port, name: string)
    requires '#' !in userinfo && '?' !in userinfo && IsServer(server)
    ensures var line := LineText(userinfo, server, port, name);
            SCHEME <= line && SplitSs(line[|SCHEME|..]) == SsParts(userinfo, ShowHostPort(server, port), NameTag(name))
  {
    PartsOfText(userinfo, server, port, NameTag(name));
    Text.DropPrefix(SCHEME, userinfo + "@" + ShowHostPort(server, port) + Tagged('#', NameTag(name)));
  }

  lemma NodeOfLine(userinfo: string, server: string, port: Port, name: string)
    requires '#' !in userinfo && '?' !in userinfo && IsServer(server)
    ensures SsNode(LineText(userinfo, server, port, name)) ==
            if StartsBracket(server) then Failed(InvalidUri(ShowHostPort(server, port)))
            else NodeWithSecret(name, server, port, ReadUserinfo(userinfo))
  {
    PartsOfLine(userinfo, server, port, name);
    ServerReadsBack(server, port);
  }

  /** Reading a printed node gives the node, unless its server starts with a bracket or its user information is
      too long for the base64 reader: then reading fails. */
  lemma PrintedReads(n: ProxyNode)
    requires SsLine(n).Ok? && IsServer(n.server) && IsPrintableCrypto(n.crypto.value)
    ensures SCHEME <= SsLine(n).value
    ensures SsNode(SsLine(n).value) ==
            if StartsBracket(n.server) then Failed(InvalidUri(ShowHostPort(n.server, n.port)))
            else if !Fits(n) then Failed(InvalidBase64(Userinfo(n.crypto.value, n.password.value)))
            else Done(Normal(n))
  {
    var u := Userinfo(n.crypto.value, n.password.value);
    UserinfoText(n.crypto.value, n.password.value);
    NodeOfLine(u, n.server, n.port, n.name);
    UserinfoRoundTrip(n.crypto.value, n.password.value);
  }

  // ---------- nodes that were read ----------

  /** What every node that was read from a Shadowsocks URI looks like. */
  ghost predicate IsRead(n: ProxyNode) {
    && n.kind == Ss && IsServer(n.server)
    && n.crypto.Some? && IsPrintableCrypto(n.crypto.value) && n.password.Some?
    && n.uuid == None && n.alterId == None && n.tls == None && n.transport == None
  }

  lemma UserinfoShape(userinfo: string)
    requires ReadUserinfo(userinfo).Ok?
    ensures IsPrintableCrypto(ReadUserinfo(userinfo).value.0)
  {
    var decoded := Base64.DecodeUrlString(userinfo);
    var plain := Text.SplitOnce(userinfo, ':');
    if plain.Some? {
      ParsedCrypto(plain.value.0);
      CryptoNameChars(plain.value.0, ':');
    }
    if decoded.Ok? && Text.SplitOnce(decoded.value, ':').Some? {
      var m := Text.SplitOnce(decoded.value, ':').value.0;
      ParsedCrypto(m);
      CryptoNameChars(m, ':');
    }
  }

  lemma ServerShape(rest: string)
    requires ParseHostPort(SplitSs(rest).hostport).Ok?
    ensures IsServer(ParseHostPort(SplitSs(rest).hostport).value.0)
  {
    ServerOfHostPort(SplitSs(rest).hostport);
  }

  lemma ReadShape(uri: string)
    requires SsNode(uri).Done?
    ensures IsRead(SsNode(uri).value)
  {
    ServerShape(uri[|SCHEME|..]);
    UserinfoShape(SplitSs(uri[|SCHEME|..]).userinfo);
  }

  /** For every node that can be printed: its line is read as its normal form if and only if its server holds no
      delimiter of the URI and does not start with a bracket, its method is read again from its name, and its secret
      fits the base64 reader. Where the parts of the line can be told apart, the error is stated. */
  lemma RoundTrip(n: ProxyNode)
    requires SsLine(n).Ok?
    ensures SsNode(SsLine(n).value) == Done(Normal(n)) <==>
            IsServer(n.server) && !StartsBracket(n.server) && IsPrintableCrypto(n.crypto.value) && Fits(n)
    ensures IsServer(n.server) && IsPrintableCrypto(n.crypto.value) ==>
              SsNode(SsLine(n).value) ==
              if StartsBracket(n.server) then Failed(InvalidUri(ShowHostPort(n.server, n.port)))
              else if !Fits(n) then Failed(InvalidBase64(Userinfo(n.crypto.value, n.password.value)))
              else Done(Normal(n))
  {
    if IsServer(n.server) && IsPrintableCrypto(n.crypto.value) {
      PrintedReads(n);
    }
    if SsNode(SsLine(n).value).Done? {
      ReadShape(SsLine(n).value);
    }
  }

  /** The printer loses nothing: a node that was read is read again from its printed line, exactly when its server
      does not start with a bracket and its user information fits the base64 reader. */
  lemma ReadRoundTrip(uri: string)
    requires SsNode(uri).Done?
    ensures var n := SsNode(uri).value;
            && SsLine(n).Ok?
            && (SsNode(SsLine(n).value) == Done(n) <==> !StartsBracket(n.server) && Fits(n))
  {
    var n := SsNode(uri).value;
    ReadShape(uri);
    PrintedReads(n);
  }
}
