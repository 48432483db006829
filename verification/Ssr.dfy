/** ShadowsocksR URIs (crates/proxy-core/src/protocols/ssr.rs): base64 around a text that holds base64 fields. */
module Ssr {
  import opened Wrappers
  import opened Model
  import opened Uri
  import Base64
  import Text
  import Utf8

  const SCHEME := "ssr://"

  // ---------- reading ----------

  /** Where the main part ends: at the first `/?`, or else at the first `?`. */
  function Separator(decoded: string): Option<nat> {
    OrElse(Text.FindText(decoded, "/?"), Text.Find(decoded, '?'))
  }

  /** The main part and the query. The code looks at the byte in front of the separator, so a separator at the
      very start leaves nothing to return: the code panics. */
  function SplitDecoded(decoded: string): Option<(string, string)> {
    match Separator(decoded)
    case None => Some((decoded, ""))
    case Some(i) =>
      if i == 0 then None
      else Some((decoded[..if decoded[i - 1] == '/' then i - 1 else i], decoded[i..]))
  }

  /** `decode_base64_url_string(v).unwrap_or_default()` */
  function NameOf(v: string): string {
    match Base64.DecodeUrlString(v) case Ok(name) => name case Err(_) => ""
  }

  /** A piece of the query without the marks in front of it, cut at the first `=`. */
  function KeyValue(piece: string): Option<(string, string)> {
    Text.SplitOnce(Text.TrimStartMatches(Text.TrimStartMatches(piece, '/'), '?'), '=')
  }

  /** What one piece of the query says about the name. */
  function Remark(piece: string): Option<string> {
    match KeyValue(piece)
    case None => None
    case Some((k, v)) => if k == "remarks" then Some(NameOf(v)) else None
  }

  /** The last piece that says something about the name decides. */
  function Remarks(pieces: seq<string>): Option<string> {
    if pieces == [] then None
    else OrElse(Remark(pieces[|pieces| - 1]), Remarks(pieces[..|pieces| - 1]))
  }

  function Node(name: string, server: string, port: Port, crypto: Crypto, password: string): ProxyNode {
    NewNode(name, Ssr, server, port).(crypto := Some(crypto), password := Some(password))
  }

  /** The fields of the main part; `decoded` is only reported. */
  function NodeOfParts(decoded: string, parts: seq<string>, query: string): Outcome<ProxyNode> {
    if |parts| < 6 then Failed(InvalidUri(decoded))
    else match ParsePort(parts[1])
         case None => Failed(InvalidPort)
         case Some(port) =>
           match Base64.DecodeUrlString(parts[5])
           case Err(e) => Failed(e)
           case Ok(password) =>
             Done(Node(Remarks(Text.Split(query, '&')).GetOr(""), parts[0], port, ParseCrypto(parts[3]), password))
  }

  /** What `parse_ssr_decoded` means. */
  function SsrDecoded(decoded: string): Outcome<ProxyNode> {
    match SplitDecoded(decoded)
    case None => Panic
    case Some((main, query)) => NodeOfParts(decoded, Text.Split(main, ':'), query)
  }

  /** `parse_ssr` */
  function SsrNode(uri: string): Outcome<ProxyNode> {
    if !(SCHEME <= uri) then Failed(UnsupportedProtocol)
    else match Base64.DecodeUrlString(uri[|SCHEME|..])
         case Err(e) => Failed(e)
         case Ok(decoded) => SsrDecoded(decoded)
  }

  lemma RemarksStep(pieces: seq<string>, i: nat)
    requires i < |pieces|
    ensures Remarks(pieces[..i + 1]) == OrElse(Remark(pieces[i]), Remarks(pieces[..i]))
  {
    assert pieces[..i + 1][..i] == pieces[..i];
  }

  /** The loop over the query. */
  method WalkRemarks(pieces: seq<string>) returns (name: string)
    ensures name == Remarks(pieces).GetOr("")
  {
    name := "";
    for i := 0 to |pieces|
      invariant name == Remarks(pieces[..i]).GetOr("")
    {
      RemarksStep(pieces, i);
      var kv := KeyValue(pieces[i]);
      if kv.Some? {
        var (k, v) := kv.value;
        if k == "remarks" {
          name := NameOf(v);
        }
      }
    }
    assert pieces[..|pieces|] == pieces;
  }

  /** The separator search. */
  method CutDecoded(decoded: string) returns (r: Option<(string, string)>)
    ensures r == SplitDecoded(decoded)
  {
    var sep := Text.FindText(decoded, "/?");
    if sep.None? {
      sep := Text.Find(decoded, '?');
    }
    if sep.None? {
      return Some((decoded, ""));
    }
    var i := sep.value;
    if i == 0 {
      return None;
    }
    var end := i;
    if decoded[i - 1] == '/' {
      end := i - 1;
    }
    return Some((decoded[..end], decoded[i..]));
  }

  /** `parse_ssr_decoded` */
  method ParseSsrDecoded(decoded: string) returns (r: Outcome<ProxyNode>)
    ensures r == SsrDecoded(decoded)
  {
    var cut := CutDecoded(decoded);
    if cut.None? {
      return Panic;
    }
    var (main, query) := cut.value;
    var parts := Text.Split(main, ':');
    if |parts| < 6 {
      return Failed(InvalidUri(decoded));
    }
    var port := ParsePort(parts[1]);
    if port.None? {
      return Failed(InvalidPort);
    }
    var password := Base64.DecodeUrlString(parts[5]);
    if password.Err? {
      return Failed(password.error);
    }
    var name := WalkRemarks(Text.Split(query, '&'));
    return Done(NewNode(name, Ssr, parts[0], port.value).(
                crypto := Some(ParseCrypto(parts[3])), password := Some(password.value)));
  }

  /** The reader panics exactly on payloads that decode to a text which starts with `/?`, or which starts with `?`
      and holds no `/?`. */
  lemma PanicsExactly(decoded: string)
    ensures SsrDecoded(decoded).Panic? <==>
            "/?" <= decoded || ("?" <= decoded && !Text.Contains(decoded, "/?"))
  {
    assert Text.At(decoded, "/?", 0) <==> "/?" <= decoded;
    if "?" <= decoded {
      assert decoded[0] == '?';
      assert Text.Find(decoded, '?') == Some(0);
    }
  }

  // ---------- printing ----------

  function Code(text: string): string {
    Base64.Unpadded(Utf8.Encode(text), Base64.UrlSafe)
  }

  const PROTOCOL := "auth_aes128_md5"

  function MainParts(server: string, port: Port, crypto: Crypto, password: string): seq<string> {
    [server, ShowNat(port), PROTOCOL, CryptoName(crypto), "plain", Code(password)]
  }

  /** The text inside the base64. */
  function Plain(main: string, name: string): string {
    main + ("/?" + ("remarks" + "=" + Code(name)))
  }

  function PlainOf(n: ProxyNode): string
    requires n.crypto.Some? && n.password.Some?
  {
    Plain(Text.Join(MainParts(n.server, n.port, n.crypto.value, n.password.value), ":"), n.name)
  }

  /** The line that a node is printed as. */
  function SsrLine(n: ProxyNode): Result<string, SerializeError> {
    if n.kind != Ssr then Err(UnsupportedKind(n.kind))
    else if n.crypto == None then Err(MissingPart("crypto"))
    else if n.password == None then Err(MissingPart("password"))
    else Ok(SCHEME + Code(PlainOf(n)))
  }

  /** `serialize_ssr` */
  method SerializeSsr(n: ProxyNode) returns (r: Result<string, SerializeError>)
    ensures r == SsrLine(n)
  {
    if n.kind != Ssr {
      return Err(UnsupportedKind(n.kind));
    }
    if n.crypto == None {
      return Err(MissingPart("crypto"));
    }
    if n.password == None {
      return Err(MissingPart("password"));
    }
    var main := Text.Join(MainParts(n.server, n.port, n.crypto.value, n.password.value), ":");
    var plain := main + ("/?" + ("remarks" + "=" + Code(n.name)));
    return Ok(SCHEME + Code(plain));
  }

  // ---------- the separator is the printed one ----------

  /** No `/?` in the text. */
  predicate NoSeparator(s: string) {
    forall i :: 0 <= i < |s| - 1 ==> !(s[i] == '/' && s[i + 1] == '?')
  }

  lemma ConcatFree(a: string, b: string)
    ensures NoSeparator(a + ":" + b) <==> NoSeparator(a) && NoSeparator(b)
  {
    var all := a + ":" + b;
    assert forall i :: 0 <= i < |a| ==> a[i] == all[i];
    assert forall i :: 0 <= i < |b| ==> b[i] == all[i + |a| + 1];
    if NoSeparator(a) && NoSeparator(b) {
      forall i | 0 <= i < |all| - 1
        ensures !(all[i] == '/' && all[i + 1] == '?')
      {
        assert i > |a| ==> all[i] == b[i - |a| - 1] && all[i + 1] == b[i - |a|];
      }
    }
  }

  ghost predicate AllNoSeparator(parts: seq<string>) {
    forall i :: 0 <= i < |parts| ==> NoSeparator(parts[i])
  }

  /** A text joined with colons has no `/?` exactly when no part has one. */
  lemma {:induction false} JoinedFree(parts: seq<string>)
    ensures AllNoSeparator(parts) <==> NoSeparator(Text.Join(parts, ":"))
  {
    if |parts| > 1 {
      JoinedFree(parts[1..]);
      ConcatFree(parts[0], Text.Join(parts[1..], ":"));
      assert parts == [parts[0]] + parts[1..];
      assert AllNoSeparator(parts) <==> NoSeparator(parts[0]) && AllNoSeparator(parts[1..]);
    }
  }

  /** The first `/?` of a printed text is the printed one. */
  lemma PrintedSeparator(main: string, name: string)
    requires NoSeparator(main) && main != "" && main[|main| - 1] != '/'
    ensures SplitDecoded(Plain(main, name)) == Some((main, "/?" + ("remarks" + "=" + Code(name))))
  {
    var s := Plain(main, name);
    assert s[|main|] == '/' && s[|main| + 1] == '?';
    assert s[|main|..|main| + 2] == "/?";
    assert Text.At(s, "/?", |main|);
    forall j: nat | j < |main|
      ensures !Text.At(s, "/?", j)
    {
      assert s[j] == main[j];
      assert j + 1 < |main| ==> s[j + 1] == main[j + 1];
      assert s[j..j + 2] == [s[j], s[j + 1]];
    }
    assert s[..|main|] == main;
    assert s[|main|..] == "/?" + ("remarks" + "=" + Code(name));
  }

  // ---------- round trip ----------

  /** What reading a printed node gives. */
  function Normal(n: ProxyNode): ProxyNode
    requires n.crypto.Some? && n.password.Some?
  {
    Node(n.name, n.server, n.port, n.crypto.value, n.password.value)
  }

  predicate Fits(n: ProxyNode) {
    n.crypto.Some? && n.password.Some? && Base64.FitsWhenEncoded(Utf8.Encode(PlainOf(n)))
  }

  /** A server that can stand in front of the first colon. */
  predicate IsSsrServer(server: string) {
    ':' !in server && NoSeparator(server)
  }

  predicate IsPrintableCrypto(c: Crypto) {
    IsCrypto(c) && ':' !in CryptoName(c) && NoSeparator(CryptoName(c))
  }

  lemma CodeText(text: string)
    ensures var c := Code(text); ':' !in c && '/' !in c && '?' !in c && '&' !in c && '=' !in c
    ensures NoSeparator(Code(text))
  {
  }

  lemma FixedParts(port: Port)
    ensures ':' !in PROTOCOL && NoSeparator(PROTOCOL)
    ensures ':' !in ShowNat(port) && NoSeparator(ShowNat(port))
    ensures ':' !in "plain" && NoSeparator("plain")
  {
    assert '/' !in ShowNat(port);
  }

  lemma MainPartsFree(server: string, port: Port, crypto: Crypto, password: string)
    requires IsSsrServer(server) && IsPrintableCrypto(crypto)
    ensures Text.Free(MainParts(server, port, crypto, password), ':')
    ensures AllNoSeparator(MainParts(server, port, crypto, password))
  {
    CodeText(password);
    FixedParts(port);
  }

  lemma {:induction false} JoinEnds(parts: seq<string>)
    requires |parts| > 1
    requires var last := parts[|parts| - 1]; last == "" || last[|last| - 1] != '/'
    ensures var s := Text.Join(parts, ":"); s != "" && s[|s| - 1] != '/'
  {
    if |parts| > 2 {
      JoinEnds(parts[1..]);
    } else {
      assert Text.Join(parts, ":") == parts[0] + ":" + parts[1];
    }
  }

  lemma StripMark(c: char, rest: string)
    requires rest != "" && rest[0] != c
    ensures Text.TrimStartMatches([c] + rest, c) == rest
  {
    assert ([c] + rest)[1..] == rest;
  }

  lemma StripMarks(kv: string)
    requires kv != "" && kv[0] != '?'
    ensures Text.TrimStartMatches(Text.TrimStartMatches("/?" + kv, '/'), '?') == kv
  {
    StripMark('?', kv);
    StripMark('/', ['?'] + kv);
    assert "/?" + kv == ['/'] + (['?'] + kv);
  }

  lemma SplitKey(k: string, v: string)
    requires '=' !in k
    ensures Text.SplitOnce(k + "=" + v, '=') == Some((k, v))
  {
    Text.FindAt(k, '=', v);
    assert k + "=" + v == k + ['='] + v;
  }

  lemma KeyValueOfMarked(k: string, v: string)
    requires k != "" && k[0] != '?' && '=' !in k
    ensures KeyValue("/?" + (k + "=" + v)) == Some((k, v))
  {
    StripMarks(k + "=" + v);
    SplitKey(k, v);
  }

  lemma KeyValueOfPrinted(c: string)
    ensures KeyValue("/?" + ("remarks" + "=" + c)) == Some(("remarks", c))
  {
    KeyValueOfMarked("remarks", c);
  }

  lemma SplitSingle(piece: string)
    requires '&' !in piece
    ensures Text.Split(piece, '&') == [piece]
  {
    assert Text.Find(piece, '&').None?;
  }

  lemma SinglePiece(piece: string)
    requires '&' !in piece
    ensures Remarks(Text.Split(piece, '&')) == Remark(piece)
  {
    SplitSingle(piece);
    var ps := [piece];
    assert ps[..0] == [];
  }

  lemma NameOfPrinted(name: string)
    requires Base64.FitsWhenEncoded(Utf8.Encode(name))
    ensures NameOf(Code(name)) == name
  {
    Base64.TextRoundTrip(name, Base64.UrlSafe);
  }

  lemma QueryText(c: string)
    requires '&' !in c
    ensures '&' !in "/?" + ("remarks" + "=" + c)
  {
  }

  lemma RemarksOfPrinted(name: string)
    requires Base64.FitsWhenEncoded(Utf8.Encode(name))
    ensures Remarks(Text.Split("/?" + ("remarks" + "=" + Code(name)), '&')).GetOr("") == name
  {
    CodeText(name);
    QueryText(Code(name));
    SinglePiece("/?" + ("remarks" + "=" + Code(name)));
    KeyValueOfPrinted(Code(name));
    NameOfPrinted(name);
  }

  // ---------- sizes ----------

  lemma CodeSize(text: string)
    ensures Utf8.Size(Code(text)) >= Utf8.Size(text)
  {
    Base64.SymbolText(Code(text), Base64.UrlSafe);
  }

  lemma {:induction false} PartSize(parts: seq<string>, i: nat)
    requires i < |parts|
    ensures Utf8.Size(parts[i]) <= Utf8.Size(Text.Join(parts, ":"))
  {
    if |parts| > 1 {
      var rest := Text.Join(parts[1..], ":");
      Utf8.EncodeOfConcat(parts[0] + ":", rest);
      Utf8.EncodeOfConcat(parts[0], ":");
      if i > 0 {
        PartSize(parts[1..], i - 1);
      }
    }
  }

  /** The bound on the outer base64 implies the bounds on the inner ones. */
  lemma InnerFits(main: string, name: string, parts: seq<string>, password: string)
    requires main == Text.Join(parts, ":") && |parts| == 6 && parts[5] == Code(password)
    requires Base64.FitsWhenEncoded(Utf8.Encode(Plain(main, name)))
    ensures Base64.FitsWhenEncoded(Utf8.Encode(password))
    ensures Base64.FitsWhenEncoded(Utf8.Encode(name))
  {
    PartSize(parts, 5);
    CodeSize(password);
    CodeSize(name);
    var mark := "remarks" + "=";
    assert "remarks" + "=" + Code(name) == mark + Code(name);
    Utf8.EncodeOfConcat(mark, Code(name));
    Utf8.EncodeOfConcat("/?", mark + Code(name));
    Utf8.EncodeOfConcat(main, "/?" + (mark + Code(name)));
  }

  // ---------- putting it together ----------

  lemma PartsOfPrinted(n: ProxyNode)
    requires n.crypto.Some? && n.password.Some? && IsSsrServer(n.server) && IsPrintableCrypto(n.crypto.value)
    ensures var parts := MainParts(n.server, n.port, n.crypto.value, n.password.value);
            && Text.Split(Text.Join(parts, ":"), ':') == parts
            && SplitDecoded(PlainOf(n)) == Some((Text.Join(parts, ":"), "/?" + ("remarks" + "=" + Code(n.name))))
  {
    var parts := MainParts(n.server, n.port, n.crypto.value, n.password.value);
    MainPartsFree(n.server, n.port, n.crypto.value, n.password.value);
    Text.SplitOfJoin(parts, ':');
    JoinedFree(parts);
    CodeText(n.password.value);
    assert parts[5] != "" ==> parts[5][|parts[5]| - 1] in parts[5];
    JoinEnds(parts);
    PrintedSeparator(Text.Join(parts, ":"), n.name);
  }

  lemma DecodedRoundTrip(n: ProxyNode)
    requires IsSsrServer(n.server) && Fits(n) && IsPrintableCrypto(n.crypto.value)
    ensures SsrDecoded(PlainOf(n)) == Done(Normal(n))
  {
    var parts := MainParts(n.server, n.port, n.crypto.value, n.password.value);
    PartsOfPrinted(n);
    InnerFits(Text.Join(parts, ":"), n.name, parts, n.password.value);
    RemarksOfPrinted(n.name);
    PortRoundTrip(n.port);
    Base64.TextRoundTrip(n.password.value, Base64.UrlSafe);
  }

  /** Reading a printed node gives the node, unless the printed text is too long for the base64 reader: then
      reading fails. */
  lemma PrintedReads(n: ProxyNode)
    requires SsrLine(n).Ok? && IsSsrServer(n.server) && IsPrintableCrypto(n.crypto.value)
    ensures SCHEME <= SsrLine(n).value
    ensures SsrNode(SsrLine(n).value) ==
            if Fits(n) then Done(Normal(n)) else Failed(InvalidBase64(Code(PlainOf(n))))
  {
    Base64.TextRoundTrip(PlainOf(n), Base64.UrlSafe);
    Text.DropPrefix(SCHEME, Code(PlainOf(n)));
    if Fits(n) {
      DecodedRoundTrip(n);
    }
  }

  // ---------- nodes that were read ----------

  /** What every node that was read from a ShadowsocksR URI looks like. */
  ghost predicate IsRead(n: ProxyNode) {
    && n.kind == Ssr && IsSsrServer(n.server)
    && n.crypto.Some? && IsPrintableCrypto(n.crypto.value) && n.password.Some?
    && n.uuid == None && n.alterId == None && n.tls == None && n.transport == None
  }

  lemma MainIsFree(decoded: string)
    requires SplitDecoded(decoded).Some?
    ensures NoSeparator(SplitDecoded(decoded).value.0)
  {
    var main := SplitDecoded(decoded).value.0;
    forall i | 0 <= i < |main| - 1
      ensures !(main[i] == '/' && main[i + 1] == '?')
    {
      assert decoded[i..i + 2] == [decoded[i], decoded[i + 1]];
      assert main[i] == decoded[i] && main[i + 1] == decoded[i + 1];
      assert Text.At(decoded, "/?", i) <==> main[i] == '/' && main[i + 1] == '?';
    }
  }

  lemma LowerIsFree(m: string)
    requires NoSeparator(m)
    ensures NoSeparator(Text.ToLower(m))
  {
    forall i | 0 <= i < |m| - 1
      ensures !(Text.ToLower(m)[i] == '/' && Text.ToLower(m)[i + 1] == '?')
    {
      assert !(m[i] == '/' && m[i + 1] == '?');
    }
  }

  lemma KnownIsFree(c: Crypto)
    requires !c.Raw?
    ensures NoSeparator(CryptoName(c))
  {
    assert '?' !in CryptoName(c);
  }

  lemma CryptoIsPrintable(m: string)
    requires ':' !in m && NoSeparator(m)
    ensures IsPrintableCrypto(ParseCrypto(m))
  {
    ParsedCrypto(m);
    CryptoNameChars(m, ':');
    var c := ParseCrypto(m);
    if c.Raw? {
      LowerIsFree(m);
    } else {
      KnownIsFree(c);
    }
  }

  lemma ReadShape(uri: string)
    requires SsrNode(uri).Done?
    ensures IsRead(SsrNode(uri).value)
  {
    var decoded := Base64.DecodeUrlString(uri[|SCHEME|..]).value;
    var (main, query) := SplitDecoded(decoded).value;
    var parts := Text.Split(main, ':');
    MainIsFree(decoded);
    JoinedFree(parts);
    CryptoIsPrintable(parts[3]);
  }

  /** For every node that can be printed: its line is read as its normal form if and only if neither its server nor
      the name of its method holds a colon or `/?`, the method is read again from its name, and the printed text fits
      the base64 reader. Where the parts of the line can be told apart, the error is stated. */
  lemma RoundTrip(n: ProxyNode)
    requires SsrLine(n).Ok?
    ensures SsrNode(SsrLine(n).value) == Done(Normal(n)) <==>
            IsSsrServer(n.server) && IsPrintableCrypto(n.crypto.value) && Fits(n)
    ensures IsSsrServer(n.server) && IsPrintableCrypto(n.crypto.value) ==>
              SsrNode(SsrLine(n).value) ==
              if Fits(n) then Done(Normal(n)) else Failed(InvalidBase64(Code(PlainOf(n))))
  {
    if IsSsrServer(n.server) && IsPrintableCrypto(n.crypto.value) {
      PrintedReads(n);
    }
    if SsrNode(SsrLine(n).value).Done? {
      ReadShape(SsrLine(n).value);
    }
  }

  lemma RoundTripOfRead(n: ProxyNode)
    requires IsRead(n)
    ensures SsrLine(n).Ok?
    ensures SsrNode(SsrLine(n).value) == if Fits(n) then Done(n) else Failed(InvalidBase64(Code(PlainOf(n))))
  {
    PrintedReads(n);
  }

  /** The printer loses nothing: a node that was read is read again from its printed line, exactly when the
      printed text fits the base64 reader. */
  lemma ReadRoundTrip(uri: string)
    requires SsrNode(uri).Done?
    ensures var n := SsrNode(uri).value;
            && SsrLine(n).Ok?
            && (SsrNode(SsrLine(n).value) == Done(n) <==> Fits(n))
  {
    ReadShape(uri);
    RoundTripOfRead(SsrNode(uri).value);
  }
}
