/** What ShadowsocksR links say (crates/proxy-core/src/protocols/ssr.rs): any protocol, any obfuscation, more fields
    than six, any query. */
module SsrLinks {
  import opened Wrappers
  import opened Model
  import opened Query
  import opened Uri
  import Base64
  import Ssr
  import Text
  import Utf8

  // ---------- where the fields end ----------

  /** What the reader returns for the fields in `main` and the query behind them, separator included. */
  function ReadFields(decoded: string, main: string, query: string): Outcome<ProxyNode> {
    Ssr.NodeOfParts(decoded, Text.Split(main, ':'), query)
  }

  lemma FirstSeparator(main: string, query: string)
    requires Ssr.NoSeparator(main)
    ensures Ssr.Separator(main + "/?" + query) == Some(|main|)
  {
    var s := main + "/?" + query;
    assert s[|main|..|main| + 2] == "/?";
    assert Text.At(s, "/?", |main|);
    forall j: nat | j < |main|
      ensures !Text.At(s, "/?", j)
    {
      assert s[j] == main[j] && s[j + 1] == (main + "/")[j + 1];
      assert s[j..j + 2] == [s[j], s[j + 1]];
    }
  }

  /** The fields end at the first `/?`. One slash in front of it is lost with it, even if it is the last character of
      the password's base64. */
  lemma SlashedQuery(main: string, query: string)
    requires Ssr.NoSeparator(main) && main != ""
    ensures var decoded := main + "/?" + query;
            Ssr.SsrDecoded(decoded) ==
            ReadFields(decoded, if main[|main| - 1] == '/' then main[..|main| - 1] else main, "/?" + query)
  {
    var decoded := main + "/?" + query;
    FirstSeparator(main, query);
    assert decoded[|main| - 1] == main[|main| - 1];
    assert decoded[..|main|] == main && decoded[|main|..] == "/?" + query;
    assert decoded[..|main| - 1] == main[..|main| - 1];
  }

  lemma NoPair(s: string)
    requires Ssr.NoSeparator(s)
    ensures Text.FindText(s, "/?") == None
  {
    forall j: nat
      ensures !Text.At(s, "/?", j)
    {
      if j + 2 <= |s| {
        assert s[j..j + 2] == [s[j], s[j + 1]];
      }
    }
  }

  /** Without any `/?` they end at the first `?`. */
  lemma PlainQuery(main: string, query: string)
    requires '?' !in main && main != "" && Ssr.NoSeparator(main + "?" + query)
    ensures var decoded := main + "?" + query; Ssr.SsrDecoded(decoded) == ReadFields(decoded, main, "?" + query)
  {
    var decoded := main + "?" + query;
    NoPair(decoded);
    Text.FindAt(main, '?', query);
    assert decoded == main + ['?'] + query;
    assert decoded[|main| - 1] != '/';
    assert decoded[|main|..] == "?" + query;
  }

  /** Without a question mark there is no query. */
  lemma NoQuery(main: string)
    requires '?' !in main
    ensures Ssr.SsrDecoded(main) == ReadFields(main, main, "")
  {
    NoPair(main);
  }

  // ---------- the fields ----------

  /** A piece of the query without the slashes and the question marks in front. */
  function Bare(piece: string): string {
    Text.TrimStartMatches(Text.TrimStartMatches(piece, '/'), '?')
  }

  function Bares(pieces: seq<string>): (r: seq<string>)
    ensures |r| == |pieces| && forall i :: 0 <= i < |r| ==> r[i] == Bare(pieces[i])
  {
    seq(|pieces|, i requires 0 <= i < |pieces| => Bare(pieces[i]))
  }

  /** The name that base64 stands for; the empty one when there is none, or when it cannot be decoded. */
  predicate NamedBy(code: Option<string>, name: string) {
    match code
    case None => name == ""
    case Some(c) => Base64.DecodeUrlString(c) == Ok(name) || (Base64.DecodeUrlString(c).Err? && name == "")
  }

  const REMARKS: set<string> := {"remarks"}

  /** The last `remarks` decides. */
  ghost predicate SaysName(pieces: seq<string>, name: string) {
    exists code :: SaysCode(Bares(pieces), REMARKS, code) && NamedBy(code, name)
  }

  function NameIn(code: Option<string>): Option<string> {
    match code case None => None case Some(c) => Some(Ssr.NameOf(c))
  }

  lemma RemarkOfCode(piece: string)
    ensures Ssr.Remark(piece) == NameIn(CodeOf(Bare(piece), REMARKS))
  {
  }

  lemma BaresStep(pieces: seq<string>)
    requires pieces != []
    ensures var n := |pieces| - 1;
            LastCode(Bares(pieces), REMARKS) ==
            OrElse(CodeOf(Bare(pieces[n]), REMARKS), LastCode(Bares(pieces[..n]), REMARKS))
  {
    var n := |pieces| - 1;
    assert Bares(pieces)[..n] == Bares(pieces[..n]);
  }

  lemma NameOfEither(a: Option<string>, b: Option<string>)
    ensures NameIn(OrElse(a, b)) == OrElse(NameIn(a), NameIn(b))
  {
  }

  lemma {:induction false} RemarksOfCode(pieces: seq<string>)
    ensures Ssr.Remarks(pieces) == NameIn(LastCode(Bares(pieces), REMARKS))
  {
    if pieces != [] {
      var init, last := pieces[..|pieces| - 1], pieces[|pieces| - 1];
      RemarksOfCode(init);
      RemarkOfCode(last);
      BaresStep(pieces);
      NameOfEither(CodeOf(Bare(last), REMARKS), LastCode(Bares(init), REMARKS));
    }
  }

  lemma NameIsSaid(pieces: seq<string>)
    ensures SaysName(pieces, Ssr.Remarks(pieces).GetOr(""))
  {
    var code := LastCode(Bares(pieces), REMARKS);
    RemarksOfCode(pieces);
    RemarksIsKey();
    LastCodeExactly(Bares(pieces), REMARKS, code);
    NameInCode(code);
  }

  lemma RemarksIsKey()
    ensures AreKeys(REMARKS)
  {
  }

  lemma NameInCode(code: Option<string>)
    ensures NamedBy(code, NameIn(code).GetOr(""))
  {
  }

  /** The method in any letter case. */
  predicate IsMethod(crypto: Crypto, method_: string) {
    var lower := Text.ToLower(method_);
    crypto == if lower in METHODS then METHODS[lower] else Raw(lower)
  }

  /** What the fields and the pieces say: an error of the password's base64, or a node. */
  ghost predicate IsSsrOf(r: Outcome<ProxyNode>, server: string, port: Port, method_: string,
                          secret: Result<string, ParseError>, pieces: seq<string>) {
    match secret
    case Err(e) => r == Failed(e)
    case Ok(password) =>
      && r.Done? && r.value.crypto.Some?
      && r.value == ProxyNode(r.value.name, Protocol.Ssr, server, port, r.value.crypto, Some(password),
                              None, None, None, None)
      && IsMethod(r.value.crypto.value, method_) && SaysName(pieces, r.value.name)
  }

  /** The fields, separated by colons: server, port, protocol, method, obfuscation, password; more of them are not
      looked at. The port is looked at before the password. */
  lemma FieldsRead(decoded: string, parts: seq<string>, pieces: seq<string>)
    requires parts != [] && Text.Free(parts, ':') && pieces != [] && Text.Free(pieces, '&')
    ensures var r := ReadFields(decoded, Text.Join(parts, ":"), Text.Join(pieces, "&"));
            && (|parts| < 6 ==> r == Failed(InvalidUri(decoded)))
            && (|parts| >= 6 ==>
                  && ((forall p :: !IsPortText(parts[1], p)) ==> r == Failed(InvalidPort))
                  && (forall p :: IsPortText(parts[1], p) ==> 
                        IsSsrOf(r, parts[0], p, parts[3], Base64.DecodeUrlString(parts[5]), pieces)))
  {
    Text.SplitOfJoin(parts, ':');
    Text.SplitOfJoin(pieces, '&');
    PortDecides(decoded, parts, Text.Join(pieces, "&"), pieces);
  }

  lemma PortDecides(decoded: string, parts: seq<string>, query: string, pieces: seq<string>)
    requires Text.Split(query, '&') == pieces
    ensures var r := Ssr.NodeOfParts(decoded, parts, query);
            && (|parts| < 6 ==> r == Failed(InvalidUri(decoded)))
            && (|parts| >= 6 ==>
                  && ((forall p :: !IsPortText(parts[1], p)) ==> r == Failed(InvalidPort))
                  && (forall p :: IsPortText(parts[1], p) ==>
                        IsSsrOf(r, parts[0], p, parts[3], Base64.DecodeUrlString(parts[5]), pieces)))
  {
    if |parts| >= 6 {
      forall p: Port | IsPortText(parts[1], p)
        ensures ParsePort(parts[1]) == Some(p)
      {
        ParsePortExactly(parts[1], p);
      }
      if ParsePort(parts[1]).Some? {
        ParsePortExactly(parts[1], ParsePort(parts[1]).value);
        PartsRead(decoded, parts, query, pieces);
      }
    }
  }

  lemma PartsRead(decoded: string, parts: seq<string>, query: string, pieces: seq<string>)
    requires |parts| >= 6 && ParsePort(parts[1]).Some? && Text.Split(query, '&') == pieces
    ensures IsSsrOf(Ssr.NodeOfParts(decoded, parts, query), parts[0], ParsePort(parts[1]).value, parts[3],
                    Base64.DecodeUrlString(parts[5]), pieces)
  {
    var name := Ssr.Remarks(pieces).GetOr("");
    NameIsSaid(pieces);
    NodeIsWithSecret(decoded, parts, query);
    SecretRead(name, parts[0], ParsePort(parts[1]).value, parts[3], Base64.DecodeUrlString(parts[5]), pieces);
  }

  lemma NodeIsWithSecret(decoded: string, parts: seq<string>, query: string)
    requires |parts| >= 6 && ParsePort(parts[1]).Some?
    ensures Ssr.NodeOfParts(decoded, parts, query) ==
            WithSecret(Ssr.Remarks(Text.Split(query, '&')).GetOr(""), parts[0], ParsePort(parts[1]).value, parts[3],
                       Base64.DecodeUrlString(parts[5]))
  {
  }

  function WithSecret(name: string, server: string, port: Port, method_: string, secret: Result<string, ParseError>):
    Outcome<ProxyNode>
  {
    match secret
    case Err(e) => Failed(e)
    case Ok(password) => Done(Ssr.Node(name, server, port, ParseCrypto(method_), password))
  }

  lemma SecretRead(name: string, server: string, port: Port, method_: string, secret: Result<string, ParseError>,
                   pieces: seq<string>)
    requires SaysName(pieces, name)
    ensures IsSsrOf(WithSecret(name, server, port, method_, secret), server, port, method_, secret, pieces)
  {
    MethodIsRead(method_);
  }

  lemma MethodIsRead(method_: string)
    ensures IsMethod(ParseCrypto(method_), method_)
  {
    NamedExactly(Text.ToLower(method_));
  }

  /** The payload of a link is the base64 of the text. */
  lemma PayloadRead(payload: string)
    ensures Ssr.SsrNode("ssr://" + payload) ==
            match Base64.DecodeUrlString(payload)
            case Err(e) => Failed(e)
            case Ok(decoded) => Ssr.SsrDecoded(decoded)
  {
    Text.DropPrefix("ssr://", payload);
  }

  // ---------- a password that loses its end ----------

  lemma {:induction false} LastGroup(b: Utf8.Bytes)
    requires b != [] && |b| % 3 == 0 && b[|b| - 1] == 63
    ensures Base64.Sextets(b) == Base64.Sextets(b[..|b| - 1]) + [63]
  {
    if |b| == 3 {
      assert b[3..] == [] && Base64.Sextets(b[3..]) == [];
    } else {
      LastGroup(b[3..]);
      assert b[..|b| - 1][3..] == b[3..][..|b| - 4];
    }
  }

  lemma {:induction false} SymbolsWithLast(q: seq<Base64.Sextet>, n: Base64.Sextet)
    ensures Base64.Symbols(q + [n], Base64.Standard) ==
            Base64.Symbols(q, Base64.Standard) + [Base64.Symbol(n, Base64.Standard)]
  {
    if q == [] {
      assert (q + [n])[1..] == [];
    } else {
      assert (q + [n])[1..] == q[1..] + [n];
      SymbolsWithLast(q[1..], n);
    }
  }

  /** In the standard alphabet the encoding of a text of whole groups that ends with a question mark ends with a slash,
      and the rest of it encodes the text without the question mark. */
  lemma MarkIsSlash(text: string)
    requires |Utf8.Encode(text + "?")| % 3 == 0
    ensures Base64.Unpadded(Utf8.Encode(text + "?"), Base64.Standard) ==
            Base64.Unpadded(Utf8.Encode(text), Base64.Standard) + "/"
  {
    var b := Utf8.Encode(text + "?");
    Utf8.EncodeOfConcat(text, "?");
    Utf8.EncodeOfAscii("?");
    assert b == Utf8.Encode(text) + [63];
    assert b[..|b| - 1] == Utf8.Encode(text);
    LastGroup(b);
    SymbolsWithLast(Base64.Sextets(Utf8.Encode(text)), 63);
  }

  /** So the password of such a link is read without its question mark. The links that are printed here are in the other
      alphabet. */
  lemma MarkIsLost(fields: string, text: string, query: string)
    requires |Utf8.Encode(text + "?")| % 3 == 0
    requires Ssr.NoSeparator(fields + ":" + Base64.Unpadded(Utf8.Encode(text + "?"), Base64.Standard))
    ensures var decoded :=
              fields + ":" + Base64.Unpadded(Utf8.Encode(text + "?"), Base64.Standard) + "/?" + query;
            Ssr.SsrDecoded(decoded) ==
            ReadFields(decoded, fields + ":" + Base64.Unpadded(Utf8.Encode(text), Base64.Standard), "/?" + query)
  {
    var code := Base64.Unpadded(Utf8.Encode(text), Base64.Standard);
    MarkIsSlash(text);
    var main := fields + ":" + (code + "/");
    assert main == fields + ":" + code + "/";
    assert main[|main| - 1] == '/' && main[..|main| - 1] == fields + ":" + code;
    SlashedQuery(main, query);
  }
}
