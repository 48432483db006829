/** Lines that reach the failing cases of the readers: a server that starts with a bracket, and a payload that makes
    the ShadowsocksR reader panic. */
module Witnesses {
  import opened Wrappers
  import opened Library
  import opened Model
  import opened Parser
  import opened Uri
  import Base64
  import Percent
  import Republish
  import Ssr
  import Text
  import Trojan
  import Utf8

  // ---------- a bracketed server ----------

  const BRACKETED := "trojan://p@[[x]:1"

  lemma BracketedHost()
    ensures ParseHostPort("[[x]:1") == Ok(("[x", 1))
  {
    var s := "[[x]:1";
    Text.FindAt("[x", ']', ":1");
    assert s[1..] == "[x" + [']'] + ":1";
    assert DigitsValue("1") == Some(1);
    assert ":1"[1..] == "1";
  }

  lemma PlainParts(userinfo: string, hostpart: string)
    requires '#' !in userinfo && '#' !in hostpart && '@' !in hostpart && '?' !in hostpart
    ensures SplitUri(userinfo + "@" + hostpart) == UriParts(userinfo, hostpart, None, None)
  {
    SplitPrinted(userinfo, hostpart, None, None);
    var s := userinfo + "@" + hostpart;
    assert s + Tagged('?', None) + Tagged('#', None) == s;
  }

  lemma BracketedParts()
    ensures SplitUri("p@[[x]:1") == UriParts("p", "[[x]:1", None, None)
  {
    PlainParts("p", "[[x]:1");
    assert "p" + "@" + "[[x]:1" == "p@[[x]:1";
  }

  lemma PasswordIsRead()
    ensures Percent.PercentDecode("p") == Ok("p")
  {
    Percent.UnreservedStays("p");
    Percent.RoundTrip("p");
  }

  /** The trojan reader accepts a server that starts with a bracket, and its own printed line is then refused. */
  lemma BracketedServerIsRead()
    ensures Trojan.TrojanNode(BRACKETED).Done?
    ensures var n := Trojan.TrojanNode(BRACKETED).value;
            && n.server == "[x" && StartsBracket(n.server)
            && Trojan.TrojanLine(n).Ok? && Trojan.TrojanNode(Trojan.TrojanLine(n).value).Failed?
  {
    assert Trojan.SCHEME <= BRACKETED && BRACKETED[|Trojan.SCHEME|..] == "p@[[x]:1";
    BracketedParts();
    BracketedHost();
    PasswordIsRead();
    Trojan.ReadShape(BRACKETED);
    Trojan.PrintedReads(Trojan.TrojanNode(BRACKETED).value);
  }

  /** A line that is read to a node which does not survive being printed. */
  lemma BracketedLineDoesNotSurvive(lib: Library)
    ensures ParseLine(lib, BRACKETED).Done? && !Republish.Survives(lib, ParseLine(lib, BRACKETED).value)
  {
    BracketedServerIsRead();
    NothingToTrim(BRACKETED);
    ReadByPrefix(lib, Protocol.Trojan, BRACKETED);
  }

  // ---------- a trapped payload ----------

  const TRAPPED := "ssr://Lz8"

  lemma TrapPayload()
    ensures Ssr.Code("/?") == "Lz8"
  {
    var t := "/?";
    assert t[1..] == "?" && "?"[1..] == "";
    assert Utf8.Encode("?") == Utf8.CharBytes('?') + Utf8.Encode("") == [0x3F];
    assert Utf8.Encode(t) == Utf8.CharBytes('/') + Utf8.Encode("?") == [0x2F, 0x3F];
    assert Base64.Sextets([0x2F, 0x3F]) == [11, 51, 60];
    SymbolsOfThree(11, 51, 60);
  }

  lemma SymbolsOfThree(a: Base64.Sextet, b: Base64.Sextet, c: Base64.Sextet)
    ensures Base64.Symbols([a, b, c], Base64.UrlSafe) ==
            [Base64.Symbol(a, Base64.UrlSafe), Base64.Symbol(b, Base64.UrlSafe), Base64.Symbol(c, Base64.UrlSafe)]
  {
    var q := [a, b, c];
    assert q[1..] == [b, c] && [b, c][1..] == [c] && [c][1..] == [];
    assert Base64.Symbols([c], Base64.UrlSafe) == [Base64.Symbol(c, Base64.UrlSafe)];
    assert Base64.Symbols([b, c], Base64.UrlSafe) ==
           [Base64.Symbol(b, Base64.UrlSafe), Base64.Symbol(c, Base64.UrlSafe)];
  }

  lemma TrapIsSet()
    ensures IsTrap(TRAPPED)
  {
    TrapPayload();
    assert Ssr.SCHEME <= TRAPPED && TRAPPED[|Ssr.SCHEME|..] == "Lz8";
    Base64.TextRoundTrip("/?", Base64.UrlSafe);
  }

  lemma NothingToTrim(l: string)
    requires l != "" && !Text.IsWhitespace(l[0]) && !Text.IsWhitespace(l[|l| - 1])
    ensures Text.Trim(l) == l
  {
  }

  /** A nine-character line on which the line reader panics. */
  lemma TrappedLinePanics(lib: Library)
    ensures ParseLine(lib, TRAPPED) == Panic
  {
    TrapIsSet();
    NothingToTrim(TRAPPED);
    LinePanicsExactly(lib, TRAPPED);
  }
}
