/** The parts of a node's URI: `split_authority` and `parse_host_port` of crates/proxy-core/src/uri.rs, decimal
    ports, and the prelude that trojan, vless and tuic share. */
module Uri {
  import opened Wrappers
  import Text

  /** `u16` */
  type Port = n: nat | n < 65536

  // ---------- decimal numbers ----------

  predicate IsDigit(c: char) {
    '0' <= c <= '9'
  }

  /** The number that a non-empty text of digits stands for. */
  function DigitsValue(s: string): (r: Option<nat>)
    ensures r.Some? ==> s != "" && forall c :: c in s ==> IsDigit(c)
  {
    if s == "" || !IsDigit(s[|s| - 1]) then None
    else
      var d := s[|s| - 1] as int - '0' as int;
      if |s| == 1 then Some(d)
      else match DigitsValue(s[..|s| - 1])
           case None => None
           case Some(n) => Some(n * 10 + d)
  }

  /** `s.parse::<u16>().ok()`: an optional plus sign, then digits, and no overflow. */
  function ParsePort(s: string): Option<Port> {
    var digits := if |s| > 1 && s[0] == '+' then s[1..] else s;
    match DigitsValue(digits)
    case None => None
    case Some(n) => if n < 65536 then Some(n) else None
  }

  /** `n.to_string()` */
  function ShowNat(n: nat): (s: string)
    ensures s != "" && forall c :: c in s ==> IsDigit(c)
  {
    var d := ('0' as int + n % 10) as char;
    if n < 10 then [d] else ShowNat(n / 10) + [d]
  }

  lemma {:induction false} DigitsOfShow(n: nat)
    ensures DigitsValue(ShowNat(n)) == Some(n)
  {
    var s := ShowNat(n);
    if n >= 10 {
      DigitsOfShow(n / 10);
      assert s[..|s| - 1] == ShowNat(n / 10);
    }
  }

  /** A printed port is read back. */
  lemma PortRoundTrip(p: Port)
    ensures ParsePort(ShowNat(p)) == Some(p)
  {
    DigitsOfShow(p);
    var s := ShowNat(p);
    assert s[0] in s;
  }

  // ---------- ports as they can be written ----------

  function Zeros(k: nat): string {
    seq(k, _ => '0')
  }

  lemma DigitsWithLast(s: string, c: char)
    requires s != "" && DigitsValue(s).Some? && IsDigit(c)
    ensures DigitsValue(s + [c]) == Some(DigitsValue(s).value * 10 + (c as int - '0' as int))
  {
    assert (s + [c])[..|s|] == s;
  }

  lemma {:induction false} ZerosAndDigit(k: nat, c: char)
    requires IsDigit(c)
    ensures DigitsValue(Zeros(k) + [c]) == Some(c as int - '0' as int)
  {
    if k == 0 {
      assert Zeros(0) + [c] == [c];
    } else {
      ZerosAndDigit(k - 1, '0');
      DigitsWithLast(Zeros(k - 1) + ['0'], c);
      assert Zeros(k) == Zeros(k - 1) + ['0'];
    }
  }

  lemma Behind(a: string, b: string, c: char)
    ensures a + (b + [c]) == (a + b) + [c]
  {
  }

  lemma {:induction false} DigitsOfZeros(k: nat, n: nat)
    ensures DigitsValue(Zeros(k) + ShowNat(n)) == Some(n)
  {
    var c := ('0' as int + n % 10) as char;
    if n < 10 {
      ZerosAndDigit(k, c);
    } else {
      var shown := ShowNat(n / 10);
      DigitsOfZeros(k, n / 10);
      DigitsWithLast(Zeros(k) + shown, c);
      Behind(Zeros(k), shown, c);
      assert ShowNat(n) == shown + [c];
    }
  }

  /** One more digit behind a number. */
  lemma ShowWithDigit(n: nat, c: char)
    requires IsDigit(c)
    ensures ShowNat(n * 10 + (c as int - '0' as int)) == (if n == 0 then "" else ShowNat(n)) + [c]
    ensures ShowNat(0) == "0"
  {
    var m := n * 10 + (c as int - '0' as int);
    assert m / 10 == n && m % 10 == c as int - '0' as int;
  }

  lemma {:induction false} ZerosOfDigits(s: string) returns (k: nat)
    requires DigitsValue(s).Some?
    ensures s == Zeros(k) + ShowNat(DigitsValue(s).value)
  {
    var init, c := s[..|s| - 1], s[|s| - 1];
    assert s == init + [c];
    if |s| == 1 {
      k := 0;
      ShowWithDigit(0, c);
    } else {
      var n := DigitsValue(init).value;
      k := ZerosOfDigits(init);
      ShowWithDigit(n, c);
      if n == 0 {
        assert Zeros(k + 1) == Zeros(k) + "0";
        k := k + 1;
      }
    }
  }

  /** Zeros and the decimal digits of a port, perhaps behind a plus sign. */
  ghost predicate IsPortText(s: string, p: Port) {
    exists k: nat :: s == Zeros(k) + ShowNat(p) || s == "+" + (Zeros(k) + ShowNat(p))
  }

  /** A text is read as a port exactly when it is one of the ways to write it. */
  lemma ParsePortExactly(s: string, p: Port)
    ensures ParsePort(s) == Some(p) <==> IsPortText(s, p)
  {
    if ParsePort(s) == Some(p) {
      var k := ZerosOfDigits(if |s| > 1 && s[0] == '+' then s[1..] else s);
      assert s == Zeros(k) + ShowNat(p) || s == "+" + (Zeros(k) + ShowNat(p));
    }
    if IsPortText(s, p) {
      var k: nat :| s == Zeros(k) + ShowNat(p) || s == "+" + (Zeros(k) + ShowNat(p));
      var digits := Zeros(k) + ShowNat(p);
      DigitsOfZeros(k, p);
      assert digits[0] in digits;
      assert s == digits || s[1..] == digits;
    }
  }

  // ---------- authority, host and port ----------

  /** `split_authority`: user information and host, cut at the last `@`. */
  function SplitAuthority(auth: string): (string, string) {
    match Text.FindLast(auth, '@')
    case None => ("", auth)
    case Some(i) => (auth[..i], auth[i + 1..])
  }

  function PortOf(host: string, port: string): Result<(string, Port), ParseError> {
    match ParsePort(port)
    case None => Err(InvalidPort)
    case Some(p) => Ok((host, p))
  }

  predicate StartsBracket(s: string) {
    s != "" && s[0] == '['
  }

  /** `parse_host_port` */
  function ParseHostPort(s: string): Result<(string, Port), ParseError> {
    if StartsBracket(s) then
      var rest := s[1..];
      match Text.Find(rest, ']')
      case None => Err(InvalidUri(s))
      case Some(close) =>
        var after := rest[close + 1..];
        if after != "" && after[0] == ':' then PortOf(rest[..close], after[1..]) else Err(InvalidUri(s))
    else
      match Text.FindLast(s, ':')
      case None => Err(InvalidUri(s))
      case Some(i) => PortOf(s[..i], s[i + 1..])
  }

  /** `format!("{}:{}", server, port)` */
  function ShowHostPort(server: string, port: Port): string {
    server + ":" + ShowNat(port)
  }

  /** What every server read from a URI looks like: no delimiter of the URI, and if it starts with a bracket it
      came out of a bracketed host and holds no closing one. */
  predicate IsServer(server: string) {
    && '#' !in server && '@' !in server && '?' !in server
    && (StartsBracket(server) ==> ']' !in server)
  }

  lemma ServerOfHostPort(s: string)
    requires '#' !in s && '@' !in s && '?' !in s
    requires ParseHostPort(s).Ok?
    ensures IsServer(ParseHostPort(s).value.0)
  {
  }

  /** What a printed host and port are read as, for every server. A leading bracket is taken for the start of a
      bracketed host: without a closing one, or with other text behind it, reading fails; with the closing one at
      the end, another server is read. */
  function ReadBack(server: string, port: Port): Result<(string, Port), ParseError> {
    if !StartsBracket(server) then Ok((server, port))
    else match Text.Find(server[1..], ']')
         case None => Err(InvalidUri(ShowHostPort(server, port)))
         case Some(close) =>
           var tail := server[close + 2..];
           if tail == "" then Ok((server[1..close + 1], port))
           else if tail[0] == ':' then Err(InvalidPort)
           else Err(InvalidUri(ShowHostPort(server, port)))
  }

  lemma PlainReadsBack(server: string, port: Port)
    requires !StartsBracket(server)
    ensures ParseHostPort(ShowHostPort(server, port)) == Ok((server, port))
  {
    var digits, s := ShowNat(port), ShowHostPort(server, port);
    PortRoundTrip(port);
    Text.FindLastAt(server, ':', digits);
    assert s == server + [':'] + digits;
    assert s[0] != '[';
  }

  lemma {:induction false} DigitsOnly(s: string, i: nat)
    requires i < |s| && !IsDigit(s[i])
    ensures DigitsValue(s) == None
  {
    assert s[i] in s;
  }

  lemma PortWithColon(tail: string, digits: string)
    ensures ParsePort(tail + (":" + digits)) == None
  {
    var s := tail + (":" + digits);
    assert s[|tail|] == ':';
    DigitsOnly(s, |tail|);
    if |s| > 1 && s[0] == '+' {
      DigitsOnly(s[1..], |tail| - 1);
    }
  }

  /** A closing bracket inside the server is the first one in the printed text. */
  lemma FindBracket(server: string, port: Port)
    requires StartsBracket(server)
    ensures Text.Find(ShowHostPort(server, port)[1..], ']') == Text.Find(server[1..], ']')
  {
    var rest, tail := server[1..], ":" + ShowNat(port);
    assert ShowHostPort(server, port)[1..] == rest + tail;
    assert ']' !in tail;
    match Text.Find(rest, ']') {
      case None =>
      case Some(i) =>
        Text.FindAt(rest[..i], ']', rest[i + 1..] + tail);
        assert rest + tail == rest[..i] + [']'] + (rest[i + 1..] + tail);
    }
  }

  /** What stands behind a bracketed host. */
  function BehindBracket(s: string, host: string, after: string): Result<(string, Port), ParseError> {
    if after != "" && after[0] == ':' then PortOf(host, after[1..]) else Err(InvalidUri(s))
  }

  lemma PrintedBehindBracket(s: string, host: string, tail: string, port: Port)
    ensures BehindBracket(s, host, tail + (":" + ShowNat(port))) ==
            if tail == "" then Ok((host, port)) else if tail[0] == ':' then Err(InvalidPort) else Err(InvalidUri(s))
  {
    var colon := ":" + ShowNat(port);
    var after := tail + colon;
    if tail == "" {
      assert after == colon && colon[1..] == ShowNat(port);
      PortRoundTrip(port);
    } else {
      assert after[0] == tail[0] && after[1..] == tail[1..] + colon;
      PortWithColon(tail[1..], ShowNat(port));
    }
  }

  lemma BracketReadsBack(server: string, port: Port)
    requires StartsBracket(server) && Text.Find(server[1..], ']').Some?
    ensures ParseHostPort(ShowHostPort(server, port)) == ReadBack(server, port)
  {
    var s, close := ShowHostPort(server, port), Text.Find(server[1..], ']').value;
    var host, tail := server[1..close + 1], server[close + 2..];
    FindBracket(server, port);
    assert s[1..][..close] == host;
    assert s[1..][close + 1..] == tail + (":" + ShowNat(port));
    PrintedBehindBracket(s, host, tail, port);
    assert ParseHostPort(s) == BehindBracket(s, host, tail + (":" + ShowNat(port)));
  }

  lemma ReadBackOfPrinted(server: string, port: Port)
    ensures ParseHostPort(ShowHostPort(server, port)) == ReadBack(server, port)
  {
    if !StartsBracket(server) {
      PlainReadsBack(server, port);
    } else if Text.Find(server[1..], ']').Some? {
      BracketReadsBack(server, port);
    } else {
      FindBracket(server, port);
    }
  }

  /** For every server: a printed host and port are read back if and only if the server does not start with a
      bracket. Otherwise reading fails, except that a bracketed server comes back, silently, without its
      brackets. */
  lemma HostPortRoundTrip(server: string, port: Port)
    ensures ParseHostPort(ShowHostPort(server, port)) == ReadBack(server, port)
    ensures ParseHostPort(ShowHostPort(server, port)) == Ok((server, port)) <==> !StartsBracket(server)
    ensures ParseHostPort(ShowHostPort(server, port)).Ok? <==>
            (StartsBracket(server) ==> ']' !in server[..|server| - 1] && server[|server| - 1] == ']')
  {
    ReadBackOfPrinted(server, port);
    if StartsBracket(server) && Text.Find(server[1..], ']').Some? {
      var close := Text.Find(server[1..], ']').value;
      assert forall i :: 0 <= i < close ==> server[1..][i] == server[i + 1] && server[1..][i] in server[1..][..close];
    }
  }

  /** A bracketed server is read as another server, the one inside the brackets. */
  lemma BracketedServerChanges(host: string, port: Port)
    requires ']' !in host
    ensures ParseHostPort(ShowHostPort("[" + host + "]", port)) == Ok((host, port))
  {
    var server := "[" + host + "]";
    assert server[1..] == host + [']'] + "";
    Text.FindAt(host, ']', "");
    ReadBackOfPrinted(server, port);
  }

  /** The servers that come out of a URI: reading back fails with a leading bracket. */
  lemma ServerReadsBack(server: string, port: Port)
    requires IsServer(server)
    ensures ParseHostPort(ShowHostPort(server, port)) ==
            if StartsBracket(server) then Err(InvalidUri(ShowHostPort(server, port))) else Ok((server, port))
  {
    ReadBackOfPrinted(server, port);
  }

  lemma HostPortText(server: string, port: Port)
    requires IsServer(server)
    ensures var s := ShowHostPort(server, port); '#' !in s && '@' !in s && '?' !in s
  {
  }

  // ---------- host and port as they can be written ----------

  /** A server, in brackets or not, a colon, and the text of a port. */
  predicate IsHostAndPort(s: string, server: string, port: string) {
    || (!StartsBracket(server) && s == server + ":" + port && ':' !in port)
    || (']' !in server && s == "[" + server + "]" + (":" + port))
  }

  /** The text of a host and of a port. */
  ghost predicate IsHostPort(hostport: string, server: string, port: Port) {
    exists text :: IsHostAndPort(hostport, server, text) && IsPortText(text, port)
  }

  lemma ReadHostAndPort(s: string, server: string, port: string)
    requires IsHostAndPort(s, server, port)
    ensures ParseHostPort(s) == PortOf(server, port)
  {
    if !StartsBracket(server) && s == server + ":" + port && ':' !in port {
      Text.FindLastAt(server, ':', port);
      assert s == server + [':'] + port;
      assert s[0] != '[';
    } else {
      Text.FindAt(server, ']', ":" + port);
      assert s[1..] == server + [']'] + (":" + port);
      assert (":" + port)[1..] == port;
    }
  }

  lemma BracketedText(host: string, port: string, rest: string)
    requires |rest| >= |host| + 2 && rest[..|host|] == host && rest[|host|] == ']' && rest[|host| + 1] == ':'
    requires rest[|host| + 2..] == port
    ensures "[" + rest == "[" + host + "]" + (":" + port)
  {
    var s, t := "[" + rest, "[" + host + "]" + (":" + port);
    assert forall i :: 0 <= i < |s| ==> s[i] == t[i];
  }

  lemma HasBracketedHost(s: string) returns (server: string, port: string)
    requires StartsBracket(s) && (ParseHostPort(s).Ok? || ParseHostPort(s) == Err(InvalidPort))
    ensures ']' !in server && s == "[" + server + "]" + (":" + port)
  {
    var rest := s[1..];
    var close := Text.Find(rest, ']').value;
    server, port := rest[..close], rest[close + 2..];
    BracketedText(server, port, rest);
    assert s == "[" + rest;
  }

  lemma HasPlainHost(s: string) returns (server: string, port: string)
    requires !StartsBracket(s) && (ParseHostPort(s).Ok? || ParseHostPort(s) == Err(InvalidPort))
    ensures !StartsBracket(server) && s == server + ":" + port && ':' !in port
  {
    var i := Text.FindLast(s, ':').value;
    server, port := s[..i], s[i + 1..];
    assert s == server + [s[i]] + port;
  }

  lemma HasHostAndPort(s: string) returns (server: string, port: string)
    requires ParseHostPort(s).Ok? || ParseHostPort(s) == Err(InvalidPort)
    ensures IsHostAndPort(s, server, port)
  {
    if StartsBracket(s) {
      server, port := HasBracketedHost(s);
    } else {
      server, port := HasPlainHost(s);
    }
  }

  /** A text is read as a host and port exactly when it is written as one; without the colon of a port the text is
      reported, and with anything but a port behind the colon the port is. */
  lemma HostPortExactly(s: string, server: string, p: Port)
    ensures ParseHostPort(s) == Ok((server, p)) <==> IsHostPort(s, server, p)
    ensures ParseHostPort(s).Err? ==>
              ParseHostPort(s).error ==
              if exists host, port :: IsHostAndPort(s, host, port) then InvalidPort else InvalidUri(s)
  {
    forall host, port | IsHostAndPort(s, host, port)
      ensures ParseHostPort(s) == PortOf(host, port)
    {
      ReadHostAndPort(s, host, port);
    }
    if ParseHostPort(s).Ok? || ParseHostPort(s) == Err(InvalidPort) {
      var host, port := HasHostAndPort(s);
      ReadHostAndPort(s, host, port);
      ParsePortExactly(port, p);
    }
    if IsHostPort(s, server, p) {
      var port :| IsHostAndPort(s, server, port) && IsPortText(port, p);
      ParsePortExactly(port, p);
    }
  }

  // ---------- the prelude of trojan, vless and tuic ----------

  datatype UriParts = UriParts(userinfo: string, hostpart: string, query: Option<string>, fragment: Option<string>)

  /** A text cut at the first `c`. */
  function CutAt(s: string, c: char): (r: (string, Option<string>))
    ensures c !in r.0
    ensures s == r.0 + Tagged(c, r.1)
  {
    match Text.Find(s, c)
    case None => (s, None)
    case Some(i) => (s[..i], Some(s[i + 1..]))
  }

  /** An optional text behind its delimiter. */
  function Tagged(c: char, s: Option<string>): string {
    match s case None => "" case Some(t) => [c] + t
  }

  /** Fragment behind the first `#`, authority before the last `@` of what is left, query behind the first `?`
      of the host. */
  function SplitUri(rest: string): UriParts {
    var (authAndQuery, fragment) := CutAt(rest, '#');
    var (userinfo, hostQuery) := SplitAuthority(authAndQuery);
    var (hostpart, query) := CutAt(hostQuery, '?');
    UriParts(userinfo, hostpart, query, fragment)
  }

  /** No part holds a delimiter that would have ended it. */
  lemma PartsAreFree(rest: string)
    ensures var p := SplitUri(rest);
            && '#' !in p.userinfo
            && '#' !in p.hostpart && '@' !in p.hostpart && '?' !in p.hostpart
  {
  }

  lemma CutPrinted(a: string, c: char, b: Option<string>)
    requires c !in a
    ensures CutAt(a + Tagged(c, b), c) == (a, b)
  {
    match b {
      case None => assert a + Tagged(c, b) == a;
      case Some(t) =>
        Text.FindAt(a, c, t);
        assert a + Tagged(c, b) == a + [c] + t;
    }
  }

  /** A name is printed behind `#` unless it is empty. */
  function NameTag(name: string): Option<string> {
    if name == "" then None else Some(name)
  }

  /** Text pushed part by part is the text of its parts. */
  lemma PushedText(scheme: string, authority: string, query: string, name: string)
    ensures var out := scheme + (authority + "?") + query;
            (if name == "" then out else out + "#" + name) ==
            scheme + (authority + Tagged('?', Some(query)) + Tagged('#', NameTag(name)))
  {
  }

  /** Printing delimiter-free parts and cutting the text again gives the parts. */
  lemma SplitPrinted(userinfo: string, hostpart: string, query: Option<string>, fragment: Option<string>)
    requires '#' !in userinfo
    requires '#' !in hostpart && '@' !in hostpart && '?' !in hostpart
    requires query.Some? ==> '#' !in query.value && '@' !in query.value
    ensures SplitUri(userinfo + "@" + hostpart + Tagged('?', query) + Tagged('#', fragment)) ==
            UriParts(userinfo, hostpart, query, fragment)
  {
    var hostQuery := hostpart + Tagged('?', query);
    var auth := userinfo + ['@'] + hostQuery;
    assert userinfo + "@" + hostpart + Tagged('?', query) == auth;
    CutPrinted(auth, '#', fragment);
    Text.FindLastAt(userinfo, '@', hostQuery);
    CutPrinted(hostpart, '?', query);
  }
}
