/** Base64 (RFC 4648, sections 4 and 5, without the trailing-bits freedom of section 3.5) and the lenient reader
    `decode_base64_url` of crates/proxy-core/src/uri.rs. */
module Base64 {
  import opened Wrappers
  import opened Utf8
  import Text

  type Sextet = x: int | 0 <= x < 64

  datatype Alphabet = Standard | UrlSafe

  // ---------- bits ----------

  /** The six-bit groups of a byte string, the last one filled with zero bits. */
  function Sextets(b: Bytes): (q: seq<Sextet>)
    ensures |q| == (4 * |b| + 2) / 3
  {
    if b == [] then []
    else
      var b0 := b[0] as int;
      if |b| == 1 then [b0 / 4, b0 % 4 * 16]
      else
        var b1 := b[1] as int;
        if |b| == 2 then [b0 / 4, b0 % 4 * 16 + b1 / 16, b1 % 16 * 4]
        else
          var b2 := b[2] as int;
          [b0 / 4, b0 % 4 * 16 + b1 / 16, b1 % 16 * 4 + b2 / 64, b2 % 64] + Sextets(b[3..])
  }

  /** The three bytes that four groups hold. */
  function Bytes3(q0: Sextet, q1: Sextet, q2: Sextet, q3: Sextet): (r: Bytes)
    ensures |r| == 3
  {
    var n0: int, n1: int, n2: int, n3: int := q0, q1, q2, q3;
    [(n0 * 4 + n1 / 16) as byte, (n1 % 16 * 16 + n2 / 4) as byte, (n2 % 4 * 64 + n3) as byte]
  }

  /** The bytes that six-bit groups stand for; groups that no byte string has are refused. */
  function FromSextets(q: seq<Sextet>): Option<Bytes> {
    if q == [] then Some([])
    else if |q| == 1 then None
    else if |q| == 2 then
      if q[1] % 16 == 0 then Some(Bytes3(q[0], q[1], 0, 0)[..1]) else None
    else if |q| == 3 then
      if q[2] % 4 == 0 then Some(Bytes3(q[0], q[1], q[2], 0)[..2]) else None
    else match FromSextets(q[4..])
         case None => None
         case Some(rest) => Some(Bytes3(q[0], q[1], q[2], q[3]) + rest)
  }

  lemma {:induction false} FromSextetsOfSextets(b: Bytes)
    ensures FromSextets(Sextets(b)) == Some(b)
  {
    var q := Sextets(b);
    if |b| == 1 {
      assert Bytes3(q[0], q[1], 0, 0)[..1] == b;
    } else if |b| == 2 {
      assert Bytes3(q[0], q[1], q[2], 0)[..2] == b;
    } else if |b| > 2 {
      assert q[4..] == Sextets(b[3..]);
      FromSextetsOfSextets(b[3..]);
      assert Bytes3(q[0], q[1], q[2], q[3]) == b[..3];
      assert b == b[..3] + b[3..];
    }
  }

  lemma Bits(q0: Sextet, q1: Sextet, q2: Sextet, q3: Sextet)
    ensures var b := Bytes3(q0, q1, q2, q3);
            && b[0] as int / 4 == q0 && b[0] as int % 4 == q1 / 16
            && b[1] as int / 16 == q1 % 16 && b[1] as int % 16 == q2 / 4
            && b[2] as int / 64 == q2 % 4 && b[2] as int % 64 == q3
  {
  }

  lemma SextetsOfBytes3(q0: Sextet, q1: Sextet, q2: Sextet, q3: Sextet, rest: Bytes)
    ensures Sextets(Bytes3(q0, q1, q2, q3) + rest) == [q0, q1, q2, q3] + Sextets(rest)
  {
    var b := Bytes3(q0, q1, q2, q3) + rest;
    Bits(q0, q1, q2, q3);
    assert b[..3] == Bytes3(q0, q1, q2, q3) && b[3..] == rest;
  }

  lemma {:induction false} SextetsOfFromSextets(q: seq<Sextet>)
    requires FromSextets(q).Some?
    ensures Sextets(FromSextets(q).value) == q
  {
    if |q| == 2 {
      assert FromSextets(q).value == [Bytes3(q[0], q[1], 0, 0)[0]];
      assert q == [q[0], q[1]];
    } else if |q| == 3 {
      var b := Bytes3(q[0], q[1], q[2], 0);
      assert FromSextets(q).value == [b[0], b[1]];
      assert q == [q[0], q[1], q[2]];
    } else if |q| > 3 {
      SextetsOfFromSextets(q[4..]);
      SextetsOfBytes3(q[0], q[1], q[2], q[3], FromSextets(q[4..]).value);
      assert q == [q[0], q[1], q[2], q[3]] + q[4..];
    }
  }

  // ---------- symbols ----------

  function Symbol(n: Sextet, a: Alphabet): char {
    if n < 26 then ('A' as int + n) as char
    else if n < 52 then ('a' as int + n - 26) as char
    else if n < 62 then ('0' as int + n - 52) as char
    else if n == 62 then (if a == Standard then '+' else '-')
    else (if a == Standard then '/' else '_')
  }

  /** The characters an encoder with this alphabet can print. */
  predicate IsSymbol(c: char, a: Alphabet) {
    || 'A' <= c <= 'Z' || 'a' <= c <= 'z' || '0' <= c <= '9'
    || (a == Standard && (c == '+' || c == '/'))
    || (a == UrlSafe && (c == '-' || c == '_'))
  }

  function Symbols(q: seq<Sextet>, a: Alphabet): (s: string)
    ensures |s| == |q|
    ensures forall c :: c in s ==> IsSymbol(c, a)
  {
    if q == [] then [] else [Symbol(q[0], a)] + Symbols(q[1..], a)
  }

  /** The reader accepts both alphabets, mixed. */
  function Value(c: char): Option<Sextet> {
    if 'A' <= c <= 'Z' then Some(c as int - 'A' as int)
    else if 'a' <= c <= 'z' then Some(c as int - 'a' as int + 26)
    else if '0' <= c <= '9' then Some(c as int - '0' as int + 52)
    else if c == '+' || c == '-' then Some(62)
    else if c == '/' || c == '_' then Some(63)
    else None
  }

  function Values(s: string): Option<seq<Sextet>> {
    if s == [] then Some([])
    else match (Value(s[0]), Values(s[1..]))
         case (Some(n), Some(rest)) => Some([n] + rest)
         case _ => None
  }

  /** `-` and `_` written as `+` and `/`. */
  function ToStandard(s: string): (r: string)
    ensures |r| == |s|
  {
    seq(|s|, i requires 0 <= i < |s| => if s[i] == '-' then '+' else if s[i] == '_' then '/' else s[i])
  }

  lemma {:induction false} ValuesOfSymbols(q: seq<Sextet>, a: Alphabet)
    ensures Values(Symbols(q, a)) == Some(q)
  {
    if q != [] {
      ValuesOfSymbols(q[1..], a);
      assert q == [q[0]] + q[1..];
    }
  }

  lemma {:induction false} SymbolsOfValues(s: string)
    requires Values(s).Some?
    ensures Symbols(Values(s).value, Standard) == ToStandard(s)
  {
    if s != [] {
      SymbolsOfValues(s[1..]);
      assert ToStandard(s) == ToStandard([s[0]]) + ToStandard(s[1..]);
    }
  }

  lemma {:induction false} ValuesOfToStandard(s: string)
    ensures Values(ToStandard(s)) == Values(s)
  {
    if s != [] {
      assert ToStandard(s)[1..] == ToStandard(s[1..]);
      ValuesOfToStandard(s[1..]);
    }
  }

  // ---------- encoders ----------

  /** `STANDARD_NO_PAD.encode` and `URL_SAFE_NO_PAD.encode` */
  function Unpadded(b: Bytes, a: Alphabet): (s: string)
    ensures |s| == (4 * |b| + 2) / 3
    ensures forall c :: c in s ==> IsSymbol(c, a)
  {
    Symbols(Sextets(b), a)
  }

  lemma GroupsOfThree(k: nat, r: nat)
    requires r < 3
    ensures (4 * (3 * k + r) + 2) / 3 == 4 * k + (if r == 0 then 0 else r + 1)
    ensures (3 * k + r + 2) / 3 * 4 == 4 * k + (if r == 0 then 0 else 4)
  {
  }

  function Padding(n: nat): (s: string)
    ensures forall c :: c in s ==> c == '='
    ensures (4 * n + 2) / 3 + |s| == (n + 2) / 3 * 4
  {
    GroupsOfThree(n / 3, n % 3);
    if n % 3 == 1 then "==" else if n % 3 == 2 then "=" else ""
  }

  /** `STANDARD.encode` */
  function Padded(b: Bytes): (s: string)
    ensures |s| == (|b| + 2) / 3 * 4
    ensures forall c :: c in s ==> IsSymbol(c, Standard) || c == '='
  {
    Unpadded(b, Standard) + Padding(|b|)
  }

  // ---------- the lenient reader ----------

  const MAX_BASE64_LEN: nat := 4 * 1024 * 1024

  /** The part of a text that the reader looks at. */
  function Body(s: string): string {
    Text.TrimEndMatches(Text.Trim(s), '=')
  }

  /** What `decode_base64_url` means: within the cap, the trimmed text without its trailing `=` is read as
      symbols of either alphabet. */
  function DecodeUrl(s: string): Result<Bytes, ParseError> {
    if Size(s) > MAX_BASE64_LEN then Err(InvalidBase64(s))
    else match DecodeBody(Body(s))
         case None => Err(InvalidBase64(s))
         case Some(b) => Ok(b)
  }

  function DecodeBody(body: string): Option<Bytes> {
    match Values(body)
    case None => None
    case Some(q) => FromSextets(q)
  }

  /** `decode_base64_url_string` */
  function DecodeUrlString(s: string): Result<string, ParseError> {
    match DecodeUrl(s)
    case Err(e) => Err(e)
    case Ok(b) =>
      match Decode(b)
      case None => Err(InvalidBase64(s))
      case Some(t) => Ok(t)
  }

  lemma DecodeBodyOfUnpadded(b: Bytes, a: Alphabet)
    ensures DecodeBody(Unpadded(b, a)) == Some(b)
  {
    ValuesOfSymbols(Sextets(b), a);
    FromSextetsOfSextets(b);
  }

  /** What was read is the canonical unpadded encoding, and nothing else is read. */
  lemma DecodeBodyCanonical(body: string, b: Bytes)
    ensures DecodeBody(body) == Some(b) <==> ToStandard(body) == Unpadded(b, Standard)
  {
    if DecodeBody(body) == Some(b) {
      SextetsOfFromSextets(Values(body).value);
      SymbolsOfValues(body);
    }
    if ToStandard(body) == Unpadded(b, Standard) {
      ValuesOfToStandard(body);
      DecodeBodyOfUnpadded(b, Standard);
    }
  }

  /** The reader against the standard: a text decodes to `b` exactly when it fits the cap and, trimmed, without
      trailing `=` and in the standard alphabet, is the canonical unpadded encoding of `b`. */
  lemma DecodeUrlCanonical(s: string, b: Bytes)
    ensures DecodeUrl(s) == Ok(b) <==>
            && Size(s) <= MAX_BASE64_LEN
            && ToStandard(Body(s)) == Unpadded(b, Standard)
  {
    DecodeBodyCanonical(Body(s), b);
  }

  // ---------- extra padding ----------

  /** The bytes that a text decodes to, if any. */
  function Decoded(s: string): Option<Bytes> {
    match DecodeUrl(s) case Ok(b) => Some(b) case Err(_) => None
  }

  /** At least one `=` and nothing else. */
  predicate IsPad(pad: string) {
    pad != "" && forall i :: 0 <= i < |pad| ==> pad[i] == '='
  }

  predicate EndsInSpace(s: string) {
    s != "" && Text.IsWhitespace(s[|s| - 1])
  }

  lemma {:induction false} TrimEndShape(s: string)
    ensures EndsInSpace(s) || Text.TrimEnd(s) == s
    ensures |Text.TrimEnd(s)| <= |s|
  {
    if EndsInSpace(s) {
      TrimEndShape(s[..|s| - 1]);
    }
  }

  /** White space in front is trimmed alike with and without the padding. */
  lemma {:induction false} TrimStartOfPadded(s: string, pad: string)
    requires IsPad(pad)
    ensures Text.TrimStart(s + pad) == Text.TrimStart(s) + pad
    decreases |s|
  {
    var all := s + pad;
    if s == "" {
      assert all == pad && pad[0] == '=' && !Text.IsWhitespace('=');
      assert Text.TrimStart(pad) == pad && Text.TrimStart(s) == "";
      assert Text.TrimStart(s) + pad == pad;
    } else {
      assert all[0] == s[0] && all[1..] == s[1..] + pad;
      TrimStartOfPadded(s[1..], pad);
    }
  }

  lemma {:induction false} StripPad(x: string, pad: string)
    requires forall i :: 0 <= i < |pad| ==> pad[i] == '='
    ensures Text.TrimEndMatches(x + pad, '=') == Text.TrimEndMatches(x, '=')
    decreases |pad|
  {
    var all := x + pad;
    if pad == "" {
      assert all == x;
    } else {
      assert all[|all| - 1] == '=' && all[..|all| - 1] == x + pad[..|pad| - 1];
      StripPad(x, pad[..|pad| - 1]);
    }
  }

  /** Behind padding nothing is trimmed: what the reader looks at is the text up to its last character. */
  lemma BodyOfPadded(s: string, pad: string)
    requires IsPad(pad)
    ensures Body(s + pad) == Text.TrimEndMatches(Text.TrimStart(s), '=')
  {
    var start := Text.TrimStart(s);
    TrimStartOfPadded(s, pad);
    var all := start + pad;
    assert all[|all| - 1] == '=';
    TrimEndShape(all);
    StripPad(start, pad);
  }

  lemma {:induction false} TrimStartEnd(s: string)
    ensures Text.TrimStart(s) != "" ==> EndsInSpace(Text.TrimStart(s)) == EndsInSpace(s)
  {
    if s != "" && Text.IsWhitespace(s[0]) {
      TrimStartEnd(s[1..]);
    }
  }

  lemma {:induction false} SpaceIsNoSymbol(s: string, i: nat)
    requires i < |s| && Text.IsWhitespace(s[i])
    ensures Values(s) == None
  {
    if i > 0 {
      SpaceIsNoSymbol(s[1..], i - 1);
    }
  }

  /** White space that the padding keeps from being trimmed makes the text undecodable. */
  lemma PaddedSpaceIsRefused(s: string, pad: string)
    requires IsPad(pad) && EndsInSpace(s) && Text.TrimStart(s) != ""
    ensures Decoded(s + pad) == None
  {
    var start := Text.TrimStart(s);
    BodyOfPadded(s, pad);
    TrimStartEnd(s);
    assert Text.TrimEndMatches(start, '=') == start;
    SpaceIsNoSymbol(start, |start| - 1);
  }

  lemma {:induction false} NothingToTrim(s: string)
    requires Text.TrimStart(s) == ""
    ensures Text.Trim(s) == ""
  {
  }

  lemma PaddedBodyIsSame(s: string, pad: string)
    requires IsPad(pad) && (!EndsInSpace(s) || Text.TrimStart(s) == "")
    ensures Body(s + pad) == Body(s)
  {
    BodyOfPadded(s, pad);
    if Text.TrimStart(s) != "" {
      TrimStartEnd(s);
      TrimEndShape(Text.TrimStart(s));
    }
  }

  /** Within the cap, extra `=` at the end leaves the result as it was exactly when the text does not end in white
      space, or is nothing but white space, or did not decode anyway: trimming comes before the `=` are stripped. */
  lemma ExtraPadding(s: string, pad: string)
    requires IsPad(pad) && Size(s + pad) <= MAX_BASE64_LEN
    ensures Decoded(s + pad) == Decoded(s) <==> !EndsInSpace(s) || Text.TrimStart(s) == "" || Decoded(s) == None
  {
    EncodeOfConcat(s, pad);
    if EndsInSpace(s) && Text.TrimStart(s) != "" {
      PaddedSpaceIsRefused(s, pad);
    } else {
      PaddedBodyIsSame(s, pad);
    }
  }

  /** The case is real: `YQ` and a space decodes to the letter `a`, and with `=` behind the space it is refused. */
  lemma SpaceBeforePadding()
    ensures Decoded("YQ ") == Some([0x61])
    ensures Decoded("YQ =") == None
  {
    var s := "YQ ";
    SmallText(s);
    assert Text.TrimStart(s) == s && s[..2] == "YQ";
    assert Text.TrimEnd(s) == Text.TrimEnd("YQ") == "YQ";
    assert Body(s) == "YQ";
    YqIsA();
    assert s + "=" == "YQ =";
    PaddedSpaceIsRefused(s, "=");
  }

  lemma ValuesOfTwo(c: char, d: char)
    requires Value(c).Some? && Value(d).Some?
    ensures Values([c, d]) == Some([Value(c).value, Value(d).value])
  {
    var s := [c, d];
    assert s[1..] == [d] && [d][1..] == [];
    assert Values([]) == Some([]);
    assert Values([d]).value == [Value(d).value];
    assert Values(s).value == [Value(c).value, Value(d).value];
  }

  lemma YqIsA()
    ensures DecodeBody("YQ") == Some([0x61])
  {
    ValuesOfTwo('Y', 'Q');
    assert "YQ" == ['Y', 'Q'];
    assert Bytes3(24, 16, 0, 0)[..1] == [0x61];
  }

  lemma SmallText(s: string)
    requires IsAscii(s) && |s| < 100
    ensures Size(s) <= MAX_BASE64_LEN
  {
    EncodeOfAscii(s);
  }

  lemma {:induction false} StripPadding(s: string, pad: string, a: Alphabet)
    requires forall c :: c in s ==> IsSymbol(c, a)
    requires forall c :: c in pad ==> c == '='
    ensures Text.TrimEndMatches(s + pad, '=') == s
    decreases |pad|
  {
    var t := s + pad;
    if pad == [] {
      assert t == s;
      assert s != [] ==> s[|s| - 1] in s;
    } else {
      var init := pad[..|pad| - 1];
      assert pad[|pad| - 1] in pad;
      assert t[..|t| - 1] == s + init;
      assert forall c :: c in init ==> c in pad;
      StripPadding(s, init, a);
    }
  }

  /** A text of symbols and `=` signs has one byte a character and nothing to trim. */
  lemma SymbolText(t: string, a: Alphabet)
    requires forall c :: c in t ==> IsSymbol(c, a) || c == '='
    ensures Text.Trim(t) == t
    ensures Size(t) == |t|
  {
    assert forall c :: c in t ==> c < '\U{0080}' && !Text.IsWhitespace(c);
    assert t != [] ==> t[0] in t && t[|t| - 1] in t;
    EncodeOfAscii(t);
  }

  predicate FitsWhenEncoded(b: Bytes) {
    |b| <= MAX_BASE64_LEN / 4 * 3
  }

  lemma Reads(s: string, body: string, b: Bytes)
    requires Body(s) == body && DecodeBody(body) == Some(b)
    ensures DecodeUrl(s) == if Size(s) <= MAX_BASE64_LEN then Ok(b) else Err(InvalidBase64(s))
  {
  }

  lemma UnpaddedReads(b: Bytes, a: Alphabet)
    ensures DecodeUrl(Unpadded(b, a)) == if FitsWhenEncoded(b) then Ok(b) else Err(InvalidBase64(Unpadded(b, a)))
  {
    var s := Unpadded(b, a);
    SymbolText(s, a);
    StripPadding(s, "", a);
    assert s + "" == s;
    DecodeBodyOfUnpadded(b, a);
    Reads(s, s, b);
  }

  lemma PaddedBody(b: Bytes)
    ensures Body(Padded(b)) == Unpadded(b, Standard)
    ensures Size(Padded(b)) == (|b| + 2) / 3 * 4
  {
    SymbolText(Padded(b), Standard);
    StripPadding(Unpadded(b, Standard), Padding(|b|), Standard);
  }

  lemma PaddedSize(b: Bytes)
    ensures Size(Padded(b)) <= MAX_BASE64_LEN <==> FitsWhenEncoded(b)
  {
    PaddedBody(b);
    GroupsFit(|b|);
  }

  lemma GroupsFit(n: nat)
    ensures (n + 2) / 3 * 4 <= 4194304 <==> n <= 3145728
  {
  }

  lemma PaddedReads(b: Bytes)
    ensures DecodeUrl(Padded(b)) == if FitsWhenEncoded(b) then Ok(b) else Err(InvalidBase64(Padded(b)))
  {
    PaddedBody(b);
    PaddedSize(b);
    DecodeBodyOfUnpadded(b, Standard);
    Reads(Padded(b), Unpadded(b, Standard), b);
  }

  /** Each of the three encoders is undone by the reader, exactly up to 3 MiB of content. */
  lemma RoundTrip(b: Bytes)
    ensures DecodeUrl(Padded(b)) == Ok(b) <==> FitsWhenEncoded(b)
    ensures DecodeUrl(Unpadded(b, Standard)) == Ok(b) <==> FitsWhenEncoded(b)
    ensures DecodeUrl(Unpadded(b, UrlSafe)) == Ok(b) <==> FitsWhenEncoded(b)
  {
    PaddedReads(b);
    UnpaddedReads(b, Standard);
    UnpaddedReads(b, UrlSafe);
  }

  /** The same for texts: the bytes of a text come back as the text. */
  lemma TextRoundTrip(t: string, a: Alphabet)
    ensures DecodeUrlString(Unpadded(Encode(t), a)) ==
            if FitsWhenEncoded(Encode(t)) then Ok(t) else Err(InvalidBase64(Unpadded(Encode(t), a)))
    ensures DecodeUrlString(Padded(Encode(t))) ==
            if FitsWhenEncoded(Encode(t)) then Ok(t) else Err(InvalidBase64(Padded(Encode(t))))
  {
    UnpaddedReads(Encode(t), a);
    PaddedReads(Encode(t));
    DecodeOfEncode(t);
  }

  // ---------- every way to write ----------

  /** White space, symbols of either alphabet, any number of `=`, white space. */
  predicate IsCodeOf(s: string, before: string, body: string, pad: string, after: string, b: Bytes) {
    && s == before + (body + pad) + after
    && Text.IsBlank(before) && Text.IsBlank(after) && (forall i :: 0 <= i < |pad| ==> pad[i] == '=')
    && ToStandard(body) == Unpadded(b, Standard)
  }

  lemma SymbolIsNoSpace(c: char)
    requires c == '=' || Value(c).Some?
    ensures c as int !in Text.WHITE_SPACE
  {
  }

  lemma BodyOfSymbols(body: string, pad: string)
    requires Values(body).Some? && forall i :: 0 <= i < |pad| ==> pad[i] == '='
    ensures Text.IsTrimmed(body + pad)
    ensures Text.TrimEndMatches(body + pad, '=') == body
  {
    ValuesAreSymbols(body);
    var all := body + pad;
    if all != "" {
      assert all[0] == (if body == "" then pad[0] else body[0]);
      assert all[|all| - 1] == (if pad == "" then body[|body| - 1] else pad[|pad| - 1]);
      SymbolIsNoSpace(all[0]);
      SymbolIsNoSpace(all[|all| - 1]);
    }
    StripPad(body, pad);
    UnpaddedStays(body);
  }

  lemma UnpaddedStays(body: string)
    requires forall i :: 0 <= i < |body| ==> Value(body[i]).Some?
    ensures Text.TrimEndMatches(body, '=') == body
  {
    assert Value('=') == None;
  }

  lemma {:induction false} ValuesAreSymbols(body: string)
    requires Values(body).Some?
    ensures forall i :: 0 <= i < |body| ==> Value(body[i]).Some?
  {
    if body != "" {
      ValuesAreSymbols(body[1..]);
    }
  }

  /** However a byte string is written, the reader finds it, if the text has at most 4194304 bytes. */
  lemma ReadsWritten(s: string, before: string, body: string, pad: string, after: string, b: Bytes)
    requires IsCodeOf(s, before, body, pad, after, b)
    ensures DecodeUrl(s) == if Size(s) <= 4194304 then Ok(b) else Err(InvalidBase64(s))
  {
    DecodeBodyCanonical(body, b);
    BodyOfSymbols(body, pad);
    Text.TrimExactly(before, body + pad, after);
    Reads(s, body, b);
  }

  /** The same for texts; bytes that are no text are refused. */
  lemma ReadsWrittenText(s: string, before: string, body: string, pad: string, after: string, b: Bytes)
    requires IsCodeOf(s, before, body, pad, after, b)
    ensures forall t :: DecodeUrlString(s) == Ok(t) <==> Size(s) <= 4194304 && Encode(t) == b
    ensures DecodeUrlString(s).Err? ==> DecodeUrlString(s).error == InvalidBase64(s)
  {
    ReadsWritten(s, before, body, pad, after, b);
    forall t | Encode(t) == b
      ensures Decode(b) == Some(t)
    {
      DecodeOfEncode(t);
    }
  }

  lemma {:induction false} TrimEndKeeps(s: string, c: char)
    requires !Text.IsWhitespace(c) && c in s
    ensures c in Text.TrimEnd(s)
  {
    if Text.IsWhitespace(s[|s| - 1]) {
      TrimEndKeeps(s[..|s| - 1], c);
    }
  }

  lemma {:induction false} TrimStartKeeps(s: string, c: char)
    requires !Text.IsWhitespace(c) && c in s
    ensures c in Text.TrimStart(s)
  {
    if Text.IsWhitespace(s[0]) {
      TrimStartKeeps(s[1..], c);
    }
  }

  lemma {:induction false} UnpadKeeps(s: string, c: char)
    requires c != '=' && c in s
    ensures c in Text.TrimEndMatches(s, '=')
  {
    if s[|s| - 1] == '=' {
      UnpadKeeps(s[..|s| - 1], c);
    }
  }

  lemma CodeHasNoColon(s: string, before: string, body: string, pad: string, after: string, b: Bytes)
    requires IsCodeOf(s, before, body, pad, after, b)
    ensures ':' !in s
  {
    DecodeBodyCanonical(body, b);
    ValuesAreSymbols(body);
    assert ':' as int !in Text.WHITE_SPACE;
  }

  /** A text with a character that is no symbol, no `=` and no white space is refused. */
  lemma StrangeIsRefused(s: string, c: char)
    requires c in s && !Text.IsWhitespace(c) && c != '=' && Value(c) == None
    ensures DecodeUrlString(s) == Err(InvalidBase64(s))
  {
    TrimStartKeeps(s, c);
    TrimEndKeeps(Text.TrimStart(s), c);
    UnpadKeeps(Text.Trim(s), c);
    if Values(Body(s)).Some? {
      ValuesAreSymbols(Body(s));
    }
  }

  /** The two alphabets, as tables 1 and 2 of RFC 4648 list them. */
  lemma SymbolTable(n: nat)
    requires n < 64
    ensures Symbol(n, Standard) ==
            (if n < 26 then "ABCDEFGHIJKLMNOPQRSTUVWXYZ"[n] else if n < 52 then "abcdefghijklmnopqrstuvwxyz"[n - 26]
             else "0123456789+/"[n - 52])
    ensures Symbol(n, UrlSafe) == if n == 62 then '-' else if n == 63 then '_' else Symbol(n, Standard)
  {
  }

  /** Three bytes and their four groups are the same number of 24 bits, the first one most significant. */
  lemma GroupsAreBits(b0: byte, b1: byte, b2: byte)
    ensures var q := Sextets([b0, b1, b2]);
            q[0] as int * 262144 + q[1] as int * 4096 + q[2] as int * 64 + q[3] as int ==
            b0 as int * 65536 + b1 as int * 256 + b2 as int
  {
    assert [b0, b1, b2][3..] == [];
  }

  // ---------- the reader's own steps, on bytes ----------

  const EQUALS: byte := 0x3D

  /** The byte that the reader writes to its buffer: the URL-safe symbols become the standard ones. */
  function Translate(b: byte): byte {
    if b == 0x2D then 0x2B else if b == 0x5F then 0x2F else b
  }

  function StandardValue(b: byte): Option<Sextet> {
    var n := b as int;
    if 0x41 <= n <= 0x5A then Some(n - 0x41)
    else if 0x61 <= n <= 0x7A then Some(n - 0x61 + 26)
    else if 0x30 <= n <= 0x39 then Some(n - 0x30 + 52)
    else if n == 0x2B then Some(62)
    else if n == 0x2F then Some(63)
    else None
  }

  function StandardValues(b: Bytes): (r: Option<seq<Sextet>>)
    ensures r.Some? ==> |r.value| == |b|
  {
    if b == [] then Some([])
    else match (StandardValue(b[0]), StandardValues(b[1..]))
         case (Some(n), Some(rest)) => Some([n] + rest)
         case _ => None
  }

  /** The length of a byte string without its trailing `=`. */
  function Unpad(b: Bytes): (n: nat)
    ensures n <= |b| && (forall k :: n <= k < |b| ==> b[k] == EQUALS)
    ensures n > 0 ==> b[n - 1] != EQUALS
  {
    if b != [] && b[|b| - 1] == EQUALS then Unpad(b[..|b| - 1]) else |b|
  }

  /** `STANDARD.decode(buf)`: canonical padding, the standard alphabet, no stray bits. */
  function StandardDecode(buf: Bytes): Option<Bytes> {
    var n := Unpad(buf);
    if |buf| != (n + 3) / 4 * 4 then None
    else match StandardValues(buf[..n])
         case None => None
         case Some(q) => FromSextets(q)
  }

  function Translated(b: Bytes): (r: Bytes)
    ensures |r| == |b|
  {
    seq(|b|, i requires 0 <= i < |b| => Translate(b[i]))
  }

  lemma {:induction false} LoneSextet(q: seq<Sextet>)
    ensures |q| % 4 == 1 ==> FromSextets(q).None?
  {
    if |q| % 4 == 1 && |q| > 1 {
      assert |q[4..]| % 4 == 1;
      LoneSextet(q[4..]);
    }
  }

  /** Two readings in a row. */
  function Both(a: Option<seq<Sextet>>, b: Option<seq<Sextet>>): Option<seq<Sextet>> {
    if a.Some? && b.Some? then Some(a.value + b.value) else None
  }

  lemma {:induction false} StandardValuesOfConcat(a: Bytes, b: Bytes)
    ensures StandardValues(a + b) == Both(StandardValues(a), StandardValues(b))
  {
    if a == [] {
      assert a + b == b;
      assert StandardValues(b).Some? ==> [] + StandardValues(b).value == StandardValues(b).value;
    } else {
      assert (a + b)[0] == a[0] && (a + b)[1..] == a[1..] + b;
      StandardValuesOfConcat(a[1..], b);
      var x, y, z := StandardValue(a[0]), StandardValues(a[1..]), StandardValues(b);
      assert x.Some? && y.Some? && z.Some? ==> [x.value] + (y.value + z.value) == [x.value] + y.value + z.value;
    }
  }

  function Single(n: Option<Sextet>): Option<seq<Sextet>> {
    if n.Some? then Some([n.value]) else None
  }

  lemma ValueOfChar(c: char)
    ensures StandardValues(Translated(CharBytes(c))) == Single(Value(c))
  {
    var t := Translated(CharBytes(c));
    assert t[0] == Translate(CharBytes(c)[0]);
    if c < '\U{0080}' {
      assert StandardValue(t[0]) == Value(c);
      assert t[1..] == [];
      assert StandardValue(t[0]).Some? ==> [StandardValue(t[0]).value] + [] == [StandardValue(t[0]).value];
    } else {
      assert t[0] >= 0xC0;
    }
  }

  /** Reading bytes is reading characters: a character outside ASCII is refused either way. */
  lemma {:induction false} ValuesOfBytes(s: string)
    ensures StandardValues(Translated(Encode(s))) == Values(s)
  {
    if s != [] {
      var head, tail := Translated(CharBytes(s[0])), Translated(Encode(s[1..]));
      ValueOfChar(s[0]);
      ValuesOfBytes(s[1..]);
      assert Translated(Encode(s)) == head + tail;
      StandardValuesOfConcat(head, tail);
      assert Values(s) == Both(Single(Value(s[0])), Values(s[1..]));
    }
  }

  lemma EncodeOfOne(c: char)
    ensures Encode([c]) == CharBytes(c)
  {
    var s := [c];
    assert s[1..] == [] && Encode(s[1..]) == [];
  }

  lemma EncodeBehind(init: string, c: char)
    ensures Encode(init + [c]) == Encode(init) + CharBytes(c)
  {
    EncodeOfConcat(init, [c]);
    EncodeOfOne(c);
  }

  lemma EncodeWithLast(s: string)
    requires s != ""
    ensures Encode(s) == Encode(s[..|s| - 1]) + CharBytes(s[|s| - 1])
  {
    var init, c := s[..|s| - 1], s[|s| - 1];
    assert s == init + [c];
    EncodeBehind(init, c);
  }

  /** The last byte of a text is `=` exactly when its last character is. */
  lemma LastByte(s: string)
    requires s != ""
    ensures var b := Encode(s); b != [] && (b[|b| - 1] == EQUALS <==> s[|s| - 1] == '=')
  {
    EncodeWithLast(s);
  }

  lemma UnpadStep(b: Bytes)
    requires b != []
    ensures Unpad(b) == if b[|b| - 1] == EQUALS then Unpad(b[..|b| - 1]) else |b|
  {
  }

  lemma {:induction false} UnpadOfEncode(t: string)
    ensures Encode(t)[..Unpad(Encode(t))] == Encode(Text.TrimEndMatches(t, '='))
  {
    if t != "" {
      LastByte(t);
      UnpadStep(Encode(t));
      if t[|t| - 1] == '=' {
        var init := t[..|t| - 1];
        EncodeWithLast(t);
        assert Encode(t)[..|Encode(t)| - 1] == Encode(init);
        UnpadOfEncode(init);
      }
    }
  }

  lemma UnpadIs(b: Bytes, n: nat)
    requires n <= |b| && forall k :: n <= k < |b| ==> b[k] == EQUALS
    requires n > 0 ==> b[n - 1] != EQUALS
    ensures Unpad(b) == n
  {
  }

  /** What the filled buffer holds: the symbols of the trimmed text, none of them `=` at the end. */
  lemma BufferMeaning(t: string, end: nat, buf: Bytes)
    requires end == Unpad(Encode(t)) && buf == Translated(Encode(t)[..end])
    ensures buf != [] ==> buf[|buf| - 1] != EQUALS
    ensures StandardValues(buf) == Values(Text.TrimEndMatches(t, '='))
  {
    UnpadOfEncode(t);
    ValuesOfBytes(Text.TrimEndMatches(t, '='));
  }

  function PadFor(n: nat): Bytes {
    if n % 4 == 2 then [EQUALS, EQUALS] else if n % 4 == 3 then [EQUALS] else []
  }

  lemma PaddedBuffer(buf: Bytes)
    requires buf != [] ==> buf[|buf| - 1] != EQUALS
    requires |buf| % 4 != 1
    ensures Unpad(buf + PadFor(|buf|)) == |buf|
    ensures |buf + PadFor(|buf|)| == (|buf| + 3) / 4 * 4
  {
    UnpadIs(buf + PadFor(|buf|), |buf|);
  }

  function FromValues(q: Option<seq<Sextet>>): Option<Bytes> {
    if q.Some? then FromSextets(q.value) else None
  }

  /** Padding a buffer that has none, then decoding it strictly, is decoding it without padding. */
  lemma DecodeOfPadded(buf: Bytes)
    requires buf != [] ==> buf[|buf| - 1] != EQUALS
    requires |buf| % 4 != 1
    ensures StandardDecode(buf + PadFor(|buf|)) == FromValues(StandardValues(buf))
  {
    PaddedBuffer(buf);
    assert (buf + PadFor(|buf|))[..|buf|] == buf;
  }

  /** The one pass over the trimmed bytes: it stops before the trailing `=` and translates on the way. */
  method FillBuffer(t: Bytes) returns (buf: Bytes)
    ensures buf == Translated(t[..Unpad(t)])
  {
    var end := |t|;
    while end > 0 && t[end - 1] == EQUALS
      invariant 0 <= end <= |t|
      invariant forall k :: end <= k < |t| ==> t[k] == EQUALS
    {
      end := end - 1;
    }
    UnpadIs(t, end);
    buf := [];
    for i := 0 to end
      invariant buf == Translated(t[..i])
    {
      assert t[..i + 1] == t[..i] + [t[i]];
      buf := buf + [Translate(t[i])];
    }
  }

  /** `decode_base64_url`: one pass fills a buffer with translated bytes, which is then padded and decoded
      strictly. The result is the reading of the text without any padding. */
  method DecodeBase64Url(s: string) returns (r: Result<Bytes, ParseError>)
    ensures r == DecodeUrl(s)
  {
    if Size(s) > MAX_BASE64_LEN {
      return Err(InvalidBase64(s));
    }
    var buf := FillBuffer(Encode(Text.Trim(s)));
    BufferMeaning(Text.Trim(s), Unpad(Encode(Text.Trim(s))), buf);
    ghost var q := StandardValues(buf);
    assert DecodeBody(Body(s)) == FromValues(q);
    if |buf| % 4 == 1 {
      if q.Some? {
        LoneSextet(q.value);
      }
      return Err(InvalidBase64(s));
    }
    DecodeOfPadded(buf);
    if |buf| % 4 == 2 {
      buf := buf + [EQUALS, EQUALS];
    } else if |buf| % 4 == 3 {
      buf := buf + [EQUALS];
    } else {
      assert buf + [] == buf;
    }
    match StandardDecode(buf) {
      case None => r := Err(InvalidBase64(s));
      case Some(b) => r := Ok(b);
    }
  }
}
