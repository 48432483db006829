/** Percent-encoding (RFC 3986, sections 2.1 to 2.3): `urlencode` and `percent_decode` of
    crates/proxy-core/src/uri.rs. */
module Percent {
  import opened Wrappers
  import opened Utf8

  const PERCENT: byte := 0x25

  /** The characters that stand for themselves. */
  predicate IsUnreserved(c: char) {
    || 'A' <= c <= 'Z' || 'a' <= c <= 'z' || '0' <= c <= '9'
    || c == '-' || c == '.' || c == '_' || c == '~'
  }

  function HexDigit(n: byte): (c: char)
    requires n < 16
    ensures IsUnreserved(c)
  {
    if n < 10 then ('0' as int + n as int) as char else ('A' as int + n as int - 10) as char
  }

  /** A hexadecimal digit of either case. */
  function HexValue(b: byte): Option<byte> {
    if 0x30 <= b <= 0x39 then Some(b - 0x30)
    else if 0x41 <= b <= 0x46 then Some(b - 0x41 + 10)
    else if 0x61 <= b <= 0x66 then Some(b - 0x61 + 10)
    else None
  }

  function EncodeByte(b: byte): (s: string)
    ensures forall c :: c in s ==> IsUnreserved(c) || c == '%'
    ensures s != ""
  {
    var c := b as int as char;
    if IsUnreserved(c) then [c] else ['%', HexDigit(b / 16), HexDigit(b % 16)]
  }

  function EncodeBytes(b: Bytes): (s: string)
    ensures forall c :: c in s ==> IsUnreserved(c) || c == '%'
    ensures s == "" <==> b == []
  {
    if b == [] then "" else EncodeByte(b[0]) + EncodeBytes(b[1..])
  }

  /** `urlencode(s)`: unreserved characters stay, every other byte becomes `%XX`. */
  function Urlencode(s: string): (r: string)
    ensures forall c :: c in r ==> IsUnreserved(c) || c == '%'
    ensures r == "" <==> s == ""
  {
    EncodeBytes(Encode(s))
  }

  /** The bytes of a text with every well-formed `%XX` replaced; a `%` without two digits stays. */
  function DecodeBytes(b: Bytes): Bytes
    decreases |b|
  {
    if b == [] then []
    else if b[0] == PERCENT && |b| >= 3 && HexValue(b[1]).Some? && HexValue(b[2]).Some? then
      [HexValue(b[1]).value * 16 + HexValue(b[2]).value] + DecodeBytes(b[3..])
    else [b[0]] + DecodeBytes(b[1..])
  }

  /** `percent_decode(s)` */
  function PercentDecode(s: string): Result<string, ParseError> {
    match Decode(DecodeBytes(Encode(s)))
    case None => Err(InvalidUri(s))
    case Some(t) => Ok(t)
  }

  lemma DecodeOfEncodeByte(b: byte, rest: Bytes)
    ensures IsAscii(EncodeByte(b))
    ensures DecodeBytes(AsciiBytes(EncodeByte(b)) + rest) == [b] + DecodeBytes(rest)
  {
    var s := EncodeByte(b);
    var t := AsciiBytes(s) + rest;
    if IsUnreserved(b as int as char) {
      assert t[0] == b && t[1..] == rest;
    } else {
      assert t[0] == PERCENT && HexValue(t[1]) == Some(b / 16) && HexValue(t[2]) == Some(b % 16);
      assert t[3..] == rest;
      assert b / 16 * 16 + b % 16 == b;
    }
  }

  lemma {:induction false} DecodeOfEncodeBytes(b: Bytes)
    ensures IsAscii(EncodeBytes(b))
    ensures DecodeBytes(AsciiBytes(EncodeBytes(b))) == b
  {
    if b != [] {
      DecodeOfEncodeBytes(b[1..]);
      var rest := AsciiBytes(EncodeBytes(b[1..]));
      DecodeOfEncodeByte(b[0], rest);
      assert AsciiBytes(EncodeBytes(b)) == AsciiBytes(EncodeByte(b[0])) + rest;
    }
  }

  /** Every text comes back from its percent-encoding. */
  lemma RoundTrip(s: string)
    ensures PercentDecode(Urlencode(s)) == Ok(s)
  {
    DecodeOfEncodeBytes(Encode(s));
    EncodeOfAscii(Urlencode(s));
    DecodeOfEncode(s);
  }

  /** A text of unreserved characters is its own percent-encoding. */
  lemma {:induction false} UnreservedStays(s: string)
    requires forall i :: 0 <= i < |s| ==> IsUnreserved(s[i])
    ensures Urlencode(s) == s
  {
    if s != "" {
      UnreservedStays(s[1..]);
      assert CharBytes(s[0]) == [s[0] as int as byte];
      assert Encode(s)[1..] == Encode(s[1..]);
      assert s == [s[0]] + s[1..];
    }
  }

  /** The characters that RFC 3986 lets stand for themselves, and the upper-case digits that it asks for. */
  lemma EncodeByteExactly(b: byte)
    ensures var c := b as int as char;
            EncodeByte(b) ==
            if 'A' <= c <= 'Z' || 'a' <= c <= 'z' || '0' <= c <= '9' || c == '-' || c == '.' || c == '_' || c == '~'
            then [c]
            else ['%', "0123456789ABCDEF"[b / 16], "0123456789ABCDEF"[b % 16]]
  {
  }

  // ---------- every way to write ----------

  /** A byte stands for itself, or is written with two hexadecimal digits, each of either case. */
  datatype Form = Literal | Escaped(highIsLower: bool, lowIsLower: bool)

  function Digit(n: byte, isLower: bool): byte
    requires n < 16
  {
    (if isLower then "0123456789abcdef"[n] else "0123456789ABCDEF"[n]) as int as byte
  }

  predicate IsHex(b: byte) {
    '0' as int <= b as int <= '9' as int || 'A' as int <= b as int <= 'F' as int || 'a' as int <= b as int <= 'f' as int
  }

  function FormOf(b: byte, form: Form): Bytes {
    match form
    case Literal => [b]
    case Escaped(high, low) => ['%' as int as byte, Digit(b / 16, high), Digit(b % 16, low)]
  }

  function Written(b: Bytes, forms: seq<Form>): Bytes
    requires |b| == |forms|
  {
    if b == [] then [] else FormOf(b[0], forms[0]) + Written(b[1..], forms[1..])
  }

  /** A percent sign can stand for itself when no two digits follow it. */
  predicate CanStand(b: byte, form: Form, rest: Bytes) {
    form == Literal && b as int == '%' as int ==> !(|rest| >= 2 && IsHex(rest[0]) && IsHex(rest[1]))
  }

  predicate AreForms(b: Bytes, forms: seq<Form>) {
    && |b| == |forms|
    && (b != [] ==> CanStand(b[0], forms[0], Written(b[1..], forms[1..])) && AreForms(b[1..], forms[1..]))
  }

  lemma HexExactly(b: byte)
    ensures HexValue(b).Some? <==> IsHex(b)
    ensures HexValue(b).Some? ==> exists isLower :: Digit(HexValue(b).value, isLower) == b
  {
    if HexValue(b).Some? {
      assert Digit(HexValue(b).value, b > 0x60) == b;
    }
  }

  lemma ValueOfDigit(n: byte, isLower: bool)
    requires n < 16
    ensures HexValue(Digit(n, isLower)) == Some(n)
  {
  }

  lemma DecodeOfForm(b: byte, form: Form, rest: Bytes)
    requires CanStand(b, form, rest)
    ensures DecodeBytes(FormOf(b, form) + rest) == [b] + DecodeBytes(rest)
  {
    var s := FormOf(b, form) + rest;
    match form {
      case Literal =>
        assert s[0] == b && s[1..] == rest;
        if |rest| >= 2 {
          HexExactly(rest[0]);
          HexExactly(rest[1]);
        }
      case Escaped(high, low) =>
        ValueOfDigit(b / 16, high);
        ValueOfDigit(b % 16, low);
        assert s[0] == PERCENT && s[1] == Digit(b / 16, high) && s[2] == Digit(b % 16, low) && s[3..] == rest;
        assert b / 16 * 16 + b % 16 == b;
    }
  }

  /** Bytes are found however they are written. */
  lemma {:induction false} DecodeOfWritten(b: Bytes, forms: seq<Form>)
    requires AreForms(b, forms)
    ensures DecodeBytes(Written(b, forms)) == b
  {
    if b != [] {
      DecodeOfWritten(b[1..], forms[1..]);
      DecodeOfForm(b[0], forms[0], Written(b[1..], forms[1..]));
    }
  }

  predicate StartsEscaped(s: Bytes) {
    |s| >= 3 && s[0] == PERCENT && HexValue(s[1]).Some? && HexValue(s[2]).Some?
  }

  lemma DigitOf(b: byte) returns (isLower: bool)
    requires HexValue(b).Some?
    ensures Digit(HexValue(b).value, isLower) == b
  {
    HexExactly(b);
    isLower :| Digit(HexValue(b).value, isLower) == b;
  }

  lemma TwoDigits(high: byte, low: byte, highIsLower: bool, lowIsLower: bool)
    requires high < 16 && low < 16
    ensures FormOf(high * 16 + low, Escaped(highIsLower, lowIsLower)) ==
            [PERCENT, Digit(high, highIsLower), Digit(low, lowIsLower)]
  {
    assert (high * 16 + low) / 16 == high && (high * 16 + low) % 16 == low;
  }

  lemma EscapedAtFront(s: Bytes) returns (form: Form)
    requires StartsEscaped(s)
    ensures form.Escaped? && s[..3] == FormOf(HexValue(s[1]).value * 16 + HexValue(s[2]).value, form)
  {
    var high := DigitOf(s[1]);
    var low := DigitOf(s[2]);
    form := Escaped(high, low);
    TwoDigits(HexValue(s[1]).value, HexValue(s[2]).value, high, low);
    assert s[..3] == [s[0], s[1], s[2]];
  }

  lemma LiteralAtFront(s: Bytes)
    requires s != [] && !StartsEscaped(s)
    ensures CanStand(s[0], Literal, s[1..])
  {
    if |s| >= 3 {
      HexExactly(s[1]);
      HexExactly(s[2]);
    }
  }

  lemma FormAtFront(s: Bytes) returns (form: Form, n: nat, b: byte)
    requires s != []
    ensures 1 <= n <= |s| && DecodeBytes(s) == [b] + DecodeBytes(s[n..])
    ensures CanStand(b, form, s[n..]) && s[..n] == FormOf(b, form)
  {
    if StartsEscaped(s) {
      n, b := 3, HexValue(s[1]).value * 16 + HexValue(s[2]).value;
      form := EscapedAtFront(s);
    } else {
      form, n, b := Literal, 1, s[0];
      LiteralAtFront(s);
    }
  }

  /** Every text is a way to write what it decodes to. */
  lemma {:induction false} FormsOf(s: Bytes) returns (forms: seq<Form>)
    ensures AreForms(DecodeBytes(s), forms) && Written(DecodeBytes(s), forms) == s
    decreases |s|
  {
    if s == [] {
      forms := [];
    } else {
      var form, n, b := FormAtFront(s);
      var rest := FormsOf(s[n..]);
      forms := [form] + rest;
      assert DecodeBytes(s)[1..] == DecodeBytes(s[n..]) && forms[1..] == rest;
      assert s == s[..n] + s[n..];
    }
  }

  /** A text decodes to another exactly when it is a way to write its bytes; otherwise it is reported. */
  lemma PercentDecodeExactly(s: string, t: string)
    ensures PercentDecode(s) == Ok(t) <==>
            exists forms :: AreForms(Encode(t), forms) && Written(Encode(t), forms) == Encode(s)
    ensures PercentDecode(s).Err? ==> PercentDecode(s).error == InvalidUri(s)
  {
    if PercentDecode(s) == Ok(t) {
      var forms := FormsOf(Encode(s));
    }
    if forms :| AreForms(Encode(t), forms) && Written(Encode(t), forms) == Encode(s) {
      DecodeOfWritten(Encode(t), forms);
      DecodeOfEncode(t);
    }
  }
}
