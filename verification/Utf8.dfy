/** UTF-8 (RFC 3629): the bytes of a `str`, and `String::from_utf8`. */
module Utf8 {
  import opened Wrappers

  newtype byte = x: int | 0 <= x < 256

  type Bytes = seq<byte>

  /** The bytes of one character. */
  function CharBytes(c: char): (r: Bytes)
    ensures 1 <= |r| <= 4
  {
    var n := c as int;
    if n < 0x80 then [n as byte]
    else if n < 0x800 then [(0xC0 + n / 64) as byte, (0x80 + n % 64) as byte]
    else if n < 0x1_0000 then
      [(0xE0 + n / 64 / 64) as byte, (0x80 + n / 64 % 64) as byte, (0x80 + n % 64) as byte]
    else
      [(0xF0 + n / 64 / 64 / 64) as byte, (0x80 + n / 64 / 64 % 64) as byte,
       (0x80 + n / 64 % 64) as byte, (0x80 + n % 64) as byte]
  }

  predicate IsTail(b: byte) {
    0x80 <= b < 0xC0
  }

  /** The bits of a character in its bytes, as section 3 of RFC 3629 lays them out. */
  lemma BitsOfChar(c: char)
    ensures var b, n := CharBytes(c), c as int;
            && |b| == (if n < 128 then 1 else if n < 2048 then 2 else if n < 65536 then 3 else 4)
            && (forall i :: 1 <= i < |b| ==> IsTail(b[i]))
            && (|b| == 1 ==> b[0] as int == n)
            && (|b| == 2 ==> 0xC0 <= b[0] < 0xE0 && n == (b[0] as int - 0xC0) * 64 + (b[1] as int - 0x80))
            && (|b| == 3 ==>
                  && 0xE0 <= b[0] < 0xF0
                  && n == (b[0] as int - 0xE0) * 4096 + (b[1] as int - 0x80) * 64 + (b[2] as int - 0x80))
            && (|b| == 4 ==>
                  && 0xF0 <= b[0] < 0xF8
                  && n == (b[0] as int - 0xF0) * 262144 + (b[1] as int - 0x80) * 4096
                          + (b[2] as int - 0x80) * 64 + (b[3] as int - 0x80))
  {
  }

  /** `s.as_bytes()` */
  function Encode(s: string): Bytes {
    if s == [] then [] else CharBytes(s[0]) + Encode(s[1..])
  }

  /** `s.len()`, which counts bytes. */
  function Size(s: string): nat {
    |Encode(s)|
  }

  /** The low six bits of a continuation byte. */
  function Tail(b: byte): Option<int> {
    if 0x80 <= b < 0xC0 then Some(b as int - 0x80) else None
  }

  /** Two, three or four bytes as a character, unless they are overlong, a surrogate or out of range. */
  function TwoBytes(b0: byte, b1: byte): (r: Option<char>)
    ensures r.Some? ==> CharBytes(r.value) == [b0, b1]
  {
    match Tail(b1)
    case Some(t1) =>
      if !(0xC2 <= b0 < 0xE0) then None
      else
        var n := (b0 as int - 0xC0) * 64 + t1;
        assert n / 64 == b0 as int - 0xC0 && n % 64 == t1;
        Some(n as char)
    case None => None
  }

  function ThreeBytes(b0: byte, b1: byte, b2: byte): (r: Option<char>)
    ensures r.Some? ==> CharBytes(r.value) == [b0, b1, b2]
  {
    match (Tail(b1), Tail(b2))
    case (Some(t1), Some(t2)) =>
      if !(0xE0 <= b0 < 0xF0) then None
      else
        var h := (b0 as int - 0xE0) * 64 + t1;
        var n := h * 64 + t2;
        assert n / 64 == h && h / 64 == b0 as int - 0xE0 && h % 64 == t1 && n % 64 == t2;
        if n < 0x800 || 0xD800 <= n < 0xE000 then None else Some(n as char)
    case _ => None
  }

  function FourBytes(b0: byte, b1: byte, b2: byte, b3: byte): (r: Option<char>)
    ensures r.Some? ==> CharBytes(r.value) == [b0, b1, b2, b3]
  {
    match (Tail(b1), Tail(b2), Tail(b3))
    case (Some(t1), Some(t2), Some(t3)) =>
      if !(0xF0 <= b0 < 0xF5) then None
      else
        var g := (b0 as int - 0xF0) * 64 + t1;
        var h := g * 64 + t2;
        var n := h * 64 + t3;
        assert n / 64 == h && h / 64 == g && g / 64 == b0 as int - 0xF0;
        assert g % 64 == t1 && h % 64 == t2 && n % 64 == t3;
        if n < 0x1_0000 || n > 0x10_FFFF then None else Some(n as char)
    case _ => None
  }

  /** The first character of a byte string, unless the string starts with something that is not UTF-8. */
  function FirstChar(b: Bytes): (r: Option<char>)
    requires b != []
    ensures r.Some? ==> CharBytes(r.value) <= b
  {
    if b[0] < 0x80 then Some(b[0] as int as char)
    else if b[0] < 0xE0 then (if |b| < 2 then None else TwoBytes(b[0], b[1]))
    else if b[0] < 0xF0 then (if |b| < 3 then None else ThreeBytes(b[0], b[1], b[2]))
    else if |b| < 4 then None else FourBytes(b[0], b[1], b[2], b[3])
  }

  /** `String::from_utf8(b)`: it accepts exactly the byte strings that encode some text. */
  function Decode(b: Bytes): (r: Option<string>)
    ensures r.Some? ==> Encode(r.value) == b
  {
    if b == [] then Some("")
    else match FirstChar(b)
         case None => None
         case Some(c) =>
           var n := |CharBytes(c)|;
           match Decode(b[n..])
           case None => None
           case Some(s) => Some([c] + s)
  }

  lemma FirstCharOfShort(c: char, rest: Bytes)
    requires c < '\U{0800}'
    ensures FirstChar(CharBytes(c) + rest) == Some(c)
  {
    var n := c as int;
    var b := CharBytes(c) + rest;
    if n >= 0x80 {
      assert b[0] as int == 0xC0 + n / 64 && Tail(b[1]) == Some(n % 64);
    }
  }

  lemma FirstCharOfThree(c: char, rest: Bytes)
    requires '\U{0800}' <= c < '\U{10000}'
    ensures FirstChar(CharBytes(c) + rest) == Some(c)
  {
    var n := c as int;
    var b := CharBytes(c) + rest;
    var t1, t2 := n / 64 % 64, n % 64;
    assert b[0] as int == 0xE0 + n / 64 / 64;
    assert Tail(b[1]) == Some(t1) && Tail(b[2]) == Some(t2);
    assert n == (n / 64 / 64 * 64 + t1) * 64 + t2;
  }

  lemma FirstCharOfFour(c: char, rest: Bytes)
    requires '\U{10000}' <= c
    ensures FirstChar(CharBytes(c) + rest) == Some(c)
  {
    var n := c as int;
    var b := CharBytes(c) + rest;
    var t1, t2, t3 := n / 64 / 64 % 64, n / 64 % 64, n % 64;
    assert b[0] as int == 0xF0 + n / 64 / 64 / 64;
    assert Tail(b[1]) == Some(t1) && Tail(b[2]) == Some(t2) && Tail(b[3]) == Some(t3);
    assert n == ((n / 64 / 64 / 64 * 64 + t1) * 64 + t2) * 64 + t3;
  }

  lemma FirstCharOfEncoded(c: char, rest: Bytes)
    ensures FirstChar(CharBytes(c) + rest) == Some(c)
  {
    if c < '\U{0800}' {
      FirstCharOfShort(c, rest);
    } else if c < '\U{10000}' {
      FirstCharOfThree(c, rest);
    } else {
      FirstCharOfFour(c, rest);
    }
  }

  /** Reading the bytes of a text gives the text back. */
  lemma {:induction false} DecodeOfEncode(s: string)
    ensures Decode(Encode(s)) == Some(s)
  {
    if s != [] {
      FirstCharOfEncoded(s[0], Encode(s[1..]));
      var n := |CharBytes(s[0])|;
      assert Encode(s)[n..] == Encode(s[1..]);
      DecodeOfEncode(s[1..]);
      assert s == [s[0]] + s[1..];
    }
  }

  lemma {:induction false} EncodeOfConcat(a: string, b: string)
    ensures Encode(a + b) == Encode(a) + Encode(b)
  {
    if a == [] {
      assert a + b == b;
    } else {
      assert (a + b)[0] == a[0] && (a + b)[1..] == a[1..] + b;
      EncodeOfConcat(a[1..], b);
      assert CharBytes(a[0]) + (Encode(a[1..]) + Encode(b)) == CharBytes(a[0]) + Encode(a[1..]) + Encode(b);
    }
  }

  predicate IsAscii(s: string) {
    forall c :: c in s ==> c < '\U{0080}'
  }

  /** An ASCII text read as bytes. */
  function AsciiBytes(s: string): (r: Bytes)
    requires IsAscii(s)
    ensures |r| == |s|
  {
    seq(|s|, i requires 0 <= i < |s| => (assert s[i] in s; s[i] as int as byte))
  }

  lemma {:induction false} EncodeOfAscii(s: string)
    requires IsAscii(s)
    ensures Encode(s) == AsciiBytes(s)
    ensures Size(s) == |s|
  {
    if s != [] {
      assert s[0] in s;
      assert forall c :: c in s[1..] ==> c in s;
      EncodeOfAscii(s[1..]);
      assert CharBytes(s[0]) == [s[0] as int as byte];
      assert AsciiBytes(s) == [s[0] as int as byte] + AsciiBytes(s[1..]);
    }
  }
}
