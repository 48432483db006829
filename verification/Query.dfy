/** The query part of a node's URI: `key=value` pieces joined by `&`. The parsers walk the pieces in order and
    overwrite a local variable per key, so the last piece with a key decides. */
module Query {
  import opened Wrappers
  import opened Percent
  import Text

  /** `percent_decode(v).unwrap_or_default()` */
  function DecodeOrEmpty(v: string): string {
    match PercentDecode(v) case Ok(t) => t case Err(_) => ""
  }

  /** What one piece assigns to the variable that listens to these keys. */
  function Assigned(piece: string, keys: set<string>): Option<string> {
    match Text.SplitOnce(piece, '=')
    case None => None
    case Some((k, v)) => if k in keys then Some(DecodeOrEmpty(v)) else None
  }

  /** The value that a walk over the pieces leaves in the variable that listens to these keys. */
  function Last(pieces: seq<string>, keys: set<string>): Option<string> {
    if pieces == [] then None
    else OrElse(Assigned(pieces[|pieces| - 1], keys), Last(pieces[..|pieces| - 1], keys))
  }

  /** The pieces of an optional query. */
  function Pieces(query: Option<string>): seq<string> {
    match query case None => [] case Some(q) => Text.Split(q, '&')
  }

  /** `v.split(',')`, collected. */
  function Alpn(v: Option<string>): seq<string> {
    match v case None => [] case Some(s) => Text.Split(s, ',')
  }

  /** `v == "1" || v == "true"` */
  predicate Truthy(v: Option<string>) {
    v == Some("1") || v == Some("true")
  }

  lemma LastStep(pieces: seq<string>, i: nat, keys: set<string>)
    requires i < |pieces|
    ensures Last(pieces[..i + 1], keys) == OrElse(Assigned(pieces[i], keys), Last(pieces[..i], keys))
  {
    assert pieces[..i + 1][..i] == pieces[..i];
  }

  lemma {:induction false} LastOfConcat(a: seq<string>, b: seq<string>, keys: set<string>)
    ensures Last(a + b, keys) == OrElse(Last(b, keys), Last(a, keys))
  {
    if b == [] {
      assert a + b == a;
    } else {
      assert (a + b)[..|a + b| - 1] == a + b[..|b| - 1];
      LastOfConcat(a, b[..|b| - 1], keys);
    }
  }

  /** A key that no piece has can be listened to as well. */
  lemma {:induction false} LastOfTwoKeys(pieces: seq<string>, a: string, b: string)
    requires Last(pieces, {b}) == None
    ensures Last(pieces, {a, b}) == Last(pieces, {a})
  {
    if pieces != [] {
      LastOfTwoKeys(pieces[..|pieces| - 1], a, b);
    }
  }

  // ---------- what a query says ----------

  /** The piece is `key=code` for one of the keys. */
  predicate IsPieceOf(piece: string, keys: set<string>, code: string) {
    exists key :: key in keys && piece == key + "=" + code
  }

  /** No piece from `i` on is for one of the keys. */
  ghost predicate IsSilent(pieces: seq<string>, keys: set<string>, i: nat) {
    forall j, code :: i <= j < |pieces| ==> !IsPieceOf(pieces[j], keys, code)
  }

  /** The code in the last piece for one of the keys; none when no piece is. */
  ghost predicate SaysCode(pieces: seq<string>, keys: set<string>, code: Option<string>) {
    match code
    case None => IsSilent(pieces, keys, 0)
    case Some(c) => exists i: nat :: i < |pieces| && IsPieceOf(pieces[i], keys, c) && IsSilent(pieces, keys, i + 1)
  }

  /** A code stands for the text that it decodes to, and for the empty text when it cannot be decoded. */
  predicate Means(code: Option<string>, value: Option<string>) {
    match code
    case None => value == None
    case Some(c) => value.Some? && (PercentDecode(c) == Ok(value.value) || (PercentDecode(c).Err? && value.value == ""))
  }

  /** What the pieces say about the keys: the last piece for one of them decides. */
  ghost predicate Says(pieces: seq<string>, keys: set<string>, value: Option<string>) {
    exists code :: SaysCode(pieces, keys, code) && Means(code, value)
  }

  ghost predicate AreKeys(keys: set<string>) {
    forall key :: key in keys ==> '=' !in key
  }

  /** The code of a piece for one of the keys. */
  function CodeOf(piece: string, keys: set<string>): Option<string> {
    match Text.SplitOnce(piece, '=') case None => None case Some((k, code)) => if k in keys then Some(code) else None
  }

  lemma CodeExactly(piece: string, keys: set<string>, code: string)
    requires AreKeys(keys)
    ensures IsPieceOf(piece, keys, code) <==> CodeOf(piece, keys) == Some(code)
  {
    if IsPieceOf(piece, keys, code) {
      var key :| key in keys && piece == key + "=" + code;
      Text.FindAt(key, '=', code);
      assert piece == key + ['='] + code;
    }
    if CodeOf(piece, keys) == Some(code) {
      var key := Text.SplitOnce(piece, '=').value.0;
      assert piece == key + "=" + code;
    }
  }

  /** The code that a walk over the pieces keeps. */
  function LastCode(pieces: seq<string>, keys: set<string>): Option<string> {
    if pieces == [] then None
    else OrElse(CodeOf(pieces[|pieces| - 1], keys), LastCode(pieces[..|pieces| - 1], keys))
  }

  lemma {:induction false} LastCodeExactly(pieces: seq<string>, keys: set<string>, code: Option<string>)
    requires AreKeys(keys)
    ensures LastCode(pieces, keys) == code <==> SaysCode(pieces, keys, code)
  {
    if pieces != [] {
      var n := |pieces| - 1;
      var init, last := pieces[..n], pieces[n];
      LastCodeExactly(init, keys, code);
      forall c
        ensures IsPieceOf(last, keys, c) <==> CodeOf(last, keys) == Some(c)
      {
        CodeExactly(last, keys, c);
      }
      match CodeOf(last, keys) {
        case Some(c) => LastIsSaid(pieces, last, keys, c, code);
        case None => LastIsSilent(pieces, last, keys, code);
      }
    }
  }

  lemma LastIsSaid(pieces: seq<string>, last: string, keys: set<string>, c: string, code: Option<string>)
    requires pieces != [] && last == pieces[|pieces| - 1] && forall d :: IsPieceOf(last, keys, d) <==> d == c
    ensures SaysCode(pieces, keys, code) <==> code == Some(c)
  {
    assert IsPieceOf(pieces[|pieces| - 1], keys, c) && IsSilent(pieces, keys, |pieces|);
  }

  lemma LastIsSilent(pieces: seq<string>, last: string, keys: set<string>, code: Option<string>)
    requires pieces != [] && last == pieces[|pieces| - 1] && forall d :: !IsPieceOf(last, keys, d)
    ensures SaysCode(pieces, keys, code) <==> SaysCode(pieces[..|pieces| - 1], keys, code)
  {
    var init := pieces[..|pieces| - 1];
    forall i: nat | i <= |init|
      ensures IsSilent(pieces, keys, i) <==> IsSilent(init, keys, i)
    {
      forall j, d | i <= j < |pieces|
        ensures IsSilent(init, keys, i) ==> !IsPieceOf(pieces[j], keys, d)
      {
        assert j < |init| ==> init[j] == pieces[j];
      }
      forall j, d | i <= j < |init|
        ensures IsSilent(pieces, keys, i) ==> !IsPieceOf(init[j], keys, d)
      {
        assert init[j] == pieces[j];
      }
    }
    if code.Some? {
      if SaysCode(pieces, keys, code) {
        var i: nat :| i < |pieces| && IsPieceOf(pieces[i], keys, code.value) && IsSilent(pieces, keys, i + 1);
        assert i < |init| && init[i] == pieces[i];
      }
      if SaysCode(init, keys, code) {
        var i: nat :| i < |init| && IsPieceOf(init[i], keys, code.value) && IsSilent(init, keys, i + 1);
        assert pieces[i] == init[i];
      }
    }
  }

  lemma {:induction false} LastOfCode(pieces: seq<string>, keys: set<string>)
    ensures Means(LastCode(pieces, keys), Last(pieces, keys))
  {
    if pieces != [] {
      LastOfCode(pieces[..|pieces| - 1], keys);
    }
  }

  /** The walk over the pieces leaves exactly what the pieces say. */
  lemma LastExactly(pieces: seq<string>, keys: set<string>, value: Option<string>)
    requires AreKeys(keys)
    ensures Last(pieces, keys) == value <==> Says(pieces, keys, value)
  {
    var code := LastCode(pieces, keys);
    LastOfCode(pieces, keys);
    LastCodeExactly(pieces, keys, code);
    forall other | SaysCode(pieces, keys, other)
      ensures other == code
    {
      LastCodeExactly(pieces, keys, other);
    }
  }

  // ---------- printing ----------

  /** Keys with optional values, in the order in which they are printed. */
  type Params = seq<(string, Option<string>)>

  /** A key that can be found again. */
  predicate IsKey(key: string) {
    '=' !in key && '&' !in key
  }

  /** The piece for an optional value: nothing when it is absent. */
  function Field(key: string, value: Option<string>): (r: seq<string>)
  {
    match value case None => [] case Some(v) => [key + "=" + Urlencode(v)]
  }

  /** A printed piece assigns its value to its key and to no other. */
  lemma LastOfField(key: string, value: Option<string>, keys: set<string>)
    requires IsKey(key)
    ensures Last(Field(key, value), keys) == if key in keys then value else None
  {
    match value {
      case None =>
      case Some(v) =>
        var enc := Urlencode(v);
        Text.FindAt(key, '=', enc);
        assert key + "=" + enc == key + ['='] + enc;
        RoundTrip(v);
        var r := Field(key, value);
        assert r[..0] == [] && r[0] == key + "=" + enc;
        assert Assigned(r[0], keys) == if key in keys then Some(v) else None;
    }
  }

  /** The pieces of an ordered list of optional values. */
  function Fields(fs: Params): seq<string> {
    if fs == [] then [] else Fields(fs[..|fs| - 1]) + Field(fs[|fs| - 1].0, fs[|fs| - 1].1)
  }

  ghost predicate DistinctKeys(fs: Params) {
    && (forall i :: 0 <= i < |fs| ==> IsKey(fs[i].0))
    && (forall i, j :: 0 <= i < j < |fs| ==> fs[i].0 != fs[j].0)
  }

  lemma {:induction false} LastOfOtherFields(fs: Params, key: string)
    requires DistinctKeys(fs)
    requires forall i :: 0 <= i < |fs| ==> fs[i].0 != key
    ensures Last(Fields(fs), {key}) == None
  {
    if fs != [] {
      var init, last := fs[..|fs| - 1], fs[|fs| - 1];
      LastOfOtherFields(init, key);
      LastOfConcat(Fields(init), Field(last.0, last.1), {key});
      LastOfField(last.0, last.1, {key});
    }
  }

  /** Walking the printed pieces of a list with distinct keys recovers every value of the list. */
  lemma {:induction false} LastOfFields(fs: Params, i: nat)
    requires DistinctKeys(fs) && i < |fs|
    ensures Last(Fields(fs), {fs[i].0}) == fs[i].1
  {
    var init, last := fs[..|fs| - 1], fs[|fs| - 1];
    var key := fs[i].0;
    LastOfConcat(Fields(init), Field(last.0, last.1), {key});
    LastOfField(last.0, last.1, {key});
    if i == |fs| - 1 {
      LastOfOtherFields(init, key);
    } else {
      LastOfFields(init, i);
    }
  }

  predicate NoSpace(s: string) {
    forall i :: 0 <= i < |s| ==> !Text.IsWhitespace(s[i])
  }

  /** No printed piece holds a delimiter of the URI, or white space. */
  predicate IsPieceText(s: string) {
    forall i :: 0 <= i < |s| ==> IsPieceChar(s[i])
  }

  predicate IsPieceChar(c: char) {
    c != '&' && c != '#' && c != '@' && !Text.IsWhitespace(c)
  }

  lemma {:induction false} FieldsText(fs: Params)
    requires forall i :: 0 <= i < |fs| ==> IsPieceText(fs[i].0)
    ensures forall i :: 0 <= i < |Fields(fs)| ==> IsPieceText(Fields(fs)[i])
  {
    if fs != [] {
      var init, last := fs[..|fs| - 1], fs[|fs| - 1];
      FieldsText(init);
      assert IsPieceText(last.0);
      if last.1.Some? {
        var enc := Urlencode(last.1.value);
        assert forall i :: 0 <= i < |enc| ==> enc[i] in enc;
        assert IsPieceText(enc);
        assert IsPieceText(last.0 + "=" + enc);
      }
    }
  }

  /** Pieces joined by `&`; no query at all when there is no piece. */
  function JoinPieces(ps: seq<string>): Option<string> {
    if ps == [] then None else Some(Text.Join(ps, "&"))
  }

  lemma {:induction false} JoinNoSpace(ps: seq<string>)
    requires forall i :: 0 <= i < |ps| ==> NoSpace(ps[i])
    ensures NoSpace(Text.Join(ps, "&"))
  {
    if |ps| > 1 {
      JoinNoSpace(ps[1..]);
    }
  }

  /** The pieces of a printed query are the printed pieces, and the query holds no delimiter of the URI. */
  lemma PiecesOfFields(fs: Params)
    requires forall i :: 0 <= i < |fs| ==> IsPieceText(fs[i].0)
    ensures Pieces(JoinPieces(Fields(fs))) == Fields(fs)
    ensures var q := JoinPieces(Fields(fs)); q.Some? ==> '#' !in q.value && '@' !in q.value && NoSpace(q.value)
  {
    FieldsText(fs);
    var ps := Fields(fs);
    if ps != [] {
      Text.SplitOfJoin(ps, '&');
      Text.JoinChars(ps, "&", '#');
      Text.JoinChars(ps, "&", '@');
      JoinNoSpace(ps);
    }
  }

  /** Distinct keys that can stand in a URI. */
  ghost predicate ArePrintable(fs: Params) {
    && DistinctKeys(fs)
    && forall i :: 0 <= i < |fs| ==> IsPieceText(fs[i].0)
  }

  ghost predicate OtherKeys(a: Params, b: Params) {
    forall i, j :: 0 <= i < |a| && 0 <= j < |b| ==> a[i].0 != b[j].0
  }

  lemma PrintableConcat(a: Params, b: Params)
    requires ArePrintable(a) && ArePrintable(b) && OtherKeys(a, b)
    ensures ArePrintable(a + b)
  {
  }

  lemma ConcatIsPrintable(a: Params, b: Params, c: Params, d: Params)
    requires ArePrintable(a) && ArePrintable(b) && ArePrintable(c) && ArePrintable(d)
    requires OtherKeys(a, b) && OtherKeys(a, c) && OtherKeys(a, d)
    requires OtherKeys(b, c) && OtherKeys(b, d) && OtherKeys(c, d)
    ensures ArePrintable(a + b + c + d)
  {
    PrintableConcat(a, b);
    OtherThanConcat(a, b, c);
    PrintableConcat(a + b, c);
    OtherThanConcat(a, b, d);
    OtherThanConcat(a + b, c, d);
    PrintableConcat(a + b + c, d);
  }

  lemma OtherThanConcat(a: Params, b: Params, c: Params)
    requires OtherKeys(a, c) && OtherKeys(b, c)
    ensures OtherKeys(a + b, c)
  {
  }

  /** The whole way: print the fields, join them, split the query again, walk it. */
  lemma RecoverField(fs: Params, key: string, value: Option<string>)
    requires ArePrintable(fs) && (key, value) in fs
    ensures Last(Pieces(JoinPieces(Fields(fs))), {key}) == value
  {
    PiecesOfFields(fs);
    var i :| 0 <= i < |fs| && fs[i] == (key, value);
    LastOfFields(fs, i);
  }

  lemma RecoverNothing(fs: Params, key: string)
    requires ArePrintable(fs) && forall i :: 0 <= i < |fs| ==> fs[i].0 != key
    ensures Last(Pieces(JoinPieces(Fields(fs))), {key}) == None
  {
    PiecesOfFields(fs);
    LastOfOtherFields(fs, key);
  }

  // ---------- alpn ----------

  /** An absent value for an empty list, the comma-joined names otherwise. */
  function AlpnValue(alpn: seq<string>): Option<string> {
    if alpn == [] then None else Some(Text.Join(alpn, ","))
  }

  /** Every list that was read is free of commas. */
  lemma AlpnIsFree(v: Option<string>)
    ensures Text.Free(Alpn(v), ',')
  {
  }

  /** Comma-joined names are recovered when no name holds a comma. */
  lemma AlpnRoundTrip(alpn: seq<string>)
    requires Text.Free(alpn, ',')
    ensures Alpn(AlpnValue(alpn)) == alpn
  {
    if alpn != [] {
      Text.SplitOfJoin(alpn, ',');
    }
  }

  // ---------- printing step by step ----------

  lemma FieldsWithLast(fs: Params, key: string, value: Option<string>)
    ensures Fields(fs + [(key, value)]) == Fields(fs) + Field(key, value)
  {
    assert (fs + [(key, value)])[..|fs|] == fs;
  }

  /** `query.push(format!("{key}={}", urlencode(v)))` for a value that may be absent: one more field is printed
      behind the ones before it. */
  method PushField(ghost fs: Params, query: seq<string>, key: string, value: Option<string>)
    returns (ghost fs': Params, r: seq<string>)
    requires query == Fields(fs)
    ensures fs' == fs + [(key, value)]
    ensures r == Fields(fs + [(key, value)])
  {
    FieldsWithLast(fs, key, value);
    fs' := fs + [(key, value)];
    r := query;
    match value {
      case None => assert query + [] == query;
      case Some(v) => r := r + [key + "=" + Urlencode(v)];
    }
  }

  /** The words that the printers write without encoding them. */
  predicate IsPlainWord(v: string) {
    v == "tls" || v == "ws" || v == "grpc" || v == "httpupgrade"
    || v == "bbr" || v == "native" || v == "1"
  }

  lemma PlainWordStays(v: string)
    requires IsPlainWord(v)
    ensures Urlencode(v) == v
  {
    UnreservedStays(v);
  }

  /** `query.push("key=value")` for a value that is printed as it is. */
  method PushPlain(ghost fs: Params, query: seq<string>, key: string, value: Option<string>)
    returns (ghost fs': Params, r: seq<string>)
    requires query == Fields(fs)
    requires value.Some? ==> IsPlainWord(value.value)
    ensures fs' == fs + [(key, value)]
    ensures r == Fields(fs + [(key, value)])
  {
    FieldsWithLast(fs, key, value);
    fs' := fs + [(key, value)];
    r := query;
    match value {
      case None => assert query + [] == query;
      case Some(v) =>
        PlainWordStays(v);
        r := r + [key + "=" + v];
    }
  }

  // ---------- printing into one growing text ----------

  /** The text so far: a head, then the fields printed so far, of which there is at least one. */
  ghost predicate IsQueryText(out: string, head: string, fs: Params) {
    Fields(fs) != [] && out == head + Text.Join(Fields(fs), "&")
  }

  lemma QueryTextWithLast(out: string, head: string, fs: Params, key: string, value: Option<string>)
    requires IsQueryText(out, head, fs)
    ensures IsQueryText(
              out + match value case None => "" case Some(v) => "&" + (key + "=" + Urlencode(v)),
              head, fs + [(key, value)])
  {
    FieldsWithLast(fs, key, value);
    match value {
      case None =>
        assert Fields(fs) + [] == Fields(fs);
        assert out + "" == out;
      case Some(v) =>
        Text.JoinWithLast(Fields(fs), key + "=" + Urlencode(v), "&");
    }
  }

  /** `out.push_str(&format!("&{key}={}", urlencode(v)))` for a value that may be absent. */
  method AppendField(ghost head: string, ghost fs: Params, out: string, key: string, value: Option<string>)
    returns (r: string)
    requires IsQueryText(out, head, fs)
    ensures IsQueryText(r, head, fs + [(key, value)])
  {
    QueryTextWithLast(out, head, fs, key, value);
    r := out;
    match value {
      case None => assert out + "" == out;
      case Some(v) => r := r + ("&" + (key + "=" + Urlencode(v)));
    }
  }

  /** `out.push_str("&key=value")` for a value that is printed as it is. */
  method AppendPlain(ghost head: string, ghost fs: Params, out: string, key: string, value: Option<string>)
    returns (r: string)
    requires IsQueryText(out, head, fs)
    requires value.Some? ==> IsPlainWord(value.value)
    ensures IsQueryText(r, head, fs + [(key, value)])
  {
    QueryTextWithLast(out, head, fs, key, value);
    r := out;
    match value {
      case None => assert out + "" == out;
      case Some(v) =>
        PlainWordStays(v);
        r := r + ("&" + (key + "=" + v));
    }
  }
}
