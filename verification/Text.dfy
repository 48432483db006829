/** The operations of Rust's `str` that the codecs are built from. A `string` of Dafny is a sequence of
    Unicode scalar values, which is what a Rust `str` holds; every delimiter the code looks for is ASCII. */
module Text {
  import opened Wrappers

  // ---------- find, rfind, split_once ----------

  /** `s.find(c)` */
  function Find(s: string, c: char): (r: Option<nat>)
    ensures r.Some? ==> r.value < |s| && s[r.value] == c && c !in s[..r.value]
    ensures r.None? ==> c !in s
  {
    if s == [] then None
    else if s[0] == c then Some(0)
    else match Find(s[1..], c)
         case None => None
         case Some(i) =>
           assert s[..i + 1] == [s[0]] + s[1..][..i];
           Some(i + 1)
  }

  /** `s.rfind(c)` */
  function FindLast(s: string, c: char): (r: Option<nat>)
    ensures r.Some? ==> r.value < |s| && s[r.value] == c && c !in s[r.value + 1..]
    ensures r.None? ==> c !in s
  {
    if s == [] then None
    else if s[|s| - 1] == c then Some(|s| - 1)
    else match FindLast(s[..|s| - 1], c)
         case None => None
         case Some(i) =>
           assert s[i + 1..] == s[..|s| - 1][i + 1..] + [s[|s| - 1]];
           Some(i)
  }

  lemma FindAt(a: string, c: char, b: string)
    requires c !in a
    ensures Find(a + [c] + b, c) == Some(|a|)
    ensures (a + [c] + b)[..|a|] == a && (a + [c] + b)[|a| + 1..] == b
  {
    var s := a + [c] + b;
    assert s[|a|] == c;
    assert s[..|a|] == a;
  }

  lemma FindLastAt(a: string, c: char, b: string)
    requires c !in b
    ensures FindLast(a + [c] + b, c) == Some(|a|)
    ensures (a + [c] + b)[..|a|] == a && (a + [c] + b)[|a| + 1..] == b
  {
    var s := a + [c] + b;
    assert s[|a|] == c;
    assert s[|a| + 1..] == b;
  }

  /** `s.split_once(c)` */
  function SplitOnce(s: string, c: char): Option<(string, string)> {
    match Find(s, c)
    case None => None
    case Some(i) => Some((s[..i], s[i + 1..]))
  }

  // ---------- split and join ----------

  /** No part holds the character. */
  ghost predicate Free(parts: seq<string>, c: char) {
    forall i :: 0 <= i < |parts| ==> c !in parts[i]
  }

  /** `s.split(c)`, collected. */
  function Split(s: string, c: char): (r: seq<string>)
    ensures |r| >= 1
    ensures Free(r, c)
    ensures Join(r, [c]) == s
    decreases |s|
  {
    match Find(s, c)
    case None => [s]
    case Some(i) =>
      assert s == s[..i] + [c] + s[i + 1..];
      [s[..i]] + Split(s[i + 1..], c)
  }

  /** `parts.join(sep)` */
  function Join(parts: seq<string>, sep: string): string {
    if parts == [] then ""
    else if |parts| == 1 then parts[0]
    else parts[0] + sep + Join(parts[1..], sep)
  }

  /** Splitting undoes joining when no part holds the delimiter. */
  lemma {:induction false} SplitOfJoin(parts: seq<string>, c: char)
    requires |parts| >= 1
    requires Free(parts, c)
    ensures Split(Join(parts, [c]), c) == parts
  {
    if |parts| > 1 {
      var rest := Join(parts[1..], [c]);
      FindAt(parts[0], c, rest);
      assert Join(parts, [c]) == parts[0] + [c] + rest;
      SplitOfJoin(parts[1..], c);
      assert parts == [parts[0]] + parts[1..];
    } else {
      assert Find(parts[0], c).None?;
      assert parts == [parts[0]];
    }
  }

  /** A character of a joined text comes from a part or from the separator. */
  lemma {:induction false} JoinChars(parts: seq<string>, sep: string, c: char)
    requires c !in sep
    requires Free(parts, c)
    ensures c !in Join(parts, sep)
  {
    if |parts| > 1 {
      JoinChars(parts[1..], sep, c);
    }
  }

  lemma {:induction false} JoinWithLast(parts: seq<string>, last: string, sep: string)
    requires parts != []
    ensures Join(parts + [last], sep) == Join(parts, sep) + sep + last
  {
    var all := parts + [last];
    assert all[1..] == parts[1..] + [last];
    if |parts| == 1 {
      assert Join(all[1..], sep) == last;
    } else {
      JoinWithLast(parts[1..], last, sep);
      assert Join(all, sep) == parts[0] + sep + (Join(parts[1..], sep) + sep + last);
    }
  }

  // ---------- lines ----------

  /** One trailing carriage return, removed by `lines` in front of a line feed. */
  function StripCr(s: string): string {
    if |s| > 0 && s[|s| - 1] == '\r' then s[..|s| - 1] else s
  }

  /** `s.lines()`, collected. A last line without a line feed keeps its carriage return. */
  function Lines(s: string): seq<string>
    decreases |s|
  {
    if s == [] then []
    else match Find(s, '\n')
         case None => [s]
         case Some(i) => [StripCr(s[..i])] + Lines(s[i + 1..])
  }

  /** A text that `lines` gives back unchanged. */
  predicate IsLine(l: string) {
    l != "" && '\n' !in l && l[|l| - 1] != '\r'
  }

  lemma LinesStep(l: string, rest: string)
    requires IsLine(l)
    ensures Lines(l + ['\n'] + rest) == [l] + Lines(rest)
  {
    FindAt(l, '\n', rest);
  }

  lemma {:induction false} LinesOfJoin(ls: seq<string>)
    requires forall i :: 0 <= i < |ls| ==> IsLine(ls[i])
    ensures Lines(Join(ls, "\n")) == ls
  {
    if |ls| == 1 {
      assert Find(ls[0], '\n').None?;
      assert ls == [ls[0]];
    } else if |ls| > 1 {
      LinesStep(ls[0], Join(ls[1..], "\n"));
      LinesOfJoin(ls[1..]);
      assert ls == [ls[0]] + ls[1..];
    }
  }

  /** Lines, each with the end that it is written with. */
  function Written(ls: seq<string>, ends: seq<string>): string
    requires |ls| == |ends|
  {
    if ls == [] then "" else ls[0] + ends[0] + Written(ls[1..], ends[1..])
  }

  /** A line and its end: a line feed, alone or behind a carriage return that is not part of the line; or nothing,
      behind a last line that is not empty and keeps its carriage return. */
  predicate IsEnded(l: string, end: string, isLast: bool) {
    && '\n' !in l
    && match end
       case "\n" => l == "" || l[|l| - 1] != '\r'
       case "\r\n" => true
       case _ => end == "" && isLast && l != ""
  }

  ghost predicate AreEnded(ls: seq<string>, ends: seq<string>) {
    |ls| == |ends| && forall i :: 0 <= i < |ls| ==> IsEnded(ls[i], ends[i], i == |ls| - 1)
  }

  /** A line, whatever it is written with, comes first. */
  lemma FirstLine(l: string, end: string, rest: string)
    requires IsEnded(l, end, true) && (end == "" ==> rest == "")
    ensures Lines(l + end + rest) == [l] + Lines(rest)
  {
    if end == "\n" {
      FindAt(l, '\n', rest);
      assert l + end + rest == l + ['\n'] + rest;
    } else if end == "\r\n" {
      FindAt(l + "\r", '\n', rest);
      assert l + end + rest == (l + "\r") + ['\n'] + rest;
      assert StripCr(l + "\r") == l;
    } else {
      assert l + end + rest == l;
    }
  }

  /** Every text of lines, empty ones included, is cut into its lines, whatever mixture of line ends it is written
      with. */
  lemma {:induction false} LinesOfWritten(ls: seq<string>, ends: seq<string>)
    requires AreEnded(ls, ends)
    ensures Lines(Written(ls, ends)) == ls
  {
    if ls != [] {
      RestIsEnded(ls, ends);
      LinesOfWritten(ls[1..], ends[1..]);
      FirstLine(ls[0], ends[0], Written(ls[1..], ends[1..]));
    }
  }

  lemma RestIsEnded(ls: seq<string>, ends: seq<string>)
    requires AreEnded(ls, ends) && ls != []
    ensures AreEnded(ls[1..], ends[1..]) && IsEnded(ls[0], ends[0], true)
    ensures ends[0] == "" ==> Written(ls[1..], ends[1..]) == ""
  {
    assert ends[0] == "" ==> |ls| == 1;
  }

  lemma Prepend(l: string, end: string, ls: seq<string>, ends: seq<string>)
    requires AreEnded(ls, ends) && IsEnded(l, end, false)
    ensures AreEnded([l] + ls, [end] + ends)
    ensures Written([l] + ls, [end] + ends) == l + end + Written(ls, ends)
  {
    assert ([l] + ls)[1..] == ls && ([end] + ends)[1..] == ends;
  }

  /** The end that a line feed behind `head` makes. */
  lemma EndOfHead(head: string) returns (end: string)
    requires '\n' !in head
    ensures IsEnded(StripCr(head), end, false) && head + "\n" == StripCr(head) + end
  {
    if head != "" && head[|head| - 1] == '\r' {
      end := "\r\n";
      assert head == StripCr(head) + "\r";
    } else {
      end := "\n";
    }
  }

  lemma LineFeedAt(s: string, i: nat)
    requires i < |s| && s[i] == '\n'
    ensures s == s[..i] + "\n" + s[i + 1..]
  {
  }

  lemma LastEnd(s: string) returns (ends: seq<string>)
    requires '\n' !in s
    ensures AreEnded(Lines(s), ends) && Written(Lines(s), ends) == s
  {
    ends := if s == "" then [] else [""];
    assert s + "" + "" == s;
  }

  /** Every text is written like that. */
  lemma {:induction false} EndsOfLines(s: string) returns (ends: seq<string>)
    ensures AreEnded(Lines(s), ends) && Written(Lines(s), ends) == s
    decreases |s|
  {
    match Find(s, '\n') {
      case None =>
        ends := LastEnd(s);
      case Some(i) =>
        var rest := EndsOfLines(s[i + 1..]);
        var end := EndOfHead(s[..i]);
        Prepend(StripCr(s[..i]), end, Lines(s[i + 1..]), rest);
        ends := [end] + rest;
        LineFeedAt(s, i);
    }
  }

  /** The lines of a text are the ones that it is written with, and no others. */
  lemma LinesExactly(s: string, ls: seq<string>)
    ensures Lines(s) == ls <==> exists ends :: AreEnded(ls, ends) && Written(ls, ends) == s
  {
    if Lines(s) == ls {
      var ends := EndsOfLines(s);
    }
    if ends :| AreEnded(ls, ends) && Written(ls, ends) == s {
      LinesOfWritten(ls, ends);
    }
  }

  // ---------- trimming ----------

  /** The Unicode property White_Space, which `trim` uses. */
  predicate IsWhitespace(c: char) {
    || '\t' <= c <= '\r'
    || c == ' '
    || c == '\U{0085}' || c == '\U{00A0}' || c == '\U{1680}'
    || '\U{2000}' <= c <= '\U{200A}'
    || c == '\U{2028}' || c == '\U{2029}' || c == '\U{202F}' || c == '\U{205F}' || c == '\U{3000}'
  }

  /** `s.trim_start()` */
  function TrimStart(s: string): string {
    if s != [] && IsWhitespace(s[0]) then TrimStart(s[1..]) else s
  }

  /** `s.trim_end()` */
  function TrimEnd(s: string): string {
    if s != [] && IsWhitespace(s[|s| - 1]) then TrimEnd(s[..|s| - 1]) else s
  }

  /** `s.trim()` */
  function Trim(s: string): string {
    TrimEnd(TrimStart(s))
  }

  /** The code points with the Unicode property White_Space. */
  const WHITE_SPACE: set<int> := {
    9, 10, 11, 12, 13, 32, 0x85, 0xA0, 0x1680, 0x2000, 0x2001, 0x2002, 0x2003, 0x2004, 0x2005, 0x2006, 0x2007, 0x2008,
    0x2009, 0x200A, 0x2028, 0x2029, 0x202F, 0x205F, 0x3000}

  predicate IsBlank(s: string) {
    forall i :: 0 <= i < |s| ==> s[i] as int in WHITE_SPACE
  }

  /** A text without white space at its ends. */
  predicate IsTrimmed(s: string) {
    s == "" || (s[0] as int !in WHITE_SPACE && s[|s| - 1] as int !in WHITE_SPACE)
  }

  lemma WhitespaceExactly(c: char)
    ensures IsWhitespace(c) <==> c as int in WHITE_SPACE
  {
  }

  lemma {:induction false} BlankStart(blank: string, s: string)
    requires IsBlank(blank)
    ensures TrimStart(blank + s) == TrimStart(s)
  {
    if blank == "" {
      assert blank + s == s;
    } else {
      WhitespaceExactly(blank[0]);
      assert (blank + s)[1..] == blank[1..] + s;
      BlankStart(blank[1..], s);
    }
  }

  lemma {:induction false} BlankEnd(s: string, blank: string)
    requires IsBlank(blank)
    ensures TrimEnd(s + blank) == TrimEnd(s)
  {
    if blank == "" {
      assert s + blank == s;
    } else {
      var init := blank[..|blank| - 1];
      WhitespaceExactly(blank[|blank| - 1]);
      assert (s + blank)[..|s + blank| - 1] == s + init;
      BlankEnd(s, init);
    }
  }

  lemma {:induction false} TrimmedInFront(s: string, blank: string)
    requires s != "" && IsTrimmed(s) && IsBlank(blank)
    ensures TrimStart(s + blank) == s + blank && TrimEnd(s) == s
  {
    WhitespaceExactly(s[0]);
    WhitespaceExactly(s[|s| - 1]);
  }

  lemma {:induction false} BlankOnly(blank: string)
    requires IsBlank(blank)
    ensures TrimStart(blank) == ""
  {
    if blank != "" {
      WhitespaceExactly(blank[0]);
      BlankOnly(blank[1..]);
    }
  }

  /** White space around a trimmed text is all that `trim` takes away. */
  lemma TrimExactly(before: string, s: string, after: string)
    requires IsBlank(before) && IsTrimmed(s) && IsBlank(after)
    ensures Trim(before + s + after) == s
  {
    assert before + s + after == before + (s + after);
    BlankStart(before, s + after);
    if s == "" {
      assert s + after == after;
      BlankOnly(after);
    } else {
      TrimmedInFront(s, after);
      BlankEnd(s, after);
    }
  }

  lemma TrimTwice(before: string, s: string, after: string)
    requires IsBlank(before) && IsBlank(after)
    ensures Trim(before + s + after) == Trim(s)
  {
    assert before + s + after == before + (s + after);
    BlankStart(before, s + after);
    TrimStartOf(s, after);
  }

  lemma {:induction false} TrimStartOf(s: string, after: string)
    requires IsBlank(after)
    ensures TrimEnd(TrimStart(s + after)) == TrimEnd(TrimStart(s))
  {
    if s == "" {
      assert s + after == after;
      BlankOnly(after);
    } else if IsWhitespace(s[0]) {
      assert (s + after)[1..] == s[1..] + after;
      TrimStartOf(s[1..], after);
    } else {
      assert (s + after)[0] == s[0];
      BlankEnd(s, after);
    }
  }

  /** `s.trim_start_matches(c)` */
  function TrimStartMatches(s: string, c: char): (r: string)
    ensures |r| <= |s| && r == s[|s| - |r|..]
    ensures r == [] || r[0] != c
  {
    if s != [] && s[0] == c then TrimStartMatches(s[1..], c) else s
  }

  /** `s.trim_end_matches(c)` */
  function TrimEndMatches(s: string, c: char): (r: string)
    ensures |r| <= |s| && r == s[..|r|]
    ensures r == [] || r[|r| - 1] != c
  {
    if s != [] && s[|s| - 1] == c then TrimEndMatches(s[..|s| - 1], c) else s
  }

  // ---------- ASCII case ----------

  function LowerChar(c: char): char {
    if 'A' <= c <= 'Z' then (c as int + 32) as char else c
  }

  /** `s.to_ascii_lowercase()` */
  function ToLower(s: string): (r: string)
    ensures |r| == |s|
  {
    seq(|s|, i requires 0 <= i < |s| => LowerChar(s[i]))
  }

  lemma ToLowerChars(s: string, c: char)
    requires c !in s && !('a' <= c <= 'z')
    ensures c !in ToLower(s)
  {
  }

  lemma ToLowerTwice(s: string)
    ensures ToLower(ToLower(s)) == ToLower(s)
  {
  }

  /** The same text up to the case of its letters, the second one in lower case. */
  predicate IsCaseOf(s: string, lower: string) {
    |s| == |lower| && forall i :: 0 <= i < |s| ==>
      s[i] == lower[i] || ('a' <= lower[i] <= 'z' && s[i] as int + 32 == lower[i] as int)
  }

  predicate IsLower(s: string) {
    forall i :: 0 <= i < |s| ==> !('A' <= s[i] <= 'Z')
  }

  lemma LowerOfCase(s: string, lower: string)
    requires IsCaseOf(s, lower) && IsLower(lower)
    ensures ToLower(s) == lower
  {
  }

  // ---------- substrings ----------

  /** `t` stands in `s` at position `i`. */
  predicate At(s: string, t: string, i: nat) {
    i + |t| <= |s| && s[i..i + |t|] == t
  }

  /** `s.find(t)`: the first position where `t` stands. */
  function FindText(s: string, t: string): (r: Option<nat>)
    ensures r.Some? ==> At(s, t, r.value) && forall j: nat :: j < r.value ==> !At(s, t, j)
    ensures r.None? ==> forall j: nat :: !At(s, t, j)
  {
    FindTextFrom(s, t, 0)
  }

  function FindTextFrom(s: string, t: string, from: nat): (r: Option<nat>)
    ensures r.Some? ==> from <= r.value && At(s, t, r.value)
    ensures r.Some? ==> forall j: nat :: from <= j < r.value ==> !At(s, t, j)
    ensures r.None? ==> forall j: nat :: from <= j ==> !At(s, t, j)
    decreases |s| - from
  {
    if from + |t| > |s| then None
    else if At(s, t, from) then Some(from)
    else if from == |s| then None
    else FindTextFrom(s, t, from + 1)
  }

  lemma DropPrefix(p: string, rest: string)
    ensures p <= p + rest && (p + rest)[|p|..] == rest
  {
  }

  lemma CharOfPart(s: string, t: string, i: nat, k: nat)
    requires At(s, t, i) && k < |t|
    ensures t[k] in s
  {
    assert s[i..i + |t|][k] == s[i + k];
  }

  lemma CharOfPrefix(s: string, t: string, k: nat)
    requires t <= s && k < |t|
    ensures t[k] in s
  {
    assert s[k] == t[k];
  }

  /** A text without one of the characters of `t` neither holds `t` nor starts with it. */
  lemma Missing(s: string, t: string, k: nat)
    requires k < |t| && t[k] !in s
    ensures !Contains(s, t) && !(t <= s)
  {
    if Contains(s, t) {
      CharOfPart(s, t, FindText(s, t).value, k);
    }
    if t <= s {
      CharOfPrefix(s, t, k);
    }
  }

  /** `s.contains(t)` */
  predicate Contains(s: string, t: string) {
    FindText(s, t).Some?
  }
}
