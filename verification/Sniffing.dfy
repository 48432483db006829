/** What any line and any text is taken for (crates/proxy-core/src/parser.rs): the prefixes, white space, long lines,
    YAML, and base64 in all its forms. */
module Sniffing {
  import opened Wrappers
  import opened Library
  import opened LineLoop
  import opened Model
  import opened Parser
  import Base64
  import Text
  import Utf8

  // ---------- one line ----------

  const PREFIXES: map<string, Protocol> := map[
    "ss://" := Ss, "ssr://" := Ssr, "vmess://" := Vmess, "vless://" := Vless, "trojan://" := Trojan,
    "socks5://" := Socks5, "http://" := Http, "hysteria2://" := Hysteria2, "hy2://" := Hysteria2,
    "hysteria://" := Hysteria, "tuic://" := Tuic, "wireguard://" := Wireguard]

  lemma PrefixTable(l: string, kind: Protocol)
    ensures HasPrefix(kind, l) <==> exists p :: p in PREFIXES && PREFIXES[p] == kind && p <= l
  {
    var p := match kind
      case Ss => "ss://"
      case Ssr => "ssr://"
      case Vmess => "vmess://"
      case Vless => "vless://"
      case Trojan => "trojan://"
      case Socks5 => "socks5://"
      case Http => "http://"
      case Hysteria2 => if "hy2://" <= l then "hy2://" else "hysteria2://"
      case Hysteria => "hysteria://"
      case Tuic => "tuic://"
      case Wireguard => "wireguard://";
    assert p in PREFIXES && PREFIXES[p] == kind;
  }

  /** White space around a line does not matter; a line with a prefix of the table is read by the parser of its
      protocol, and any other line is refused. */
  lemma LineExactly(lib: Library, before: string, l: string, after: string)
    requires Text.IsBlank(before) && Text.IsTrimmed(l) && Text.IsBlank(after)
    ensures forall p :: p in PREFIXES && p <= l ==> ParseLine(lib, before + l + after) == ReadAs(lib, PREFIXES[p], l)
    ensures (forall p :: p in PREFIXES ==> !(p <= l)) ==>
              ParseLine(lib, before + l + after) == Failed(UnsupportedProtocol)
  {
    Text.TrimExactly(before, l, after);
    forall p | p in PREFIXES && p <= l
      ensures Dispatch(l) == Some(PREFIXES[p]) && l != ""
    {
      PrefixTable(l, PREFIXES[p]);
      DispatchIsOrderFree(PREFIXES[p], l);
    }
    if Dispatch(l).Some? {
      DispatchIsOrderFree(Dispatch(l).value, l);
      PrefixTable(l, Dispatch(l).value);
    }
  }

  /** Lines of more than 1048576 bytes are skipped unread. */
  lemma LookExactly(lib: Library, line: string)
    ensures LookAt(LineReader(lib), line) ==
            if Utf8.Size(line) > 1048576 then Skipped
            else match ParseLine(lib, line)
                 case Done(n) => Found(n)
                 case Failed(_) => Skipped
                 case Panic => Panicked
  {
  }

  // ---------- Clash YAML ----------

  /** The line starts with `proxies:` behind white space. */
  ghost predicate IsYamlLine(line: string) {
    exists blank, rest :: Text.IsBlank(blank) && line == blank + ("proxies:" + rest)
  }

  lemma {:induction false} SpaceInFront(line: string) returns (blank: string)
    ensures Text.IsBlank(blank) && line == blank + Text.TrimStart(line)
  {
    if line != "" && Text.IsWhitespace(line[0]) {
      var rest := SpaceInFront(line[1..]);
      blank := [line[0]] + rest;
      Text.WhitespaceExactly(line[0]);
      assert line == [line[0]] + line[1..];
    } else {
      blank := "";
    }
  }

  lemma YamlLineExactly(line: string)
    ensures IsProxiesLine(line) <==> IsYamlLine(line)
  {
    if IsProxiesLine(line) {
      var blank := SpaceInFront(line);
      var start := Text.TrimStart(line);
      assert start == "proxies:" + start[8..];
    }
    if IsYamlLine(line) {
      var blank, rest :| Text.IsBlank(blank) && line == blank + ("proxies:" + rest);
      Text.BlankStart(blank, "proxies:" + rest);
      assert ("proxies:" + rest)[0] == 'p';
    }
  }

  /** A text with such a line is handed to the YAML reader, and its nodes are cut at the limit; if that fails, the
      text is read line by line as it is. */
  lemma YamlExactly(lib: Library, text: string, max: nat)
    requires exists i :: 0 <= i < |Text.Lines(text)| && IsYamlLine(Text.Lines(text)[i])
    ensures ParseSubscription(lib, text, max) ==
            match lib.parseYaml(text)
            case Some(nodes) => Done(Parsed(if |nodes| <= max then nodes else nodes[..max], 0))
            case None => ParseLines(lib, text, max)
  {
    var i :| 0 <= i < |Text.Lines(text)| && IsYamlLine(Text.Lines(text)[i]);
    YamlLineExactly(Text.Lines(text)[i]);
  }

  lemma NoYaml(text: string)
    requires forall i :: 0 <= i < |Text.Lines(text)| ==> !IsYamlLine(Text.Lines(text)[i])
    ensures !LooksLikeYaml(text)
  {
    forall i | 0 <= i < |Text.Lines(text)|
      ensures !IsProxiesLine(Text.Lines(text)[i])
    {
      YamlLineExactly(Text.Lines(text)[i]);
    }
  }

  // ---------- base64 ----------

  lemma {:induction false} LinesHold(text: string, c: char)
    requires c !in text
    ensures Text.Free(Text.Lines(text), c)
    decreases |text|
  {
    if text != "" && Text.Find(text, '\n').Some? {
      LinesHold(text[Text.Find(text, '\n').value + 1..], c);
    }
  }

  lemma NoColonNoYaml(text: string)
    requires ':' !in text
    ensures !LooksLikeYaml(text)
  {
    LinesHold(text, ':');
    forall i | 0 <= i < |Text.Lines(text)|
      ensures !IsProxiesLine(Text.Lines(text)[i])
    {
      var line := Text.Lines(text)[i];
      var blank := SpaceInFront(line);
      assert forall j :: 0 <= j < |Text.TrimStart(line)| ==> Text.TrimStart(line)[j] == line[|blank| + j];
      assert "proxies:"[7] == ':';
    }
  }

  /** The decoded text is worth reading. */
  predicate LooksLikeLines(content: string) {
    '\n' in content || exists i: nat :: i <= |content| && Text.At(content, "://", i)
  }

  lemma TrimmedCode(text: string, before: string, body: string, pad: string, after: string, b: Utf8.Bytes)
    requires Base64.IsCodeOf(text, before, body, pad, after, b)
    ensures Text.Trim(text) == body + pad && !Text.Contains(body + pad, "://")
    ensures forall t :: Base64.DecodeUrlString(body + pad) == Ok(t) <==>
                        Utf8.Size(body + pad) <= 4194304 && Utf8.Encode(t) == b
  {
    Base64.DecodeBodyCanonical(body, b);
    Base64.BodyOfSymbols(body, pad);
    Text.TrimExactly(before, body + pad, after);
    assert body + pad == "" + (body + pad) + "";
    Base64.ReadsWrittenText(body + pad, "", body, pad, "", b);
    Base64.CodeHasNoColon(body + pad, "", body, pad, "", b);
    Text.Missing(body + pad, "://", 0);
  }

  lemma UnwrapsExactly(
    text: string, before: string, body: string, pad: string, after: string, b: Utf8.Bytes)
    requires Base64.IsCodeOf(text, before, body, pad, after, b)
    ensures Unwrapped(text) ==
            match Utf8.Decode(b)
            case None => None
            case Some(content) =>
              if 16 < Utf8.Size(body + pad) <= 4194304 && LooksLikeLines(content) then Some(content) else None
  {
    TrimmedCode(text, before, body, pad, after, b);
    if Utf8.Decode(b).Some? {
      Utf8.DecodeOfEncode(Utf8.Decode(b).value);
    }
    forall t | Utf8.Encode(t) == b
      ensures Utf8.Decode(b) == Some(t)
    {
      Utf8.DecodeOfEncode(t);
    }
  }

  /** A text that is base64, in any of its forms: if its trimmed text has more than 16 and at most 4194304 bytes and
      what it encodes is a text with a line feed or with `://`, that text is read line by line; otherwise the base64
      is. */
  lemma EncodedExactly(
    lib: Library, text: string, before: string, body: string, pad: string, after: string, b: Utf8.Bytes, max: nat)
    requires Base64.IsCodeOf(text, before, body, pad, after, b)
    ensures ParseSubscription(lib, text, max) ==
            match Utf8.Decode(b)
            case None => ParseLines(lib, text, max)
            case Some(content) =>
              var isRead := 16 < Utf8.Size(body + pad) <= 4194304 && LooksLikeLines(content);
              ParseLines(lib, if isRead then content else text, max)
  {
    Base64.CodeHasNoColon(text, before, body, pad, after, b);
    NoColonNoYaml(text);
    UnwrapsExactly(text, before, body, pad, after, b);
  }

  /** A text with `://` in it, and no YAML, is read line by line. */
  lemma PlainExactly(lib: Library, text: string, i: nat, max: nat)
    requires Text.At(text, "://", i) && forall j :: 0 <= j < |Text.Lines(text)| ==> !IsYamlLine(Text.Lines(text)[j])
    ensures ParseSubscription(lib, text, max) == ParseLines(lib, text, max)
    ensures ParseV2ray(lib, text, max) == ParseLines(lib, text, max)
  {
    NoYaml(text);
    assert text[i..i + 3][0] == ':' && text[i] == ':';
    assert !Text.IsWhitespace(':') && Base64.Value(':') == None;
    Base64.StrangeIsRefused(text, ':');
    Base64.TrimStartKeeps(text, ':');
    Base64.TrimEndKeeps(Text.TrimStart(text), ':');
    Base64.StrangeIsRefused(Text.Trim(text), ':');
  }
}
