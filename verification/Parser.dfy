/** Line dispatch and format sniffing (crates/proxy-core/src/parser.rs). */
module Parser {
  import opened Wrappers
  import opened Library
  import opened LineLoop
  import opened Model
  import Base64
  import Ss
  import Ssr
  import Text
  import Trojan
  import Tuic
  import Utf8
  import Vless
  import Vmess

  // ---------- dispatch ----------

  /** The prefixes of a protocol. */
  predicate HasPrefix(kind: Protocol, l: string) {
    match kind
    case Ss => Ss.SCHEME <= l
    case Ssr => Ssr.SCHEME <= l
    case Vmess => Vmess.SCHEME <= l
    case Vless => Vless.SCHEME <= l
    case Trojan => Trojan.SCHEME <= l
    case Socks5 => "socks5://" <= l
    case Http => "http://" <= l
    case Hysteria2 => "hysteria2://" <= l || "hy2://" <= l
    case Hysteria => "hysteria://" <= l
    case Tuic => Tuic.SCHEME <= l
    case Wireguard => "wireguard://" <= l
  }

  /** The parser of a protocol. */
  function ReadAs(lib: Library, kind: Protocol, l: string): Outcome<ProxyNode> {
    match kind
    case Ss => Ss.SsNode(l)
    case Ssr => Ssr.SsrNode(l)
    case Vmess => Vmess.VmessNode(lib, l)
    case Vless => Vless.VlessNode(l)
    case Trojan => Trojan.TrojanNode(l)
    case Tuic => Tuic.TuicNode(l)
    case _ => lib.parseOther(kind, l)
  }

  /** The protocol that `parse_line` chooses, in the order of its tests. */
  function Dispatch(l: string): Option<Protocol> {
    if HasPrefix(Ss, l) then Some(Ss)
    else if HasPrefix(Ssr, l) then Some(Ssr)
    else if HasPrefix(Vmess, l) then Some(Vmess)
    else if HasPrefix(Vless, l) then Some(Vless)
    else if HasPrefix(Trojan, l) then Some(Trojan)
    else if HasPrefix(Socks5, l) then Some(Socks5)
    else if HasPrefix(Http, l) then Some(Http)
    else if HasPrefix(Hysteria2, l) then Some(Hysteria2)
    else if HasPrefix(Hysteria, l) then Some(Hysteria)
    else if HasPrefix(Tuic, l) then Some(Tuic)
    else if HasPrefix(Wireguard, l) then Some(Wireguard)
    else None
  }

  function ReadDispatched(lib: Library, kind: Option<Protocol>, l: string): Outcome<ProxyNode> {
    match kind case None => Failed(UnsupportedProtocol) case Some(k) => ReadAs(lib, k, l)
  }

  /** `parse_line` */
  function ParseLine(lib: Library, line: string): Outcome<ProxyNode> {
    var l := Text.Trim(line);
    if l == "" then Failed(UnsupportedProtocol) else ReadDispatched(lib, Dispatch(l), l)
  }

  /** The one protocol whose prefix a line could still have, told by single characters. */
  function Tell(l: string): Option<Protocol> {
    if |l| < 5 then None
    else if l[0] == 's' then Some(if l[1] == 'o' then Socks5 else if l[2] == 'r' then Ssr else Ss)
    else if l[0] == 'v' then Some(if l[1] == 'm' then Vmess else Vless)
    else if l[0] == 't' then Some(if l[1] == 'r' then Trojan else Tuic)
    else if l[0] == 'h' then
      Some(if l[1] == 't' then Http
           else if l[2] == '2' || (|l| > 8 && l[8] == '2') then Hysteria2 else Hysteria)
    else Some(Wireguard)
  }

  lemma TellShort(kind: Protocol, l: string)
    requires HasPrefix(kind, l) && kind != Hysteria && kind != Hysteria2
    ensures Tell(l) == Some(kind)
  {
  }

  lemma TellHysteria(kind: Protocol, l: string)
    requires HasPrefix(kind, l) && (kind == Hysteria || kind == Hysteria2)
    ensures Tell(l) == Some(kind)
  {
    assert "hysteria2://" <= l ==> l[8] == '2' && l[0] == 'h' && l[1] == 'y';
    assert "hysteria://" <= l ==> l[8] == ':' && l[2] == 's' && l[0] == 'h' && l[1] == 'y';
    assert "hy2://" <= l ==> l[2] == '2' && l[0] == 'h' && l[1] == 'y';
  }

  /** No text has the prefixes of two protocols. */
  lemma PrefixesExclude(a: Protocol, b: Protocol, l: string)
    requires HasPrefix(a, l) && HasPrefix(b, l)
    ensures a == b
  {
    if a == Hysteria || a == Hysteria2 { TellHysteria(a, l); } else { TellShort(a, l); }
    if b == Hysteria || b == Hysteria2 { TellHysteria(b, l); } else { TellShort(b, l); }
  }

  /** So the order of the tests does not matter: the choice is the one protocol whose prefix matches. */
  lemma DispatchIsOrderFree(kind: Protocol, l: string)
    ensures Dispatch(l) == Some(kind) <==> HasPrefix(kind, l)
  {
    var d := Dispatch(l);
    if HasPrefix(kind, l) {
      assert d.Some? && HasPrefix(d.value, l);
      PrefixesExclude(d.value, kind, l);
    }
  }

  /** A trimmed line is read by the one parser whose prefix it has. */
  lemma ReadByPrefix(lib: Library, kind: Protocol, l: string)
    requires HasPrefix(kind, l) && Text.Trim(l) == l && l != ""
    ensures ParseLine(lib, l) == ReadAs(lib, kind, l)
  {
    DispatchIsOrderFree(kind, l);
  }

  // ---------- lines and whole texts ----------

  function LineReader(lib: Library): Reader {
    line => ParseLine(lib, line)
  }

  /** `parse_lines` */
  function ParseLines(lib: Library, text: string, max: nat): Outcome<Parsed> {
    FirstNodes(LookAll(LineReader(lib), Text.Lines(text)), max)
  }

  /** `parse_v2ray_subscription`: decoded if it can be, without sniffing */
  function ParseV2ray(lib: Library, text: string, max: nat): Outcome<Parsed> {
    match Base64.DecodeUrlString(text)
    case Ok(body) => ParseLines(lib, body, max)
    case Err(_) => ParseLines(lib, text, max)
  }

  predicate IsProxiesLine(line: string) {
    "proxies:" <= Text.TrimStart(line)
  }

  /** Clash YAML is told by a line that starts with `proxies:`. */
  predicate LooksLikeYaml(text: string) {
    var lines := Text.Lines(text);
    exists i :: 0 <= i < |lines| && IsProxiesLine(lines[i])
  }

  /** The decoded text, when the whole text looks like base64 and decodes to something with lines or URIs. */
  function Unwrapped(text: string): Option<string> {
    var trimmed := Text.Trim(text);
    if Text.Contains(trimmed, "://") || Utf8.Size(trimmed) <= 16 then None
    else match Base64.DecodeUrlString(trimmed)
         case Err(_) => None
         case Ok(decoded) => if '\n' in decoded || Text.Contains(decoded, "://") then Some(decoded) else None
  }

  /** `parse_subscription_text` */
  function ParseSubscription(lib: Library, text: string, max: nat): Outcome<Parsed> {
    if LooksLikeYaml(text) then
      match lib.parseYaml(text)
      case Some(nodes) => Done(Parsed(FirstOf(nodes, max), 0))
      case None => ParseLines(lib, text, max)
    else ParseLines(lib, Unwrapped(text).GetOr(text), max)
  }

  /** No branch returns more than `max` nodes, and without YAML the nodes are the first ones of some list of
      lines, all of which are accounted for. */
  lemma NeverTooMany(lib: Library, text: string, max: nat)
    requires ParseSubscription(lib, text, max).Done?
    ensures var p := ParseSubscription(lib, text, max).value;
            && |p.nodes| <= max
            && (LooksLikeYaml(text) && lib.parseYaml(text).Some? ==> p.skipped == 0)
            && (!(LooksLikeYaml(text) && lib.parseYaml(text).Some?) ==>
                  var body := if LooksLikeYaml(text) then text else Unwrapped(text).GetOr(text);
                  var looks := LookAll(LineReader(lib), Text.Lines(body));
                  p.nodes == FirstOf(Nodes(looks), max) && |p.nodes| + p.skipped == Consumed(looks, max))
  {
    if !(LooksLikeYaml(text) && lib.parseYaml(text).Some?) {
      var body := if LooksLikeYaml(text) then text else Unwrapped(text).GetOr(text);
      EveryLineCounts(LookAll(LineReader(lib), Text.Lines(body)), max);
    }
  }

  // ---------- totality ----------

  /** A ShadowsocksR payload whose text has its separator at the very start. */
  predicate IsTrap(l: string) {
    && Ssr.SCHEME <= l
    && var decoded := Base64.DecodeUrlString(l[|Ssr.SCHEME|..]);
    && decoded.Ok?
    && ("/?" <= decoded.value || ("?" <= decoded.value && !Text.Contains(decoded.value, "/?")))
  }

  lemma SsrPanics(l: string)
    ensures Ssr.SsrNode(l).Panic? <==> IsTrap(l)
  {
    if Ssr.SCHEME <= l && Base64.DecodeUrlString(l[|Ssr.SCHEME|..]).Ok? {
      Ssr.PanicsExactly(Base64.DecodeUrlString(l[|Ssr.SCHEME|..]).value);
    }
  }

  lemma CarriedDoNotPanic(lib: Library, kind: Protocol, l: string)
    requires kind != Ssr && !IsOther(kind)
    ensures !ReadAs(lib, kind, l).Panic?
  {
  }

  /** One of the readers that are taken from outside panics on the text. */
  predicate IsOtherTrap(lib: Library, l: string) {
    Dispatch(l).Some? && IsOther(Dispatch(l).value) && lib.parseOther(Dispatch(l).value, l).Panic?
  }

  /** Reading a line panics exactly on the trapped ShadowsocksR payloads, besides panics of the readers that are
      taken from outside: every other slice and index is in range. */
  lemma LinePanicsExactly(lib: Library, line: string)
    ensures ParseLine(lib, line).Panic? <==> IsTrap(Text.Trim(line)) || IsOtherTrap(lib, Text.Trim(line))
  {
    var l := Text.Trim(line);
    DispatchIsOrderFree(Ssr, l);
    SsrPanics(l);
    EmptyIsNoTrap(lib, l);
    if Dispatch(l).Some? && Dispatch(l) != Some(Ssr) && !IsOther(Dispatch(l).value) {
      CarriedDoNotPanic(lib, Dispatch(l).value, l);
    }
  }

  lemma EmptyIsNoTrap(lib: Library, l: string)
    ensures l == "" ==> Dispatch(l) == None && !IsTrap(l)
  {
  }

  /** Reading a list of lines panics exactly when a line that is looked at, and is not too long, is trapped. */
  lemma LinesPanicExactly(lib: Library, text: string, max: nat)
    ensures var lines := Text.Lines(text);
            var k := Consumed(LookAll(LineReader(lib), lines), max);
            ParseLines(lib, text, max).Panic? <==>
            exists i :: 0 <= i < k && IsTrappedLine(lib, lines[i])
  {
    var lines := Text.Lines(text);
    var looks := LookAll(LineReader(lib), lines);
    forall i | 0 <= i < |lines|
      ensures looks[i] == Panicked <==> IsTrappedLine(lib, lines[i])
    {
      LookPanics(lib, lines[i]);
    }
    var seen := looks[..Consumed(looks, max)];
    assert forall i :: 0 <= i < |seen| ==> seen[i] == looks[i];
  }

  /** A line within the size cap that is trapped. */
  predicate IsTrappedLine(lib: Library, line: string) {
    !IsTooLong(line) && (IsTrap(Text.Trim(line)) || IsOtherTrap(lib, Text.Trim(line)))
  }

  lemma LookPanics(lib: Library, line: string)
    ensures LookAt(LineReader(lib), line) == Panicked <==> IsTrappedLine(lib, line)
  {
    LinePanicsExactly(lib, line);
  }
}
