/** Shadowsocks links as they are written by hand and by other programs (crates/proxy-core/src/protocols/ss.rs). */
module SsLinks {
  import opened Wrappers
  import opened Model
  import opened Percent
  import opened Uri
  import Base64
  import Ss
  import Text
  import Utf8

  /** The methods that a plain link may name, in lower case. */
  const PLAIN_METHODS: set<string> := {
    "aes-256-gcm", "aes-128-gcm", "chacha20-ietf-poly1305", "aes-128-cfb", "aes-192-cfb", "aes-256-cfb",
    "chacha20-ietf", "salsa20", "rc4-md5", "2022-blake3-aes-256-gcm", "2022-blake3-aes-128-gcm",
    "2022-blake3-chacha20-poly1305", "none", "plain"}

  /** A link behind its scheme: slashes may stand behind the port, and then a plugin. */
  function LinkText(user: string, hostport: string, slashes: string, plugin: Option<string>, name: Option<string>):
    string
  {
    user + "@" + (hostport + slashes) + Tagged('?', plugin) + Tagged('#', name)
  }

  ghost predicate IsLink(user: string, hostport: string, slashes: string, plugin: Option<string>) {
    && '#' !in user && '?' !in user && '#' !in hostport && '?' !in hostport && '@' !in hostport
    && (forall i :: 0 <= i < |slashes| ==> slashes[i] == '/')
    && (plugin.Some? ==> '#' !in plugin.value)
  }

  lemma {:induction false} DropSlashes(s: string, slashes: string)
    requires forall i :: 0 <= i < |slashes| ==> slashes[i] == '/'
    ensures Text.TrimEndMatches(s + slashes, '/') == Text.TrimEndMatches(s, '/')
  {
    if slashes == "" {
      assert s + slashes == s;
    } else {
      var init := slashes[..|slashes| - 1];
      assert (s + slashes)[..|s + slashes| - 1] == s + init;
      DropSlashes(s, init);
    }
  }

  /** A host and port end with a digit. */
  lemma EndsWithDigit(hostport: string, server: string, port: Port)
    requires IsHostPort(hostport, server, port)
    ensures Text.TrimEndMatches(hostport, '/') == hostport
  {
    var text :| IsHostAndPort(hostport, server, text) && IsPortText(text, port);
    assert text != "" && hostport[|hostport| - 1] == text[|text| - 1];
    assert text[|text| - 1] == ShowNat(port)[|ShowNat(port)| - 1] && text[|text| - 1] in ShowNat(port);
  }

  lemma SplitLink(user: string, hostport: string, slashes: string, plugin: Option<string>, name: Option<string>)
    requires IsLink(user, hostport, slashes, plugin)
    ensures Ss.SplitSs(LinkText(user, hostport, slashes, plugin, name)) ==
            Ss.SsParts(user, Text.TrimEndMatches(hostport, '/'), name)
  {
    SplitAround(user, hostport + slashes, plugin, name);
    DropSlashes(hostport, slashes);
  }

  lemma SplitAround(user: string, host: string, plugin: Option<string>, name: Option<string>)
    requires '#' !in user && '?' !in user && '#' !in host && '?' !in host && '@' !in host
    requires plugin.Some? ==> '#' !in plugin.value
    ensures Ss.SplitSs(user + "@" + host + Tagged('?', plugin) + Tagged('#', name)) ==
            Ss.SsParts(user, Text.TrimEndMatches(host, '/'), name)
  {
    var authority := user + ['@'] + host;
    CutPrinted(authority + Tagged('?', plugin), '#', name);
    CutPrinted(authority, '?', plugin);
    Text.FindLastAt(user, '@', host);
  }

  /** The link is read as soon as its user information is. */
  lemma ReadsParts(
    user: string, hostport: string, server: string, port: Port, slashes: string, plugin: Option<string>,
    name: Option<string>)
    requires IsLink(user, hostport, slashes, plugin) && IsHostPort(hostport, server, port)
    ensures Ss.SsNode("ss://" + LinkText(user, hostport, slashes, plugin, name)) ==
            Ss.NodeWithSecret(name.GetOr(""), server, port, Ss.ReadUserinfo(user))
  {
    var rest := LinkText(user, hostport, slashes, plugin, name);
    Text.DropPrefix("ss://", rest);
    SplitLink(user, hostport, slashes, plugin, name);
    EndsWithDigit(hostport, server, port);
    HostPortExactly(hostport, server, port);
  }

  /** A node that only has what a Shadowsocks link says. */
  function SsOf(name: Option<string>, server: string, port: Port, crypto: Crypto, password: string): ProxyNode {
    ProxyNode(name.GetOr(""), Protocol.Ss, server, port, Some(crypto), Some(password), None, None, None, None)
  }

  lemma CutAtColon(a: string, b: string)
    requires ':' !in a
    ensures Text.SplitOnce(a + ":" + b, ':') == Some((a, b))
  {
    Text.FindAt(a, ':', b);
    assert a + ":" + b == a + [':'] + b;
  }

  lemma PlainUserinfo(method_: string, lower: string, code: string)
    requires Text.IsCaseOf(method_, lower) && lower in PLAIN_METHODS
    ensures Ss.ReadUserinfo(method_ + ":" + code) ==
            match PercentDecode(code)
            case Err(e) => Err(e)
            case Ok(password) => Ok((if lower in METHODS then METHODS[lower] else Raw(lower), password))
  {
    PlainNames(lower);
    WordHasNoColon(method_, lower);
    Text.LowerOfCase(method_, lower);
    assert Ss.IsKnownMethod(method_);
    ParseCryptoExactly(method_, lower);
    CutAtColon(method_, code);
  }

  predicate IsWord(s: string) {
    forall i :: 0 <= i < |s| ==> 'a' <= s[i] <= 'z' || '0' <= s[i] <= '9' || s[i] == '-'
  }

  lemma PlainNames(lower: string)
    requires lower in PLAIN_METHODS
    ensures IsWord(lower)
  {
    AesNames();
    StreamNames();
    BlakeNames();
  }

  lemma AesNames()
    ensures IsWord("aes-256-gcm") && IsWord("aes-128-gcm")
    ensures IsWord("aes-128-cfb") && IsWord("aes-192-cfb") && IsWord("aes-256-cfb")
  {
  }

  lemma StreamNames()
    ensures IsWord("chacha20-ietf-poly1305") && IsWord("chacha20-ietf") && IsWord("salsa20") && IsWord("rc4-md5")
    ensures IsWord("none") && IsWord("plain")
  {
  }

  lemma BlakeNames()
    ensures IsWord("2022-blake3-aes-256-gcm") && IsWord("2022-blake3-aes-128-gcm")
    ensures IsWord("2022-blake3-chacha20-poly1305")
  {
  }

  lemma WordHasNoColon(method_: string, lower: string)
    requires Text.IsCaseOf(method_, lower) && IsWord(lower)
    ensures Text.IsLower(lower) && ':' !in method_
  {
  }

  /** A plain link: each of the methods, in any letter case, a password in any percent-encoding, and whatever stands
      behind the port. A password that cannot be decoded is reported. */
  lemma PlainLink(
    method_: string, lower: string, code: string, hostport: string, server: string, port: Port, slashes: string,
    plugin: Option<string>, name: Option<string>)
    requires Text.IsCaseOf(method_, lower) && lower in PLAIN_METHODS
    requires IsLink(method_ + ":" + code, hostport, slashes, plugin) && IsHostPort(hostport, server, port)
    ensures Ss.SsNode("ss://" + LinkText(method_ + ":" + code, hostport, slashes, plugin, name)) ==
            match PercentDecode(code)
            case Err(e) => Failed(e)
            case Ok(password) =>
              Done(SsOf(name, server, port, if lower in METHODS then METHODS[lower] else Raw(lower), password))
  {
    PlainUserinfo(method_, lower, code);
    ReadsParts(method_ + ":" + code, hostport, server, port, slashes, plugin, name);
  }

  lemma EncodedUserinfo(
    user: string, before: string, body: string, pad: string, after: string, method_: string, lower: string,
    password: string)
    requires Base64.IsCodeOf(user, before, body, pad, after, Utf8.Encode(method_ + ":" + password))
    requires Text.IsCaseOf(method_, lower) && Text.IsLower(lower) && ':' !in method_
    ensures Ss.ReadUserinfo(user) ==
            if Utf8.Size(user) <= 4194304 then Ok((if lower in METHODS then METHODS[lower] else Raw(lower), password))
            else Err(InvalidBase64(user))
  {
    var secret := method_ + ":" + password;
    Base64.ReadsWrittenText(user, before, body, pad, after, Utf8.Encode(secret));
    ParseCryptoExactly(method_, lower);
    CutAtColon(method_, password);
    Base64.CodeHasNoColon(user, before, body, pad, after, Utf8.Encode(secret));
    SecretIsUnique(user, secret);
  }

  lemma SecretIsUnique(user: string, secret: string)
    requires forall t :: Base64.DecodeUrlString(user) == Ok(t) <==>
                         Utf8.Size(user) <= 4194304 && Utf8.Encode(t) == Utf8.Encode(secret)
    requires Base64.DecodeUrlString(user).Err? ==> Base64.DecodeUrlString(user).error == InvalidBase64(user)
    ensures Base64.DecodeUrlString(user) ==
            if Utf8.Size(user) <= 4194304 then Ok(secret) else Err(InvalidBase64(user))
  {
    assert Base64.DecodeUrlString(user) == Ok(secret) <==> Utf8.Size(user) <= 4194304;
  }

  /** An encoded link: any method without a colon, known or not, in any form of base64. */
  lemma EncodedLink(
    user: string, before: string, body: string, pad: string, after: string, method_: string, lower: string,
    password: string, hostport: string, server: string, port: Port, slashes: string, plugin: Option<string>,
    name: Option<string>)
    requires Base64.IsCodeOf(user, before, body, pad, after, Utf8.Encode(method_ + ":" + password))
    requires Text.IsCaseOf(method_, lower) && Text.IsLower(lower) && ':' !in method_
    requires IsLink(user, hostport, slashes, plugin) && IsHostPort(hostport, server, port)
    ensures Ss.SsNode("ss://" + LinkText(user, hostport, slashes, plugin, name)) ==
            if Utf8.Size(user) <= 4194304 then
              Done(SsOf(name, server, port, if lower in METHODS then METHODS[lower] else Raw(lower), password))
            else Failed(InvalidBase64(user))
  {
    EncodedUserinfo(user, before, body, pad, after, method_, lower, password);
    ReadsParts(user, hostport, server, port, slashes, plugin, name);
  }

  lemma UnknownUserinfo(method_: string, lower: string, code: string)
    requires Text.IsCaseOf(method_, lower) && Text.IsLower(lower) && lower !in PLAIN_METHODS && ':' !in method_
    ensures Ss.ReadUserinfo(method_ + ":" + code) == Err(InvalidBase64(method_ + ":" + code))
  {
    var user := method_ + ":" + code;
    Text.LowerOfCase(method_, lower);
    assert !Ss.IsKnownMethod(method_);
    CutAtColon(method_, code);
    assert user[|method_|] == ':';
    Base64.StrangeIsRefused(user, ':');
  }

  /** Any other text with a colon is refused: it names no method of the list, and it is no base64. */
  lemma UnknownMethodIsRefused(
    method_: string, lower: string, code: string, hostport: string, server: string, port: Port, slashes: string,
    plugin: Option<string>, name: Option<string>)
    requires Text.IsCaseOf(method_, lower) && Text.IsLower(lower) && lower !in PLAIN_METHODS && ':' !in method_
    requires IsLink(method_ + ":" + code, hostport, slashes, plugin) && IsHostPort(hostport, server, port)
    ensures Ss.SsNode("ss://" + LinkText(method_ + ":" + code, hostport, slashes, plugin, name)) ==
            Failed(InvalidBase64(method_ + ":" + code))
  {
    UnknownUserinfo(method_, lower, code);
    ReadsParts(method_ + ":" + code, hostport, server, port, slashes, plugin, name);
  }
}
