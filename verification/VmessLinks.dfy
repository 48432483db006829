/** What vmess links say (crates/proxy-core/src/protocols/vmess.rs): any JSON value, with texts, numbers and booleans
    under the keys. */
module VmessLinks {
  import opened Wrappers
  import opened Library
  import opened Links
  import opened Model
  import opened Uri
  import Base64
  import Query
  import Text
  import Vmess

  // ---------- texts, numbers, booleans ----------

  lemma GetOfEqual(v: Json, w: Json)
    requires forall key :: Vmess.Get(v, key) == Vmess.Get(w, key)
    ensures Vmess.NodeOfJson(v) == Vmess.NodeOfJson(w)
  {
  }

  /** A number counts as its text, under every key. */
  lemma NumberIsText(m: map<string, Field>, k: string, s: string)
    ensures Vmess.NodeOfJson(JsonObject(m[k := NumberField(s)])) == Vmess.NodeOfJson(JsonObject(m[k := TextField(s)]))
  {
    GetOfEqual(JsonObject(m[k := NumberField(s)]), JsonObject(m[k := TextField(s)]));
  }

  /** So does a boolean. */
  lemma BoolIsText(m: map<string, Field>, k: string, b: bool)
    ensures Vmess.NodeOfJson(JsonObject(m[k := BoolField(b)])) ==
            Vmess.NodeOfJson(JsonObject(m[k := TextField(if b then "true" else "false")]))
  {
    GetOfEqual(JsonObject(m[k := BoolField(b)]), JsonObject(m[k := TextField(if b then "true" else "false")]));
  }

  /** Null, an array or an object counts as nothing. */
  lemma OtherIsNothing(m: map<string, Field>, k: string)
    ensures Vmess.NodeOfJson(JsonObject(m[k := OtherField])) == Vmess.NodeOfJson(JsonObject(m - {k}))
  {
    GetOfEqual(JsonObject(m[k := OtherField]), JsonObject(m - {k}));
  }

  /** A value that is no object has no keys. */
  lemma NoObjectIsEmpty()
    ensures Vmess.NodeOfJson(OtherJson) == Vmess.NodeOfJson(JsonObject(map[]))
  {
    GetOfEqual(OtherJson, JsonObject(map[]));
  }

  // ---------- objects of texts ----------

  function Look(t: map<string, string>, key: string): Option<string> {
    if key in t then Some(t[key]) else None
  }

  /** The names between the commas of a text, without the empty ones. */
  ghost predicate AreFilledNamesOf(names: seq<string>, text: Option<string>) {
    exists all :: AreNamesOf(all, text) && IsFilled(names, all)
  }

  /** The non-empty ones of the names, in order. */
  predicate IsFilled(names: seq<string>, all: seq<string>) {
    if all == [] then names == []
    else if all[0] == "" then IsFilled(names, all[1..])
    else names != [] && names[0] == all[0] && IsFilled(names[1..], all[1..])
  }

  predicate IsYes(text: Option<string>) {
    text == Some("1") || text == Some("true")
  }

  predicate WantsTls(t: map<string, string>) {
    Look(t, "tls") in {Some("tls"), Some("xtls"), Some("reality")} || Look(t, "security") == Some("tls")
  }

  /** Empty texts for server name and fingerprint count as absent; the host stands in for an absent server name, even if
      it is empty. */
  ghost predicate IsTlsOf(tls: TlsSettings, t: map<string, string>) {
    && tls.enabled
    && tls.sni == (if Look(t, "sni").GetOr("") != "" then Look(t, "sni") else Look(t, "host"))
    && AreFilledNamesOf(tls.alpn, Look(t, "alpn"))
    && (tls.insecure <==> IsYes(Look(t, "allowInsecure")))
    && tls.fingerprint == (if Look(t, "fp").GetOr("") != "" then Look(t, "fp") else None)
  }

  ghost predicate HasPort(text: Option<string>, port: Port) {
    text.Some? && IsPortText(text.value, port)
  }

  /** The node that an object of texts describes. */
  ghost predicate IsVmessOf(n: ProxyNode, t: map<string, string>, port: Port) {
    && n == ProxyNode(Look(t, "ps").GetOr(""), Protocol.Vmess, Look(t, "add").GetOr(""), port, None, None,
                      Look(t, "id"), n.alterId, n.tls, n.transport)
    && (match n.alterId
        case Some(id) => HasPort(Look(t, "aid"), id)
        case None => forall id :: !HasPort(Look(t, "aid"), id))
    && (n.tls.Some? <==> WantsTls(t))
    && (n.tls.Some? ==> IsTlsOf(n.tls.value, t))
    && IsTransport(n.transport, Look(t, "net"), Look(t, "path").GetOr(""), Look(t, "host"), {"httpupgrade", "http"})
  }

  lemma GetOfTexts(t: map<string, string>, key: string)
    ensures Vmess.Get(JsonObject(AsTexts(t)), key) == Look(t, key)
  {
  }

  lemma PortIsText(text: Option<string>)
    ensures forall port: Port :: HasPort(text, port) <==> Vmess.ReadPort(text) == Some(port)
  {
    if text.Some? {
      forall port: Port
        ensures IsPortText(text.value, port) <==> ParsePort(text.value) == Some(port)
      {
        ParsePortExactly(text.value, port);
      }
    }
  }

  lemma {:induction false} FilledExactly(all: seq<string>)
    ensures IsFilled(Vmess.FilledAll(all), all)
  {
    if all != [] {
      FilledExactly(all[1..]);
      var names := Vmess.FilledAll(all);
      if all[0] == "" {
        assert names == Vmess.FilledAll(all[1..]);
      } else {
        assert names[1..] == Vmess.FilledAll(all[1..]);
      }
    }
  }

  lemma NamesExactly(text: Option<string>)
    ensures AreFilledNamesOf(Vmess.ReadAlpn(text), text)
  {
    var all := Query.Alpn(text);
    assert AreNamesOf(all, text);
    FilledExactly(all);
    assert Vmess.ReadAlpn(text) == Vmess.FilledAll(all);
  }

  lemma TransportExactly(net: Option<string>, path: string, host: Option<string>)
    ensures IsTransport(Vmess.ReadNet(net.GetOr("tcp"), path, host), net, path, host, {"httpupgrade", "http"})
  {
    TransportOf(net, path, host);
  }

  lemma TlsExactly(t: map<string, string>)
    ensures var tls := Vmess.ReadTls(JsonObject(AsTexts(t)));
            && (tls.Some? <==> WantsTls(t))
            && (tls.Some? ==> IsTlsOf(tls.value, t))
  {
    GetOfTexts(t, "tls");
    GetOfTexts(t, "security");
    GetOfTexts(t, "sni");
    GetOfTexts(t, "host");
    GetOfTexts(t, "alpn");
    GetOfTexts(t, "allowInsecure");
    GetOfTexts(t, "fp");
    NamesExactly(Look(t, "alpn"));
  }

  /** Every object of texts: without `add`, or without the text of a port, an error; otherwise the node that the texts
      describe. */
  lemma TextsRead(t: map<string, string>)
    ensures var r := Vmess.NodeOfJson(JsonObject(AsTexts(t)));
            if "add" !in t then r == Failed(MissingField("add"))
            else if forall port :: !HasPort(Look(t, "port"), port) then r == Failed(InvalidPort)
            else r.Done? && HasPort(Look(t, "port"), r.value.port) && IsVmessOf(r.value, t, r.value.port)
  {
    GetOfTexts(t, "add");
    GetOfTexts(t, "port");
    GetOfTexts(t, "ps");
    GetOfTexts(t, "id");
    GetOfTexts(t, "aid");
    GetOfTexts(t, "net");
    GetOfTexts(t, "path");
    GetOfTexts(t, "host");
    PortIsText(Look(t, "port"));
    PortIsText(Look(t, "aid"));
    TlsExactly(t);
    TransportExactly(Look(t, "net"), Look(t, "path").GetOr(""), Look(t, "host"));
  }

  /** The payload of a link is the base64 of JSON text. */
  lemma PayloadRead(lib: Library, payload: string)
    ensures Vmess.VmessNode(lib, "vmess://" + payload) ==
            match Base64.DecodeUrlString(payload)
            case Err(e) => Failed(e)
            case Ok(text) =>
              match lib.parseJson(text)
              case None => Failed(InvalidUri("vmess://" + payload))
              case Some(v) => Vmess.NodeOfJson(v)
  {
    Text.DropPrefix("vmess://", payload);
  }
}
