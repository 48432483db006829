/** The lines of nodes that have everything, written out (crates/proxy-core/src/protocols): every field in its place and
    every word that is printed. */
module PrintedLinks {
  import opened Wrappers
  import Library
  import opened Model
  import opened Percent
  import opened Query
  import opened TlsQuery
  import opened Uri
  import Base64
  import Lists
  import Ss
  import Ssr
  import Text
  import Trojan
  import Tuic
  import Utf8
  import V2ray
  import Vless
  import Vmess

  /** One more field of a query. */
  function And(key: string, code: string): string {
    "&" + key + "=" + code
  }

  lemma FirstField(key: string, value: string)
    ensures IsQueryText(key + "=" + Urlencode(value), "", [(key, Some(value))])
  {
    var fs: Params := [(key, Some(value))];
    assert fs[..0] == [];
    assert Fields(fs) == [key + "=" + Urlencode(value)];
  }

  lemma NextField(out: string, fs: Params, key: string, value: string)
    requires IsQueryText(out, "", fs)
    ensures IsQueryText(out + And(key, Urlencode(value)), "", fs + [(key, Some(value))])
  {
    QueryTextWithLast(out, "", fs, key, Some(value));
    assert "&" + (key + "=" + Urlencode(value)) == And(key, Urlencode(value));
  }

  /** A list of values that are all there. */
  function Given(fields: seq<(string, string)>): (fs: Params)
    ensures |fs| == |fields| && forall i :: 0 <= i < |fs| ==> fs[i] == (fields[i].0, Some(fields[i].1))
  {
    seq(|fields|, i requires 0 <= i < |fields| => (fields[i].0, Some(fields[i].1)))
  }

  function QueryOf(fields: seq<(string, string)>): string
    requires fields != []
  {
    var last := fields[|fields| - 1];
    if |fields| == 1 then last.0 + "=" + Urlencode(last.1)
    else QueryOf(fields[..|fields| - 1]) + And(last.0, Urlencode(last.1))
  }

  lemma {:induction false} QueryOfGiven(fields: seq<(string, string)>)
    requires fields != []
    ensures IsQueryText(QueryOf(fields), "", Given(fields))
    ensures JoinPieces(Fields(Given(fields))) == Some(QueryOf(fields))
  {
    var init, last := fields[..|fields| - 1], fields[|fields| - 1];
    if |fields| == 1 {
      assert Given(fields) == [(last.0, Some(last.1))];
      FirstField(last.0, last.1);
    } else {
      QueryOfGiven(init);
      NextField(QueryOf(init), Given(init), last.0, last.1);
      assert Given(fields) == Given(init) + [(last.0, Some(last.1))];
    }
    assert "" + Text.Join(Fields(Given(fields)), "&") == Text.Join(Fields(Given(fields)), "&");
  }

  /** What stands behind the scheme of a full link. */
  function Rest(user: string, server: string, port: Port, fields: seq<(string, string)>, name: string): string
    requires fields != []
  {
    user + "@" + (server + ":" + ShowNat(port)) + ("?" + QueryOf(fields)) + ("#" + name)
  }

  function FullNode(name: string, kind: Protocol, server: string, port: Port, password: Option<string>,
                    uuid: Option<string>, tls: TlsSettings, transport: Option<Transport>): ProxyNode {
    ProxyNode(name, kind, server, port, None, password, uuid, None, Some(tls), transport)
  }

  // ---------- trojan, vless, tuic ----------

  lemma TrojanInFull(name: string, server: string, port: Port, password: string, sni: string, alpn: seq<string>,
                     insecure: bool, fp: string, path: string, host: string)
    requires name != "" && alpn != [] && path != "" && host != ""
    ensures var n := FullNode(name, Protocol.Trojan, server, port, Some(password), None,
                              TlsSettings(true, Some(sni), alpn, insecure, Some(fp)),
                              Some(Transport(Some(Websocket(path, Some(host), map[])), None, None)));
            Trojan.TrojanLine(n) == Ok("trojan://" + Rest(
                                         Urlencode(password), server, port,
                                         [("security", "tls"), ("sni", sni), ("fp", fp), ("alpn", Text.Join(alpn, ",")),
                                          ("type", "ws"), ("host", host), ("path", path)], name))
  {
    var fields := [("security", "tls"), ("sni", sni), ("fp", fp), ("alpn", Text.Join(alpn, ",")),
                   ("type", "ws"), ("host", host), ("path", path)];
    var n := FullNode(name, Protocol.Trojan, server, port, Some(password), None,
                      TlsSettings(true, Some(sni), alpn, insecure, Some(fp)),
                      Some(Transport(Some(Websocket(path, Some(host), map[])), None, None)));
    QueryOfGiven(fields);
    assert Trojan.QueryFields(n) == Given(fields);
  }

  lemma VlessInFull(name: string, server: string, port: Port, uuid: string, sni: string, alpn: seq<string>,
                    insecure: bool, fp: string, service: string)
    requires name != "" && alpn != []
    ensures var n := FullNode(name, Protocol.Vless, server, port, None, Some(uuid),
                              TlsSettings(true, Some(sni), alpn, insecure, Some(fp)),
                              Some(Transport(None, Some(Grpc(service)), None)));
            Vless.VlessLine(n) == Ok("vless://" + Rest(
                                       uuid, server, port,
                                       [("encryption", "none"), ("type", "grpc"), ("security", "tls"), ("sni", sni),
                                        ("fp", fp), ("alpn", Text.Join(alpn, ",")), ("path", "/" + service)], name))
  {
    var fields := [("encryption", "none"), ("type", "grpc"), ("security", "tls"), ("sni", sni),
                   ("fp", fp), ("alpn", Text.Join(alpn, ",")), ("path", "/" + service)];
    var given := Given(fields);
    var n := FullNode(name, Protocol.Vless, server, port, None, Some(uuid),
                      TlsSettings(true, Some(sni), alpn, insecure, Some(fp)),
                      Some(Transport(None, Some(Grpc(service)), None)));
    QueryOfGiven(fields);
    var fs := Vless.QueryFields(n);
    assert fs == given[..6] + [("host", None)] + given[6..];
    EmptyField(given[..6], "host", given[6..]);
    assert given == given[..6] + given[6..];
  }

  lemma {:induction false} FieldsOfConcat(a: Params, b: Params)
    ensures Fields(a + b) == Fields(a) + Fields(b)
  {
    if b == [] {
      assert a + b == a;
    } else {
      var init, last := b[..|b| - 1], b[|b| - 1];
      FieldsOfConcat(a, init);
      assert a + b == (a + init) + [last];
      FieldsWithLast(a + init, last.0, last.1);
      Lists.Associative(Fields(a), Fields(init), Field(last.0, last.1));
    }
  }

  /** An absent value leaves no trace. */
  lemma EmptyField(a: Params, key: string, b: Params)
    ensures Fields(a + [(key, None)] + b) == Fields(a + b)
  {
    FieldsWithLast(a, key, None);
    FieldsOfConcat(a + [(key, None)], b);
    FieldsOfConcat(a, b);
  }

  lemma TuicInFull(name: string, server: string, port: Port, uuid: string, password: string, sni: string,
                   alpn: seq<string>, fp: Option<string>)
    requires name != "" && alpn != []
    ensures var n := FullNode(name, Protocol.Tuic, server, port, Some(password), Some(uuid),
                              TlsSettings(true, Some(sni), alpn, true, fp), None);
            Tuic.TuicLine(n) == Ok("tuic://" + Rest(
                                     uuid + ":" + Urlencode(password), server, port,
                                     [("congestion_control", "bbr"), ("udp_relay_mode", "native"), ("sni", sni),
                                      ("alpn", Text.Join(alpn, ",")), ("allow_insecure", "1")], name))
  {
    var fields := [("congestion_control", "bbr"), ("udp_relay_mode", "native"), ("sni", sni),
                   ("alpn", Text.Join(alpn, ",")), ("allow_insecure", "1")];
    var n := FullNode(name, Protocol.Tuic, server, port, Some(password), Some(uuid),
                      TlsSettings(true, Some(sni), alpn, true, fp), None);
    QueryOfGiven(fields);
    assert Tuic.QueryFields(n) == Given(fields);
  }

  // ---------- Shadowsocks, ShadowsocksR, vmess ----------

  lemma SsInFull(name: string, server: string, port: Port, password: string)
    requires name != ""
    ensures var n := ProxyNode(name, Protocol.Ss, server, port, Some(Plain), Some(password), None, None, None, None);
            Ss.SsLine(n) == Ok("ss://" + (
                                 Base64.Unpadded(Utf8.Encode("plain:" + password), Base64.Standard) + "@"
                                 + (server + ":" + ShowNat(port)) + ("#" + name)))
  {
    assert "plain" + ":" + password == "plain:" + password;
  }

  lemma SsrInFull(name: string, server: string, port: Port, password: string)
    ensures var n :=
              ProxyNode(name, Protocol.Ssr, server, port, Some(Aes256Cfb), Some(password), None, None, None, None);
            var code := Base64.Unpadded(Utf8.Encode(password), Base64.UrlSafe);
            var plain := Text.Join([server, ShowNat(port), "auth_aes128_md5", "aes-256-cfb", "plain", code], ":")
                         + ("/?remarks=" + Base64.Unpadded(Utf8.Encode(name), Base64.UrlSafe));
            Ssr.SsrLine(n) == Ok("ssr://" + Base64.Unpadded(Utf8.Encode(plain), Base64.UrlSafe))
  {
    var remarks := Base64.Unpadded(Utf8.Encode(name), Base64.UrlSafe);
    assert "/?" + ("remarks" + "=" + remarks) == "/?remarks=" + remarks;
  }

  lemma VmessNodeInFull(n: ProxyNode)
    requires n.uuid.Some? && n.alterId.Some?
    ensures Vmess.PrintedOn(n, Vmess.NODE_KEYS) == map[
              "v" := "2", "ps" := n.name, "add" := n.server, "port" := ShowNat(n.port), "id" := n.uuid.value,
              "aid" := ShowNat(n.alterId.value)]
  {
  }

  lemma VmessTransportInFull(n: ProxyNode, path: string, host: string)
    requires host != "" && n.transport == Some(Transport(None, None, Some(HttpUpgrade(path, Some(host)))))
    ensures Vmess.PrintedOn(n, Vmess.TRANSPORT_KEYS) == map[
              "net" := "http", "type" := "none", "path" := path, "host" := host]
  {
  }

  lemma VmessTlsInFull(n: ProxyNode, sni: string, alpn: string, fp: string)
    requires sni != "" && alpn != "" && fp != "" && n.tls.Some?
    requires n.tls == Some(TlsSettings(true, Some(sni), n.tls.value.alpn, true, Some(fp)))
    requires Text.Join(n.tls.value.alpn, ",") == alpn
    ensures Vmess.PrintedOn(n, Vmess.TLS_KEYS) == map[
              "tls" := "tls", "sni" := sni, "alpn" := alpn, "fp" := fp, "allowInsecure" := "1"]
  {
  }

  lemma PrintedOnBoth(n: ProxyNode, a: set<string>, b: set<string>)
    ensures Vmess.PrintedOn(n, a + b) == Vmess.PrintedOn(n, a) + Vmess.PrintedOn(n, b)
  {
  }

  /** The object of a vmess node that has everything. */
  lemma VmessInFull(n: ProxyNode, sni: string, alpn: string, fp: string, path: string, host: string)
    requires n.uuid.Some? && n.alterId.Some?
    requires host != "" && n.transport == Some(Transport(None, None, Some(HttpUpgrade(path, Some(host)))))
    requires sni != "" && alpn != "" && fp != "" && n.tls.Some?
    requires n.tls == Some(TlsSettings(true, Some(sni), n.tls.value.alpn, true, Some(fp)))
    requires Text.Join(n.tls.value.alpn, ",") == alpn
    ensures Vmess.PrintedMap(n) ==
            map["v" := "2", "ps" := n.name, "add" := n.server, "port" := ShowNat(n.port), "id" := n.uuid.value,
                "aid" := ShowNat(n.alterId.value)]
            + map["net" := "http", "type" := "none", "path" := path, "host" := host]
            + map["tls" := "tls", "sni" := sni, "alpn" := alpn, "fp" := fp, "allowInsecure" := "1"]
  {
    VmessNodeInFull(n);
    VmessTransportInFull(n, path, host);
    VmessTlsInFull(n, sni, alpn, fp);
    PrintedOnBoth(n, Vmess.NODE_KEYS, Vmess.TRANSPORT_KEYS);
    PrintedOnBoth(n, Vmess.NODE_KEYS + Vmess.TRANSPORT_KEYS, Vmess.TLS_KEYS);
    AllKeys();
  }

  lemma AllKeys()
    ensures Vmess.KEYS == Vmess.NODE_KEYS + Vmess.TRANSPORT_KEYS + Vmess.TLS_KEYS
  {
  }

  /** The object of a vmess node that has nothing. */
  lemma VmessAlone(n: ProxyNode)
    requires n.uuid == None && n.alterId == None && n.tls == None && n.transport == None
    ensures Vmess.PrintedMap(n) ==
            map["v" := "2", "ps" := n.name, "add" := n.server, "port" := ShowNat(n.port), "id" := "", "aid" := "0"]
            + map["net" := "tcp", "type" := "none", "path" := ""]
            + map["tls" := "none", "allowInsecure" := "0"]
  {
    VmessNodeAlone(n);
    VmessTransportAlone(n);
    VmessTlsAlone(n);
    PrintedOnBoth(n, Vmess.NODE_KEYS, Vmess.TRANSPORT_KEYS);
    PrintedOnBoth(n, Vmess.NODE_KEYS + Vmess.TRANSPORT_KEYS, Vmess.TLS_KEYS);
    AllKeys();
  }

  lemma VmessNodeAlone(n: ProxyNode)
    requires n.uuid == None && n.alterId == None
    ensures Vmess.PrintedOn(n, Vmess.NODE_KEYS) == map[
              "v" := "2", "ps" := n.name, "add" := n.server, "port" := ShowNat(n.port), "id" := "", "aid" := "0"]
  {
    assert ShowNat(0) == "0";
  }

  lemma VmessTransportAlone(n: ProxyNode)
    requires n.transport == None
    ensures Vmess.PrintedOn(n, Vmess.TRANSPORT_KEYS) == map["net" := "tcp", "type" := "none", "path" := ""]
  {
  }

  lemma VmessTlsAlone(n: ProxyNode)
    requires n.tls == None
    ensures Vmess.PrintedOn(n, Vmess.TLS_KEYS) == map["tls" := "none", "allowInsecure" := "0"]
  {
    assert Text.Join([], ",") == "";
  }

  // ---------- little, and nothing ----------

  lemma {:induction false} NothingGiven(fs: Params)
    requires forall i :: 0 <= i < |fs| ==> fs[i].1 == None
    ensures Fields(fs) == []
  {
    if fs != [] {
      NothingGiven(fs[..|fs| - 1]);
    }
  }

  /** Without TLS, transport and name there is nothing behind the port of a trojan link. */
  lemma TrojanAlone(server: string, port: Port, password: string)
    ensures Trojan.TrojanLine(NewNode("", Protocol.Trojan, server, port).(password := Some(password))) ==
            Ok("trojan://" + (Urlencode(password) + "@" + (server + ":" + ShowNat(port)) + "" + ""))
  {
    NothingGiven(Trojan.QueryFields(NewNode("", Protocol.Trojan, server, port).(password := Some(password))));
  }

  /** Absent values behind the given ones leave no trace. */
  lemma NothingBehind(fields: seq<(string, string)>, fs: Params)
    requires fields != [] && |fs| >= |fields| && fs[..|fields|] == Given(fields)
    requires forall i :: |fields| <= i < |fs| ==> fs[i].1 == None
    ensures Tagged('?', JoinPieces(Fields(fs))) == "?" + QueryOf(fields)
  {
    var rest := fs[|fields|..];
    assert fs == Given(fields) + rest;
    NothingGiven(rest);
    FieldsOfConcat(Given(fields), rest);
    assert Fields(Given(fields)) + [] == Fields(Given(fields));
    QueryOfGiven(fields);
  }

  lemma VlessAlone(server: string, port: Port, uuid: string)
    ensures Vless.VlessLine(NewNode("", Protocol.Vless, server, port).(uuid := Some(uuid))) ==
            Ok("vless://" + (uuid + "@" + (server + ":" + ShowNat(port))
                             + ("?" + QueryOf([("encryption", "none")])) + ""))
  {
    NothingBehind([("encryption", "none")],
                  Vless.QueryFields(NewNode("", Protocol.Vless, server, port).(uuid := Some(uuid))));
  }

  lemma TuicAlone(server: string, port: Port)
    ensures Tuic.TuicLine(NewNode("", Protocol.Tuic, server, port)) ==
            Ok("tuic://" + ("" + ":" + Urlencode("") + "@" + (server + ":" + ShowNat(port))
                            + ("?" + QueryOf([("congestion_control", "bbr"), ("udp_relay_mode", "native")])) + ""))
  {
    NothingBehind([("congestion_control", "bbr"), ("udp_relay_mode", "native")],
                  Tuic.QueryFields(NewNode("", Protocol.Tuic, server, port)));
  }

  // ---------- what cannot be printed ----------

  /** A printer refuses the nodes of other protocols, and those that lack what it needs. */
  lemma PrintErrors(lib: Library.Library, n: ProxyNode)
    ensures n.kind != Protocol.Ss ==> Ss.SsLine(n) == Err(UnsupportedKind(n.kind))
    ensures n.kind != Protocol.Ssr ==> Ssr.SsrLine(n) == Err(UnsupportedKind(n.kind))
    ensures n.kind != Protocol.Vmess ==> Vmess.VmessLine(lib, n) == Err(UnsupportedKind(n.kind))
    ensures n.kind != Protocol.Vless ==> Vless.VlessLine(n) == Err(UnsupportedKind(n.kind))
    ensures n.kind != Protocol.Trojan ==> Trojan.TrojanLine(n) == Err(UnsupportedKind(n.kind))
    ensures n.kind != Protocol.Tuic ==> Tuic.TuicLine(n) == Err(UnsupportedKind(n.kind))
    ensures n.crypto == None ==>
              && (n.kind == Protocol.Ss ==> Ss.SsLine(n) == Err(MissingPart("crypto")))
              && (n.kind == Protocol.Ssr ==> Ssr.SsrLine(n) == Err(MissingPart("crypto")))
    ensures n.crypto.Some? && n.password == None ==>
              && (n.kind == Protocol.Ss ==> Ss.SsLine(n) == Err(MissingPart("password")))
              && (n.kind == Protocol.Ssr ==> Ssr.SsrLine(n) == Err(MissingPart("password")))
    ensures n.kind == Protocol.Trojan && n.password == None ==> Trojan.TrojanLine(n) == Err(MissingPart("password"))
    ensures n.kind == Protocol.Vless && n.uuid == None ==> Vless.VlessLine(n) == Err(MissingPart("uuid"))
  {
  }

  // ---------- whole subscriptions ----------

  /** Lines stand one below the other, without a line feed at the end; the wrapped text is padded standard base64. */
  lemma TwoLines(lib: Library.Library, a: ProxyNode, b: ProxyNode)
    requires V2ray.IsCarried(a.kind) && V2ray.IsCarried(b.kind)
    requires V2ray.NodeLine(lib, a).Ok? && V2ray.NodeLine(lib, b).Ok?
    ensures var joined := V2ray.NodeLine(lib, a).value + "\n" + V2ray.NodeLine(lib, b).value;
            && V2ray.PlainText(lib, [a, b]) == Ok(joined)
            && V2ray.V2rayText(lib, [a, b]) == Ok(Base64.Padded(Utf8.Encode(joined)))
  {
    var x, y := V2ray.NodeLine(lib, a).value, V2ray.NodeLine(lib, b).value;
    V2ray.NodeLinesStep(lib, [a, b], 0);
    V2ray.NodeLinesStep(lib, [a, b], 1);
    assert [a, b][..0] == [] && [a, b][..2] == [a, b];
    TwoJoined(x, y);
    Contributes(lib, a, x);
    Contributes(lib, b, y);
    assert [] + [x] == [x] && [x] + [y] == [x, y];
  }

  lemma Contributes(lib: Library.Library, n: ProxyNode, line: string)
    requires V2ray.IsCarried(n.kind) && V2ray.NodeLine(lib, n) == Ok(line)
    ensures V2ray.Contribution(lib, n) == Some(Ok(line))
  {
  }

  lemma TwoJoined(x: string, y: string)
    ensures Text.Join([x, y], "\n") == x + "\n" + y && x + "\n" + y != ""
  {
  }

  /** The line of a vmess node is padded standard base64 of its object. */
  lemma VmessIsPadded(lib: Library.Library, n: ProxyNode)
    requires n.kind == Protocol.Vmess
    ensures Vmess.VmessLine(lib, n) == Ok("vmess://" + Base64.Padded(Utf8.Encode(lib.printJson(Vmess.PrintedMap(n)))))
  {
  }
}
