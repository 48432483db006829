/** What trojan, vless and tuic links say (crates/proxy-core/src/protocols/trojan.rs, vless.rs, tuic.rs): not only the
    links that the printers write, but every link, with its fields in any order, repeated, unknown or left out. */
module Links {
  import opened Wrappers
  import opened Model
  import opened Percent
  import opened Query
  import opened QueryWalk
  import opened Uri
  import Text
  import Trojan
  import Tuic
  import Vless

  // ---------- links ----------

  /** A link behind its scheme. */
  function LinkText(user: string, hostport: string, pieces: seq<string>, name: Option<string>): string {
    user + "@" + hostport + Tagged('?', JoinPieces(pieces)) + Tagged('#', name)
  }

  /** Texts that can stand between two `&` of a query. */
  ghost predicate ArePieces(pieces: seq<string>) {
    Text.Free(pieces, '&') && Text.Free(pieces, '#') && Text.Free(pieces, '@')
  }

  ghost predicate IsLink(user: string, hostport: string, pieces: seq<string>) {
    && '#' !in user && '#' !in hostport && '@' !in hostport && '?' !in hostport
    && ArePieces(pieces)
  }

  lemma SplitLink(user: string, hostport: string, pieces: seq<string>, name: Option<string>)
    requires IsLink(user, hostport, pieces)
    ensures SplitUri(LinkText(user, hostport, pieces, name)) == UriParts(user, hostport, JoinPieces(pieces), name)
    ensures Pieces(JoinPieces(pieces)) == pieces
  {
    if pieces != [] {
      Text.JoinChars(pieces, "&", '#');
      Text.JoinChars(pieces, "&", '@');
      Text.SplitOfJoin(pieces, '&');
    }
    SplitPrinted(user, hostport, JoinPieces(pieces), name);
  }

  // ---------- what the fields say ----------

  /** The names between the commas of a text. */
  ghost predicate AreNamesOf(names: seq<string>, text: Option<string>) {
    match text
    case None => names == []
    case Some(t) => names != [] && Text.Free(names, ',') && Text.Join(names, ",") == t
  }

  ghost predicate SaysNames(pieces: seq<string>, keys: set<string>, names: seq<string>) {
    exists text :: Says(pieces, keys, text) && AreNamesOf(names, text)
  }

  ghost predicate SaysYes(pieces: seq<string>, keys: set<string>) {
    Says(pieces, keys, Some("1")) || Says(pieces, keys, Some("true"))
  }

  /** The TLS settings of trojan and vless: the server name is the `sni`, or else the `host`. */
  ghost predicate SaysTls(pieces: seq<string>, tls: TlsSettings) {
    && tls.enabled
    && (if Says(pieces, {"sni"}, None) then Says(pieces, {"host"}, tls.sni) else Says(pieces, {"sni"}, tls.sni))
    && SaysNames(pieces, {"alpn"}, tls.alpn)
    && (tls.insecure <==> SaysYes(pieces, {"allowInsecure"}))
    && Says(pieces, {"fp"}, tls.fingerprint)
  }

  /** The transport that a word stands for; `upgrades` are the words for an HTTP upgrade. A service name is the path
      without the slashes in front. Any other word, or none, is no transport. */
  ghost predicate IsTransport(t: Option<Transport>, net: Option<string>, path: string, host: Option<string>,
                              upgrades: set<string>) {
    if net == Some("ws") || net == Some("websocket") then
      t == Some(Transport(Some(Websocket(path, host, map[])), None, None))
    else if net == Some("grpc") then
      && t.Some? && t.value.grpc.Some? && t == Some(Transport(None, t.value.grpc, None))
      && var service := t.value.grpc.value.serviceName;
      && |service| <= |path| && service == path[|path| - |service|..] && IsSlashes(path[..|path| - |service|])
      && (service == "" || service[0] != '/')
    else if net.Some? && net.value in upgrades then
      t == Some(Transport(None, None, Some(HttpUpgrade(path, host))))
    else t == None
  }

  ghost predicate SaysTransport(pieces: seq<string>, t: Option<Transport>) {
    exists net, path, host ::
      SaysFields(pieces, net, path, host) && IsTransport(t, net, path.GetOr(""), host, {"httpupgrade"})
  }

  ghost predicate SaysFields(
    pieces: seq<string>, net: Option<string>, path: Option<string>, host: Option<string>)
  {
    Says(pieces, {"type"}, net) && Says(pieces, {"path"}, path) && Says(pieces, {"host"}, host)
  }

  predicate IsSlashes(s: string) {
    forall i :: 0 <= i < |s| ==> s[i] == '/'
  }

  // ---------- what the readers make of them ----------

  lemma FoundNames(pieces: seq<string>, key: string)
    requires '=' !in key
    ensures SaysNames(pieces, {key}, Alpn(Last(pieces, {key})))
  {
    LastExactly(pieces, {key}, Last(pieces, {key}));
    assert AreNamesOf(Alpn(Last(pieces, {key})), Last(pieces, {key}));
  }

  /** The TLS settings that trojan and vless collect. */
  function Collected(pieces: seq<string>): TlsSettings {
    TlsSettings(true, OrElse(Last(pieces, {"sni"}), Last(pieces, {"host"})), Alpn(Last(pieces, {"alpn"})),
                Truthy(Last(pieces, {"allowInsecure"})), Last(pieces, {"fp"}))
  }

  lemma CollectedIsSaid(pieces: seq<string>)
    ensures SaysTls(pieces, Collected(pieces))
  {
    LastExactly(pieces, {"sni"}, None);
    LastExactly(pieces, {"sni"}, Last(pieces, {"sni"}));
    LastExactly(pieces, {"host"}, Last(pieces, {"host"}));
    LastExactly(pieces, {"fp"}, Last(pieces, {"fp"}));
    LastExactly(pieces, {"allowInsecure"}, Some("1"));
    LastExactly(pieces, {"allowInsecure"}, Some("true"));
    FoundNames(pieces, "alpn");
  }

  lemma {:induction false} OnlySlashesGo(path: string)
    ensures IsSlashes(path[..|path| - |Text.TrimStartMatches(path, '/')|])
  {
    var rest := Text.TrimStartMatches(path, '/');
    if path != "" && path[0] == '/' {
      OnlySlashesGo(path[1..]);
      assert path[..|path| - |rest|][1..] == path[1..][..|path| - 1 - |rest|];
    }
  }

  lemma TransportOf(net: Option<string>, path: string, host: Option<string>)
    ensures IsTransport(ReadTransport(net.GetOr("tcp"), path, host), net, path, host, {"httpupgrade"})
  {
    OnlySlashesGo(path);
  }

  lemma TransportIsSaid(pieces: seq<string>)
    ensures SaysTransport(pieces, ReadTransport(Last(pieces, {"type"}).GetOr("tcp"), Last(pieces, {"path"}).GetOr(""),
                                                Last(pieces, {"host"})))
  {
    var net, path, host := Last(pieces, {"type"}), Last(pieces, {"path"}), Last(pieces, {"host"});
    LastExactly(pieces, {"type"}, net);
    LastExactly(pieces, {"path"}, path);
    LastExactly(pieces, {"host"}, host);
    assert SaysFields(pieces, net, path, host);
    TransportOf(net, path.GetOr(""), host);
  }

  // ---------- trojan ----------

  /** TLS is off exactly when the last `security` is `none`; all else is what the last pieces for the keys say. */
  ghost predicate IsTrojanOf(n: ProxyNode, name: string, server: string, port: Port, password: string,
                             pieces: seq<string>) {
    && n == ProxyNode(name, Protocol.Trojan, server, port, None, Some(password), None, None, n.tls, n.transport)
    && (n.tls == None <==> Says(pieces, {"security"}, Some("none")))
    && (n.tls.Some? ==> SaysTls(pieces, n.tls.value))
    && SaysTransport(pieces, n.transport)
  }

  lemma TrojanNodeSays(name: string, server: string, port: Port, password: string, pieces: seq<string>)
    ensures IsTrojanOf(Trojan.Node(name, server, port, password, Walked(pieces)), name, server, port, password, pieces)
  {
    LastExactly(pieces, {"security"}, Some("none"));
    CollectedIsSaid(pieces);
    TransportIsSaid(pieces);
    assert Trojan.ReadTls(Walked(pieces)) ==
           if Last(pieces, {"security"}) == Some("none") then None else Some(Collected(pieces));
  }

  /** Every trojan link with a password, a host and a port is read as the node that it describes. */
  lemma TrojanLink(
    user: string, password: string, hostport: string, server: string, port: Port, pieces: seq<string>,
    name: Option<string>)
    requires IsLink(user, hostport, pieces) && IsHostPort(hostport, server, port)
    requires PercentDecode(user) == Ok(password) && password != ""
    ensures var r := Trojan.TrojanNode("trojan://" + LinkText(user, hostport, pieces, name));
            r.Done? && IsTrojanOf(r.value, name.GetOr(""), server, port, password, pieces)
  {
    Text.DropPrefix("trojan://", LinkText(user, hostport, pieces, name));
    SplitLink(user, hostport, pieces, name);
    HostPortExactly(hostport, server, port);
    TrojanNodeSays(name.GetOr(""), server, port, password, pieces);
  }

  /** The links that are refused, in the order of the checks. */
  lemma TrojanRefused(user: string, hostport: string, pieces: seq<string>, name: Option<string>)
    requires IsLink(user, hostport, pieces)
    ensures var r := Trojan.TrojanNode("trojan://" + LinkText(user, hostport, pieces, name));
            && (ParseHostPort(hostport).Err? ==> r == Failed(ParseHostPort(hostport).error))
            && (ParseHostPort(hostport).Ok? ==>
                  && (PercentDecode(user).Err? ==> r == Failed(InvalidUri(user)))
                  && (user == "" ==> r == Failed(MissingField("password"))))
  {
    Text.DropPrefix("trojan://", LinkText(user, hostport, pieces, name));
    SplitLink(user, hostport, pieces, name);
    RoundTrip("");
  }

  // ---------- vless ----------

  /** TLS is on exactly for three words. */
  ghost predicate IsVlessOf(n: ProxyNode, name: string, server: string, port: Port, uuid: string,
                            pieces: seq<string>) {
    && n == ProxyNode(name, Protocol.Vless, server, port, None, None, Some(uuid), None, n.tls, n.transport)
    && (n.tls.Some? <==> exists w :: w in {"tls", "reality", "xtls"} && Says(pieces, {"security"}, Some(w)))
    && (n.tls.Some? ==> SaysTls(pieces, n.tls.value))
    && SaysTransport(pieces, n.transport)
  }

  lemma VlessNodeSays(name: string, server: string, port: Port, uuid: string, pieces: seq<string>)
    ensures IsVlessOf(Vless.Node(name, server, port, uuid, Walked(pieces)), name, server, port, uuid, pieces)
  {
    LastExactly(pieces, {"security"}, Last(pieces, {"security"}));
    forall w | Says(pieces, {"security"}, Some(w))
      ensures Last(pieces, {"security"}) == Some(w)
    {
      LastExactly(pieces, {"security"}, Some(w));
    }
    CollectedIsSaid(pieces);
    TransportIsSaid(pieces);
    assert Vless.ReadTls(Walked(pieces)) ==
           if Last(pieces, {"security"}).GetOr("") in {"tls", "reality", "xtls"} then Some(Collected(pieces)) else None;
  }

  /** Every vless link: the user information is the uuid as it stands. */
  lemma VlessLink(
    uuid: string, hostport: string, server: string, port: Port, pieces: seq<string>, name: Option<string>)
    requires IsLink(uuid, hostport, pieces) && IsHostPort(hostport, server, port) && uuid != ""
    ensures var r := Vless.VlessNode("vless://" + LinkText(uuid, hostport, pieces, name));
            r.Done? && IsVlessOf(r.value, name.GetOr(""), server, port, uuid, pieces)
  {
    Text.DropPrefix("vless://", LinkText(uuid, hostport, pieces, name));
    SplitLink(uuid, hostport, pieces, name);
    HostPortExactly(hostport, server, port);
    VlessNodeSays(name.GetOr(""), server, port, uuid, pieces);
  }

  lemma VlessRefused(user: string, hostport: string, pieces: seq<string>, name: Option<string>)
    requires IsLink(user, hostport, pieces)
    ensures var r := Vless.VlessNode("vless://" + LinkText(user, hostport, pieces, name));
            && (ParseHostPort(hostport).Err? ==> r == Failed(ParseHostPort(hostport).error))
            && (ParseHostPort(hostport).Ok? && user == "" ==> r == Failed(MissingField("uuid")))
  {
    Text.DropPrefix("vless://", LinkText(user, hostport, pieces, name));
    SplitLink(user, hostport, pieces, name);
  }

  // ---------- tuic ----------

  /** TLS is always on. */
  ghost predicate IsTuicOf(n: ProxyNode, name: string, server: string, port: Port, uuid: string, password: string,
                           pieces: seq<string>) {
    && n.tls.Some?
    && var tls := n.tls.value;
    && n == ProxyNode(name, Protocol.Tuic, server, port, None, Some(password), Some(uuid), None,
                      Some(TlsSettings(true, tls.sni, tls.alpn, tls.insecure, None)), None)
    && Says(pieces, {"sni"}, tls.sni)
    && SaysNames(pieces, {"alpn"}, tls.alpn)
    && (tls.insecure <==> SaysYes(pieces, {"allow_insecure", "insecure"}))
  }

  lemma TuicNodeSays(name: string, server: string, port: Port, uuid: string, password: string, pieces: seq<string>)
    ensures IsTuicOf(Tuic.Node(name, server, port, uuid, password, Tuic.ReadTls(pieces)),
                     name, server, port, uuid, password, pieces)
  {
    LastExactly(pieces, {"sni"}, Last(pieces, {"sni"}));
    FoundNames(pieces, "alpn");
    LastExactly(pieces, {"allow_insecure", "insecure"}, Some("1"));
    LastExactly(pieces, {"allow_insecure", "insecure"}, Some("true"));
  }

  /** Every tuic link: uuid and password around the first colon. */
  lemma TuicLink(
    uuid: string, code: string, password: string, hostport: string, server: string, port: Port, pieces: seq<string>,
    name: Option<string>)
    requires IsLink(uuid + ":" + code, hostport, pieces) && IsHostPort(hostport, server, port)
    requires ':' !in uuid && PercentDecode(code) == Ok(password)
    ensures var r := Tuic.TuicNode("tuic://" + LinkText(uuid + ":" + code, hostport, pieces, name));
            r.Done? && IsTuicOf(r.value, name.GetOr(""), server, port, uuid, password, pieces)
  {
    var user := uuid + ":" + code;
    Text.DropPrefix("tuic://", LinkText(user, hostport, pieces, name));
    SplitLink(user, hostport, pieces, name);
    HostPortExactly(hostport, server, port);
    Text.FindAt(uuid, ':', code);
    assert user == uuid + [':'] + code;
    TuicNodeSays(name.GetOr(""), server, port, uuid, password, pieces);
  }

  lemma TuicRefused(user: string, hostport: string, pieces: seq<string>, name: Option<string>)
    requires IsLink(user, hostport, pieces)
    ensures var r := Tuic.TuicNode("tuic://" + LinkText(user, hostport, pieces, name));
            && (ParseHostPort(hostport).Err? ==> r == Failed(ParseHostPort(hostport).error))
            && (ParseHostPort(hostport).Ok? && ':' !in user ==> r == Failed(MissingField("uuid")))
  {
    Text.DropPrefix("tuic://", LinkText(user, hostport, pieces, name));
    SplitLink(user, hostport, pieces, name);
  }
}
