/** The query fields that trojan and vless print alike. */
module TlsQuery {
  import opened Wrappers
  import opened Model
  import opened Query
  import opened QueryWalk

  /** TLS on or off, server name, fingerprint, protocol names. */
  function TlsFields(n: ProxyNode): Params {
    [("security", if IsTlsOn(n) then Some("tls") else None),
     ("sni", Sni(n)),
     ("fp", Fingerprint(n)),
     ("alpn", AlpnValue(AlpnOf(n)))]
  }

  function TypeFields(w: TransportText): Params {
    [("type", if w.net == "tcp" then None else Some(w.net))]
  }

  function HostFields(w: TransportText): Params {
    [("host", NonEmpty(w.host)), ("path", NonEmpty(w.path))]
  }

  lemma TlsIsPrintable(n: ProxyNode)
    ensures ArePrintable(TlsFields(n))
  {
  }

  lemma TypeIsPrintable(w: TransportText)
    ensures ArePrintable(TypeFields(w))
  {
  }

  lemma HostIsPrintable(n: ProxyNode, w: TransportText)
    ensures ArePrintable(HostFields(w))
    ensures OtherKeys(TlsFields(n), HostFields(w)) && OtherKeys(TypeFields(w), HostFields(w))
    ensures OtherKeys(TlsFields(n), TypeFields(w)) && OtherKeys(TypeFields(w), TlsFields(n))
  {
  }

  method PushTls(ghost fs: Params, query: seq<string>, n: ProxyNode) returns (r: seq<string>)
    requires query == Fields(fs)
    ensures r == Fields(fs + TlsFields(n))
  {
    ghost var fs0, fs1, fs2, fs3, fs4 := AddTls(fs, n);
    ghost var fs';
    fs', r := PushPlain(fs0, query, "security", if IsTlsOn(n) then Some("tls") else None);
    fs', r := PushField(fs1, r, "sni", Sni(n));
    fs', r := PushField(fs2, r, "fp", Fingerprint(n));
    fs', r := PushField(fs3, r, "alpn", AlpnValue(AlpnOf(n)));
  }

  method PushType(ghost fs: Params, query: seq<string>, w: TransportText) returns (r: seq<string>)
    requires query == Fields(fs)
    requires w.net == "tcp" || IsPlainWord(w.net)
    ensures r == Fields(fs + TypeFields(w))
  {
    ghost var fs' := fs;
    fs', r := PushPlain(fs', query, "type", if w.net == "tcp" then None else Some(w.net));
  }

  method PushHost(ghost fs: Params, query: seq<string>, w: TransportText) returns (r: seq<string>)
    requires query == Fields(fs)
    ensures r == Fields(fs + HostFields(w))
  {
    ghost var fs' := fs;
    fs', r := PushField(fs', query, "host", NonEmpty(w.host));
    fs', r := PushField(fs', r, "path", NonEmpty(w.path));
    assert fs' == fs + HostFields(w);
  }

  method AppendTls(ghost head: string, ghost fs: Params, out: string, n: ProxyNode) returns (r: string)
    requires IsQueryText(out, head, fs)
    ensures IsQueryText(r, head, fs + TlsFields(n))
  {
    ghost var fs0, fs1, fs2, fs3, fs4 := AddTls(fs, n);
    r := AppendPlain(head, fs0, out, "security", if IsTlsOn(n) then Some("tls") else None);
    r := AppendField(head, fs1, r, "sni", Sni(n));
    r := AppendField(head, fs2, r, "fp", Fingerprint(n));
    r := AppendField(head, fs3, r, "alpn", AlpnValue(AlpnOf(n)));
  }

  /** The TLS fields behind others, one at a time. */
  lemma AddTls(fs: Params, n: ProxyNode) returns (fs0: Params, fs1: Params, fs2: Params, fs3: Params, fs4: Params)
    ensures fs0 == fs
    ensures fs1 == fs0 + [("security", if IsTlsOn(n) then Some("tls") else None)]
    ensures fs2 == fs1 + [("sni", Sni(n))]
    ensures fs3 == fs2 + [("fp", Fingerprint(n))]
    ensures fs4 == fs3 + [("alpn", AlpnValue(AlpnOf(n)))] == fs + TlsFields(n)
  {
    fs0 := fs;
    fs1 := fs0 + [("security", if IsTlsOn(n) then Some("tls") else None)];
    fs2 := fs1 + [("sni", Sni(n))];
    fs3 := fs2 + [("fp", Fingerprint(n))];
    fs4 := fs3 + [("alpn", AlpnValue(AlpnOf(n)))];
  }

  method AppendHost(ghost head: string, ghost fs: Params, out: string, w: TransportText) returns (r: string)
    requires IsQueryText(out, head, fs)
    ensures IsQueryText(r, head, fs + HostFields(w))
  {
    r := AppendField(head, fs, out, "host", NonEmpty(w.host));
    r := AppendField(head, fs + [("host", NonEmpty(w.host))], r, "path", NonEmpty(w.path));
    assert fs + [("host", NonEmpty(w.host))] + [("path", NonEmpty(w.path))] == fs + HostFields(w);
  }

  /** What the loop of the reader leaves in its locals when it walks a printed query. */
  function PrintedLocals(n: ProxyNode, w: TransportText): Locals {
    Locals(
      if IsTlsOn(n) then "tls" else "", Sni(n), Fingerprint(n), w.net, w.path, NonEmpty(w.host),
      Alpn(AlpnValue(AlpnOf(n))), false)
  }

  ghost predicate HasFields(fs: Params, n: ProxyNode, w: TransportText) {
    && ("security", if IsTlsOn(n) then Some("tls") else None) in fs
    && ("sni", Sni(n)) in fs
    && ("fp", Fingerprint(n)) in fs
    && ("alpn", AlpnValue(AlpnOf(n))) in fs
    && ("type", if w.net == "tcp" then None else Some(w.net)) in fs
    && ("host", NonEmpty(w.host)) in fs
    && ("path", NonEmpty(w.path)) in fs
    && forall i :: 0 <= i < |fs| ==> fs[i].0 != "allowInsecure"
  }

  /** What the pieces of a query say, key by key. */
  predicate SaysTls(ps: seq<string>, n: ProxyNode) {
    && Last(ps, {"security"}) == (if IsTlsOn(n) then Some("tls") else None)
    && Last(ps, {"sni"}) == Sni(n)
    && Last(ps, {"fp"}) == Fingerprint(n)
    && Last(ps, {"alpn"}) == AlpnValue(AlpnOf(n))
    && Last(ps, {"allowInsecure"}) == None
  }

  predicate SaysTransport(ps: seq<string>, w: TransportText) {
    && Last(ps, {"type"}) == (if w.net == "tcp" then None else Some(w.net))
    && Last(ps, {"host"}) == NonEmpty(w.host)
    && Last(ps, {"path"}) == NonEmpty(w.path)
  }

  lemma FieldsSayTls(fs: Params, n: ProxyNode, w: TransportText)
    requires ArePrintable(fs) && HasFields(fs, n, w)
    ensures SaysTls(Pieces(JoinPieces(Fields(fs))), n)
  {
    RecoverField(fs, "security", if IsTlsOn(n) then Some("tls") else None);
    RecoverField(fs, "sni", Sni(n));
    RecoverField(fs, "fp", Fingerprint(n));
    RecoverField(fs, "alpn", AlpnValue(AlpnOf(n)));
    RecoverNothing(fs, "allowInsecure");
  }

  lemma FieldsSayTransport(fs: Params, n: ProxyNode, w: TransportText)
    requires ArePrintable(fs) && HasFields(fs, n, w)
    ensures SaysTransport(Pieces(JoinPieces(Fields(fs))), w)
  {
    RecoverField(fs, "type", if w.net == "tcp" then None else Some(w.net));
    RecoverField(fs, "host", NonEmpty(w.host));
    RecoverField(fs, "path", NonEmpty(w.path));
  }

  lemma WalkedOf(ps: seq<string>, n: ProxyNode, w: TransportText)
    requires SaysTls(ps, n) && SaysTransport(ps, w)
    ensures Walked(ps) == PrintedLocals(n, w)
  {
  }

  /** The reader's loop recovers exactly what was printed, whatever the order of the fields. */
  lemma WalkOfFields(fs: Params, n: ProxyNode, w: TransportText)
    requires ArePrintable(fs) && HasFields(fs, n, w)
    ensures Walked(Pieces(JoinPieces(Fields(fs)))) == PrintedLocals(n, w)
  {
    FieldsSayTls(fs, n, w);
    FieldsSayTransport(fs, n, w);
    WalkedOf(Pieces(JoinPieces(Fields(fs))), n, w);
  }
}
