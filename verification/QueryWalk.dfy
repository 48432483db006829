/** The loop over the query that `parse_trojan` and `parse_vless` both run: eight mutable locals, one per key,
    overwritten in the order of the pieces. */
module QueryWalk {
  import opened Wrappers
  import opened Query
  import Text

  datatype Locals = Locals(
    security: string, sni: Option<string>, fp: Option<string>, net: string, path: string, host: Option<string>,
    alpn: seq<string>, insecure: bool)

  /** What the locals hold after the loop: for each key, what its last piece says. */
  function Walked(ps: seq<string>): Locals {
    Locals(
      Last(ps, {"security"}).GetOr(""), Last(ps, {"sni"}), Last(ps, {"fp"}), Last(ps, {"type"}).GetOr("tcp"),
      Last(ps, {"path"}).GetOr(""), Last(ps, {"host"}), Alpn(Last(ps, {"alpn"})),
      Truthy(Last(ps, {"allowInsecure"})))
  }

  lemma WalkedStep(ps: seq<string>, i: nat)
    requires i < |ps|
    ensures var w := Walked(ps[..i]);
            Walked(ps[..i + 1]) ==
            match Text.SplitOnce(ps[i], '=')
            case None => w
            case Some((k, raw)) =>
              var v := DecodeOrEmpty(raw);
              if k == "security" then w.(security := v)
              else if k == "sni" then w.(sni := Some(v))
              else if k == "fp" then w.(fp := Some(v))
              else if k == "type" then w.(net := v)
              else if k == "path" then w.(path := v)
              else if k == "host" then w.(host := Some(v))
              else if k == "alpn" then w.(alpn := Text.Split(v, ','))
              else if k == "allowInsecure" then w.(insecure := v == "1" || v == "true")
              else w
  {
    LastStep(ps, i, {"security"});
    LastStep(ps, i, {"sni"});
    LastStep(ps, i, {"fp"});
    LastStep(ps, i, {"type"});
    LastStep(ps, i, {"path"});
    LastStep(ps, i, {"host"});
    LastStep(ps, i, {"alpn"});
    LastStep(ps, i, {"allowInsecure"});
  }

  method WalkQuery(ps: seq<string>) returns (r: Locals)
    ensures r == Walked(ps)
  {
    var security, sni, fp, net, path, host, alpn, insecure :=
      "", None, None, "tcp", "", None, [], false;
    for i := 0 to |ps|
      invariant Locals(security, sni, fp, net, path, host, alpn, insecure) == Walked(ps[..i])
    {
      WalkedStep(ps, i);
      match Text.SplitOnce(ps[i], '=') {
        case None =>
        case Some((k, raw)) =>
          var v := DecodeOrEmpty(raw);
          if k == "security" { security := v; }
          else if k == "sni" { sni := Some(v); }
          else if k == "fp" { fp := Some(v); }
          else if k == "type" { net := v; }
          else if k == "path" { path := v; }
          else if k == "host" { host := Some(v); }
          else if k == "alpn" { alpn := Text.Split(v, ','); }
          else if k == "allowInsecure" { insecure := v == "1" || v == "true"; }
      }
    }
    assert ps[..|ps|] == ps;
    return Locals(security, sni, fp, net, path, host, alpn, insecure);
  }
}
