/** What the core takes from libraries and from parts that this model leaves out: JSON, YAML, and the five
    protocols that a v2ray subscription does not carry. */
module Library {
  import opened Wrappers
  import opened Model

  /** A member of a JSON object; null, arrays and objects are all `OtherField`. */
  datatype Field = TextField(text: string) | NumberField(text: string) | BoolField(value: bool) | OtherField

  datatype Json = JsonObject(fields: map<string, Field>) | OtherJson

  datatype Library = Library(
    /** `serde_json::from_str`, when it succeeds */
    parseJson: string -> Option<Json>,
    /** `serde_json::to_string` of an object of strings */
    printJson: map<string, string> -> string,
    /** the parsers of socks5, http, hysteria, hysteria2 and wireguard */
    parseOther: (Protocol, string) -> Outcome<ProxyNode>,
    /** `parse_clash_yaml`, when it succeeds */
    parseYaml: string -> Option<seq<ProxyNode>>)

  function AsTexts(m: map<string, string>): map<string, Field> {
    map k | k in m :: TextField(m[k])
  }

  predicate IsOther(kind: Protocol) {
    kind in {Socks5, Http, Hysteria, Hysteria2, Wireguard}
  }

  /** What is relied on: an object of strings is read back from its text, and the other parsers return nodes of
      their own kind. */
  ghost predicate Lawful(lib: Library) {
    && (forall m :: lib.parseJson(lib.printJson(m)) == Some(JsonObject(AsTexts(m))))
    && (forall kind, uri :: IsOther(kind) && lib.parseOther(kind, uri).Done? ==>
          lib.parseOther(kind, uri).value.kind == kind)
  }
}
