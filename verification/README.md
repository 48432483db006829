# Verified model of the proxy subscription server

This project models, in Dafny 4.11, the four parts of the repository that carry its hard logic, and proves what they
promise for all inputs, all runs and all interleavings.

**The codec stack** (`Text`, `Utf8`, `Base64`, `Percent`, `Query`, `QueryWalk`, `TlsQuery`, `Uri`, `Model`, one module
for each protocol, `LineLoop`, `Parser`, `V2ray`, `Subscription`, `Tidy`, `Republish`, `Witnesses`). A node is printed
as a URI line; lines are joined and wrapped in base64; the same crate reads that text back. The modules go bottom-up,
and every layer has a printer, a reader and a theorem about the two together. The top theorems are about whole
subscriptions: `SubscriptionRoundTrip` says what is read back from a published subscription of any size, and
`RepublishRoundTrip` says it for the nodes of a subscription that was itself read.

**What may be written** (`Links`, `SsLinks`, `SsrLinks`, `VmessLinks`, `Sniffing`, `PrintedLinks`). The printers write
only some of what the readers accept. These modules say what the readers make of every link: fields in any order,
repeated, unknown or left out, ports and percent-encodings in all their forms, plain and encoded user information,
numbers and booleans in JSON, and whole texts as YAML, base64 or lines. They name the words and numbers of the formats
themselves and say nothing in terms of the readers' own tables. `PrintedLinks` writes the printed lines out in full.

**The fetcher** (`Lists`, `Fetch`, `Scheduler`, `Orders`, `Answers`, `Serve`, `Sources`). All requests of the process
share one semaphore. A run is any interleaving of arrivals, spawns, task ends, joins, answers and departures. Permits
are conserved, there is no deadlock, the orders in which the sources can be joined under a given number of permits are
characterised exactly, and so are the answers. `OffersAreAnswered` follows the nodes that sources were made from to
the answer, `AnswerReadsBack` the answer to the reader of the served text.

**The session store** (`Calendar`, `Sessions`, `SessionRuns`, `SessionRaces`, `SessionLimits`, `SessionLaws`). Expiry
slides, is stored with second precision, and is compared once as instants and once as text. The text order is proved
to be the time order; the exact condition for an access to be accepted is given for whole runs; revocation is proved
final when every statement of every request is a step of its own. `SessionLaws` states the promises in days and
nanoseconds.

**The web cache and tab switch** (`DataStore`, `Shell`). Single-flight loading that keeps old data, and navigation
that waits for it, and leads where it was sent.

`dafny verify dfyconfig.toml` checks the whole project.

## How the model is built

* A Rust `str` is a Dafny `string`, a sequence of Unicode scalar values. Lengths in bytes go through a concrete UTF-8
  encoder and decoder (`Utf8`), and `trim` through the concrete list of white-space characters (`Text.IsWhitespace`).
* Base64 is defined from sections 3.5, 4 and 5 of RFC 4648, percent-encoding from sections 2.1 to 2.3 of RFC 3986.
* Where the Rust code runs a loop over mutable locals, the model has a method with a loop, proved equal to a function
  that says what the loop computes (for a query: the last piece of each key decides). The theorems are about these
  functions. Objects whose methods change their fields are classes (`Sessions.SessionStore`, `DataStore.Store`,
  `Shell.MainShell`).
* Errors are values (`Wrappers.ParseError`, `Model.SerializeError`); an `Outcome` can also be a panic, so that the
  index `i - 1` of the ShadowsocksR reader can be modelled as it is.
* JSON, YAML and the five protocols that a v2ray subscription does not carry enter as a record of functions
  (`Library.Library`). `Library.Lawful` names the two facts that are relied on: an object of strings is read back from
  its own text, and each of the five parsers returns nodes of its own kind.
* A clock reading is a number of nanoseconds, a stored time is a second and a zone suffix. That chrono reads back the
  text it wrote is taken from chrono; that the text sorts like the time is proved. `Sessions.MIN_SECOND` and
  `Sessions.MAX_SECOND` are the ends of the range of dates of chrono 0.4.45.
* A task set returns its tasks in the order in which they complete. The permit lives in the body of the task, so it is
  given back a moment before the task set knows that the task has completed. In that moment the spawn loop can take the
  permit, and tasks on other threads can complete. `Scheduler` has both: `End` does the two things at once, `Release`
  and `Complete` one by one. A run without `Release` is prompt. What holds in every run is stated for every run;
  `Orders` and `Answers` give the exact results twice, for prompt runs and for all runs.

## Where the code does not do what one would expect

Each of these is a lemma with a concrete input or an exact condition.

* A server that starts with `[` is not read back from its printed form. Without a closing bracket reading fails; a
  bracketed server such as `[::1]`, which a Clash file can hold, silently comes back as `::1`
  (`Uri.HostPortRoundTrip`, every case; `Uri.BracketedServerChanges`;
  `Witnesses.BracketedLineDoesNotSurvive`, a line that reaches it).
* White space in front of extra `=` makes a base64 text unreadable, because trimming comes first
  (`Base64.ExtraPadding`, the exact condition; `Base64.SpaceBeforePadding`).
* A trojan node without TLS and its normal form print to different lines, and no other node that can be read does
  (`Republish.SameLineExactly`).
* The ShadowsocksR reader panics on payloads whose text starts with `/?`, or with `?` when there is no `/?`
  (`Ssr.PanicsExactly`; `Witnesses.TrappedLinePanics`); it is the only slice or index of the modelled line readers
  that can be out of range (`Parser.LinePanicsExactly`).
* A ShadowsocksR password whose standard base64 ends with a slash loses the slash in front of `/?`: a password that ends
  with a question mark, of a whole number of three-byte groups, is read without it (`SsrLinks.MarkIsLost`,
  `SsrLinks.SlashedQuery`).
* Two methods that a plain Shadowsocks link may name, `2022-blake3-aes-128-gcm` and `2022-blake3-chacha20-poly1305`, are
  kept as unknown names, while `2022-blake3-aes-256-gcm` is read as no encryption at all (`SsLinks.PlainLink`).
* A subscription of fewer than 13 bytes of joined lines is not recognised as base64 and is lost
  (`Republish.TinySubscriptionIsLost`), while the reader that does not sniff has no such bound
  (`Subscription.DirectRoundTrip`).
* The comments at `crates/server/src/db.rs:293` and `crates/server/src/db.rs:326` say that settings beyond the range of
  `TimeDelta` switch expiry off instead of making the code panic, and so they do. Settings within that range can still
  panic: one hundred million days make a duration, and then `last + ttl` leaves the range of dates
  (`Sessions.LargeSettingPanics`, with the exact condition in `Sessions.PanicsExactly`). The model follows the code.
* A logout does not stop every validation that is under way: those that have passed their check, or have read a time
  that passes it, can be accepted once more, and no others (`SessionLimits.AcceptedAfterRevocationExactly`;
  `SessionRaces.EarlyValidationSucceeds`).
* A renewal can be undone by a validation that was under way before it. `SessionLimits.RowStaysExactly` says when a
  row is sure to stay; `SessionRaces.RenewalCanBeLost` is a run that loses one.
* When the node limit cuts, the answer can depend on the schedule. `Answers.ScheduleMattersExactly` says when it does;
  `Answers.CutDependsOnSchedule` is an example with two permits.
* A click on the tab that is shown does not call off another tab that is pending: that one is shown in the end
  (`Shell.ClickLeads`, with the exact goal of every click).
* The cleanup and the validation disagree on some expired rows: those last used at the truncated cutoff, and those
  whose stored text is no time (`Sessions.CleanupAgreesWithValidation`, the exact condition).

## Model

| member | source | states |
|---|---|---|
| Utf8.DecodeOfEncode | crates/proxy-core/src/uri.rs:36-39 | the bytes of a text decode to the text, for every text: what makes `String::from_utf8` undo `as_bytes` |
| Utf8.BitsOfChar | crates/proxy-core/src/uri.rs:36-39 | the bytes of a character hold its bits as RFC 3629 lays them out |
| Text.LinesExactly | crates/proxy-core/src/parser.rs:52-52 | the lines of a text are exactly the ones it is written with: line feeds, carriage returns in front of them, empty lines, a last line without an end |
| Text.TrimExactly | crates/proxy-core/src/parser.rs:11-11 | trimming takes away the white space around a text, in the sense of the Unicode property, and nothing else |
| Base64.FromSextetsOfSextets | crates/proxy-core/src/uri.rs:31-33 | regrouping bytes into six-bit values and back is the identity |
| Base64.SextetsOfFromSextets | crates/proxy-core/src/uri.rs:31-33 | only canonical values are regrouped into bytes: the leftover bits must be zero |
| Base64.DecodeUrlCanonical | crates/proxy-core/src/uri.rs:5-34 | a text decodes to `b` if and only if it fits the 4 MiB cap and, trimmed, without trailing `=` and in the standard alphabet, is the canonical unpadded encoding of `b` |
| Base64.ExtraPadding | crates/proxy-core/src/uri.rs:12-15 | within the cap any number of extra `=` leaves the result as it was if and only if the text does not end in white space, or is nothing but white space, or did not decode |
| Base64.SpaceBeforePadding | crates/proxy-core/src/uri.rs:12-15 | the input that shows it: `YQ` and a space decodes, and is refused with `=` behind the space |
| Base64.RoundTrip | crates/proxy-core/src/uri.rs:5-34 | the padded standard, unpadded standard and unpadded URL-safe encodings of `b` decode to `b` if and only if `b` has at most 3145728 bytes |
| Base64.TextRoundTrip | crates/proxy-core/src/uri.rs:36-39 | the same for texts, with the error that is returned above the bound |
| Base64.ReadsWrittenText | crates/proxy-core/src/uri.rs:5-39 | a text is decoded from every form of its base64: white space around it, either alphabet, any number of `=`, up to 4194304 bytes; bytes that are no text are refused |
| Base64.StrangeIsRefused | crates/proxy-core/src/uri.rs:5-39 | any other character makes a text unreadable |
| Base64.SymbolTable | crates/proxy-core/src/uri.rs:18-33 | the two alphabets are those of tables 1 and 2 of RFC 4648 |
| Base64.GroupsAreBits | crates/proxy-core/src/uri.rs:31-33 | three bytes and their four groups are the same number of 24 bits |
| Base64.FillBuffer | crates/proxy-core/src/uri.rs:18-24 | the buffer loop leaves exactly the translated bytes |
| Base64.DecodeBase64Url | crates/proxy-core/src/uri.rs:5-34 | filling, padding and decoding the mutable buffer gives exactly the result of the specification, errors included |
| Percent.RoundTrip | crates/proxy-core/src/uri.rs:41-58 | decoding an encoded text gives the text, for every text |
| Percent.Urlencode | crates/proxy-core/src/uri.rs:50-58 | the encoding uses only unreserved characters and the percent sign |
| Percent.EncodeByteExactly | crates/proxy-core/src/uri.rs:48-58 | the encoding leaves exactly the unreserved characters of RFC 3986 and uses upper-case digits |
| Percent.PercentDecodeExactly | crates/proxy-core/src/uri.rs:41-46 | a text decodes to another if and only if it is a way to write its bytes: as they are, or with digits of either case, and with percent signs that no two digits follow |
| Query.LastOfFields | crates/proxy-core/src/protocols/vless.rs:40-58 | walking the printed pieces of any list with distinct keys recovers every value of the list |
| Query.PiecesOfFields | crates/proxy-core/src/protocols/trojan.rs:145-172 | splitting a printed query at `&` gives the printed pieces, and the query holds no `#`, no `@` and no white space |
| Query.RecoverField | crates/proxy-core/src/protocols/vless.rs:40-58 | the whole way: print, join, split, walk; each key gives back its value, present or absent |
| Query.LastExactly | crates/proxy-core/src/protocols/trojan.rs:40-58 | the loop ends with what the query says: the decoded value of the last piece for a key, empty if it cannot be decoded, absent if there is no such piece, whatever the other pieces are |
| Query.AlpnRoundTrip | crates/proxy-core/src/protocols/vless.rs:151-153 | comma-joined names are recovered when no name holds a comma |
| QueryWalk.WalkQuery | crates/proxy-core/src/protocols/trojan.rs:31-58 | the loop over eight mutable locals ends with what the last piece of each key says |
| TlsQuery.WalkOfFields | crates/proxy-core/src/protocols/trojan.rs:40-58 | whatever the order of the printed fields, the loop recovers the TLS settings and the transport of the node |
| Uri.PortRoundTrip | crates/proxy-core/src/uri.rs:86-86 | a printed port is read back, for every 16-bit port |
| Uri.ParsePortExactly | crates/proxy-core/src/uri.rs:68-88 | a text is read as a port if and only if it is its decimal digits, perhaps behind zeros, perhaps behind a plus sign |
| Uri.ServerOfHostPort | crates/proxy-core/src/uri.rs:68-88 | a server that was read holds no delimiter, and one that starts with a bracket holds no closing one |
| Uri.HostPortRoundTrip | crates/proxy-core/src/uri.rs:68-88 | for every server: printed host and port are read back if and only if the server does not start with a bracket; the exact result in every other case, among them a bracketed server that silently loses its brackets |
| Uri.HostPortExactly | crates/proxy-core/src/uri.rs:68-88 | a text is read as a server and a port if and only if it is written as one, in brackets or not; otherwise the error says whether the port or the text is wrong |
| Uri.SplitPrinted | crates/proxy-core/src/protocols/trojan.rs:16-24 | cutting a printed line at the first `#`, the last `@` and the first `?` gives the parts it was printed from |
| Model.ParsedCrypto | crates/proxy-core/src/model.rs:81-111 | every method that was read is read again from its name, unknown methods included |
| Model.ParseCryptoExactly | crates/proxy-core/src/model.rs:81-95 | the names of a table stand for their methods in any letter case, and every other text for itself in lower case |
| Model.TransportRoundTrip | crates/proxy-core/src/protocols/trojan.rs:76-143 | a printed transport is read as its normal form |
| Model.NormalOfReadTransport | crates/proxy-core/src/protocols/trojan.rs:76-96 | for transports that were read the normal form drops an empty host and nothing else |
| Trojan.ParseTrojan | crates/proxy-core/src/protocols/trojan.rs:12-108 | the imperative reader computes the specification, every error included |
| Trojan.SerializeTrojan | crates/proxy-core/src/protocols/trojan.rs:110-178 | the text pushed piece by piece is the specified line |
| Trojan.RoundTrip | crates/proxy-core/src/protocols/trojan.rs:12-178 | every node that prints is read as its normal form if and only if its server holds no delimiter of the URI and no leading bracket and its password is not empty; the errors for the last two |
| Trojan.NormalOfRead | crates/proxy-core/src/protocols/trojan.rs:60-96 | for nodes that were read the trip sets insecure to false, drops an empty host and turns missing TLS into TLS with the host as server name, and changes nothing else; it changes nothing exactly under the stated condition |
| Trojan.NormalIsStable | crates/proxy-core/src/protocols/trojan.rs:12-178 | the normal form is idempotent and again a node that can be read |
| Trojan.LineIsStableExactly | crates/proxy-core/src/protocols/trojan.rs:110-178 | a node that was read and its normal form print to the same line if and only if TLS was on |
| Trojan.ReadRoundTrip | crates/proxy-core/src/protocols/trojan.rs:12-178 | every node that was read prints, and is read as its normal form if and only if its server does not start with a bracket |
| Vless.ParseVless | crates/proxy-core/src/protocols/vless.rs:12-104 | the imperative reader computes the specification, every error included |
| Vless.SerializeVless | crates/proxy-core/src/protocols/vless.rs:106-166 | the text appended step by step is the specified line |
| Vless.RoundTrip | crates/proxy-core/src/protocols/vless.rs:12-166 | every node that prints is read as its normal form if and only if its server holds no delimiter of the URI and no leading bracket and its uuid is not empty and holds no `#`; the errors for a leading bracket and an empty uuid |
| Vless.NormalOfRead | crates/proxy-core/src/protocols/vless.rs:60-92 | for nodes that were read the trip sets insecure to false and drops an empty host, and changes nothing else |
| Vless.LineIsStable | crates/proxy-core/src/protocols/vless.rs:106-166 | a node that was read and its normal form print to the same line |
| Vless.ReadRoundTrip | crates/proxy-core/src/protocols/vless.rs:12-166 | every node that was read prints, and is read as its normal form if and only if its server does not start with a bracket |
| Tuic.WalkQuery | crates/proxy-core/src/protocols/tuic.rs:31-48 | the loop ends with what the last piece of each key says, with two keys for one local |
| Tuic.ParseTuic | crates/proxy-core/src/protocols/tuic.rs:10-66 | the imperative reader computes the specification, every error included |
| Tuic.SerializeTuic | crates/proxy-core/src/protocols/tuic.rs:68-92 | the text appended step by step is the specified line |
| Tuic.RoundTrip | crates/proxy-core/src/protocols/tuic.rs:10-92 | every node that prints is read as its normal form if and only if its server holds no delimiter of the URI and no leading bracket and its uuid holds neither `#` nor `:`; the error for a leading bracket |
| Tuic.ReadRoundTrip | crates/proxy-core/src/protocols/tuic.rs:10-92 | exact inverse: a node that was read is read again from its line if and only if its server does not start with a bracket |
| Ss.SerializeSs | crates/proxy-core/src/protocols/ss.rs:86-109 | the appended text is the specified line, errors included |
| Ss.UserinfoRoundTrip | crates/proxy-core/src/protocols/ss.rs:44-63 | printed user information is read as base64, never as a plain method, up to the base64 cap |
| Ss.RoundTrip | crates/proxy-core/src/protocols/ss.rs:10-109 | every node that prints is read again if and only if its server holds no delimiter of the URI and no leading bracket, its method is read again from its name, and its secret fits the base64 cap; the errors for a leading bracket and for the cap |
| Ss.ReadRoundTrip | crates/proxy-core/src/protocols/ss.rs:10-109 | exact inverse: a node that was read is read again if and only if its server does not start with a bracket and its secret fits |
| Ssr.WalkRemarks | crates/proxy-core/src/protocols/ssr.rs:48-58 | the loop that overwrites the name ends with the last `remarks` piece |
| Ssr.ParseSsrDecoded | crates/proxy-core/src/protocols/ssr.rs:19-69 | the imperative reader computes the specification, panic included |
| Ssr.PanicsExactly | crates/proxy-core/src/protocols/ssr.rs:24-35 | the reader panics if and only if the text starts with `/?`, or starts with `?` and holds no `/?` |
| Ssr.PrintedSeparator | crates/proxy-core/src/protocols/ssr.rs:24-35 | the first `/?` of a printed text is the printed separator |
| Ssr.InnerFits | crates/proxy-core/src/protocols/ssr.rs:71-109 | if the outer base64 fits the cap, so do the two inner ones |
| Ssr.SerializeSsr | crates/proxy-core/src/protocols/ssr.rs:71-109 | the nested text is the specified line, errors included |
| Ssr.RoundTrip | crates/proxy-core/src/protocols/ssr.rs:10-109 | every node that prints is read again if and only if neither its server nor the name of its method holds a colon or `/?`, the method is read again from its name, and the printed text fits the cap; the error for the cap |
| Ssr.ReadRoundTrip | crates/proxy-core/src/protocols/ssr.rs:10-109 | exact inverse: a node that was read is read again if and only if its printed text fits the cap |
| Vmess.CollectFields | crates/proxy-core/src/protocols/vmess.rs:163-190 | the inserts into the mutable map build exactly the specified object, empty optional fields left out |
| Vmess.SerializeVmess | crates/proxy-core/src/protocols/vmess.rs:105-195 | the printed line is the specified one |
| Vmess.RoundTrip | crates/proxy-core/src/protocols/vmess.rs:13-195 | reading any printed node, whatever its fields hold, gives its normal form, or the base64 error above the cap |
| Vmess.NormalOfRead | crates/proxy-core/src/protocols/vmess.rs:30-103 | for nodes that were read the trip fills in id and alterId, drops an empty server name and an empty host, and changes nothing else |
| Vmess.PrintedMapIsStable | crates/proxy-core/src/protocols/vmess.rs:163-190 | the printed object of the normal form is the printed object of the node, as the comment on idempotence promises |
| Vmess.ReadRoundTrip | crates/proxy-core/src/protocols/vmess.rs:13-195 | every node that was read prints, is read as its idempotent normal form if and only if it fits, and the normal form prints to the same line |
| LineLoop.ReadLines | crates/proxy-core/src/parser.rs:49-67 | the loop with its break, its size cap and its counters computes the specification, a panic of the reader included |
| LineLoop.FirstMax | crates/proxy-core/src/parser.rs:49-67 | the nodes are the first `max` successes over all lines, and the loop stops right behind the last of them |
| LineLoop.EveryLineCounts | crates/proxy-core/src/parser.rs:49-67 | nodes plus skipped lines are the lines that were looked at, and there are at most `max` nodes |
| Parser.PrefixesExclude | crates/proxy-core/src/parser.rs:10-40 | no text has the prefixes of two protocols |
| Parser.DispatchIsOrderFree | crates/proxy-core/src/parser.rs:10-40 | the dispatch chooses a protocol if and only if its prefix matches, so the order of the tests does not matter |
| Parser.NeverTooMany | crates/proxy-core/src/parser.rs:70-92 | every branch returns at most `max` nodes, and outside YAML they are the first ones of the lines read, all accounted for |
| Parser.LinePanicsExactly | crates/proxy-core/src/parser.rs:10-40 | reading a line panics if and only if it is a trapped ShadowsocksR payload, or one of the five readers taken from outside panics on it |
| Parser.LinesPanicExactly | crates/proxy-core/src/parser.rs:49-67 | reading a text panics if and only if the reader panics on a line that is looked at and is within the size cap |
| Witnesses.TrappedLinePanics | crates/proxy-core/src/protocols/ssr.rs:24-35 | a line of nine characters on which the line reader panics |
| Witnesses.BracketedLineDoesNotSurvive | crates/proxy-core/src/uri.rs:68-88 | a trojan line that is read to a node whose own line is refused |
| Links.TrojanLink | crates/proxy-core/src/protocols/trojan.rs:12-108 | every trojan link is read: TLS is off exactly for `security=none`, names fall back to the host, and password, TLS settings and transport are what the last pieces for their keys say |
| Links.TrojanRefused | crates/proxy-core/src/protocols/trojan.rs:12-38 | the links that are refused, in the order of the checks |
| Links.VlessLink | crates/proxy-core/src/protocols/vless.rs:12-104 | every vless link is read: TLS is on exactly for `tls`, `reality` and `xtls` |
| Links.VlessRefused | crates/proxy-core/src/protocols/vless.rs:12-29 | the links that are refused, in the order of the checks |
| Links.TuicLink | crates/proxy-core/src/protocols/tuic.rs:10-66 | every tuic link is read: two keys say whether it is insecure, and TLS is always on |
| Links.TuicRefused | crates/proxy-core/src/protocols/tuic.rs:10-30 | the links that are refused, in the order of the checks |
| SsLinks.PlainLink | crates/proxy-core/src/protocols/ss.rs:10-84 | a plain link: each of the fourteen methods in any letter case, any password, slashes and a plugin behind the port, a name |
| SsLinks.EncodedLink | crates/proxy-core/src/protocols/ss.rs:10-63 | an encoded link: any method, known or not, in any form of base64 up to its cap |
| SsLinks.UnknownMethodIsRefused | crates/proxy-core/src/protocols/ss.rs:44-84 | a plain link with any other method is refused |
| SsrLinks.SlashedQuery | crates/proxy-core/src/protocols/ssr.rs:19-40 | the fields end at the first `/?`, and one slash in front of it is lost |
| SsrLinks.PlainQuery | crates/proxy-core/src/protocols/ssr.rs:19-40 | without any `/?` they end at the first question mark |
| SsrLinks.NoQuery | crates/proxy-core/src/protocols/ssr.rs:19-40 | without a question mark there is no query |
| SsrLinks.FieldsRead | crates/proxy-core/src/protocols/ssr.rs:41-69 | the six fields, any further ones ignored, and the last `remarks`, decoded, empty if it cannot be; the errors, in the order of the checks |
| SsrLinks.PayloadRead | crates/proxy-core/src/protocols/ssr.rs:10-17 | the payload is decoded first, and an error of that is reported |
| SsrLinks.MarkIsLost | crates/proxy-core/src/protocols/ssr.rs:21-37 | a password that ends with a question mark and fills whole groups of standard base64 is read without it |
| VmessLinks.NumberIsText | crates/proxy-core/src/protocols/vmess.rs:21-28 | for every object and key a number counts as its text |
| VmessLinks.BoolIsText | crates/proxy-core/src/protocols/vmess.rs:21-28 | a boolean counts as `true` or `false` |
| VmessLinks.OtherIsNothing | crates/proxy-core/src/protocols/vmess.rs:21-28 | null, an array or an object counts as an absent key |
| VmessLinks.NoObjectIsEmpty | crates/proxy-core/src/protocols/vmess.rs:21-28 | a value that is no object has no keys |
| VmessLinks.TextsRead | crates/proxy-core/src/protocols/vmess.rs:30-103 | the node that any object of texts describes: four words that switch TLS on, fallbacks of the server name, six words for transports, and the errors |
| VmessLinks.PayloadRead | crates/proxy-core/src/protocols/vmess.rs:13-19 | the payload is base64 of JSON, and the errors of both are reported |
| Sniffing.LineExactly | crates/proxy-core/src/parser.rs:10-40 | with white space around it or not, a line goes to the parser of its prefix in a table of twelve, and is refused if it has none of them |
| Sniffing.LookExactly | crates/proxy-core/src/parser.rs:57-65 | a line of more than 1048576 bytes is skipped unread |
| Sniffing.YamlExactly | crates/proxy-core/src/parser.rs:73-81 | a text with a line that starts with `proxies:` behind white space gives the nodes of the YAML reader, cut at the limit, and is read line by line if there are none to be had |
| Sniffing.EncodedExactly | crates/proxy-core/src/parser.rs:82-91 | a text that is base64, in any form: read as what it encodes if it has 17 to 4194304 bytes and that holds a line feed or `://`, and as it is otherwise |
| Sniffing.PlainExactly | crates/proxy-core/src/parser.rs:43-92 | a text with `://` and without YAML is read line by line, with sniffing and without |
| V2ray.SerializePlain | crates/proxy-core/src/formats/v2ray.rs:7-27 | the loop with `continue` and early return computes the lines of the carried nodes or the first error |
| V2ray.CarriedOfConcat | crates/proxy-core/src/formats/v2ray.rs:9-24 | the carried nodes are a filter of the list: order and number are kept |
| V2ray.PrintsCarried | crates/proxy-core/src/formats/v2ray.rs:7-27 | printing succeeds if and only if every carried node prints, with one line for each, in order |
| V2ray.FirstErrorIsReported | crates/proxy-core/src/formats/v2ray.rs:7-27 | otherwise the error is that of the first carried node that cannot be printed |
| PrintedLinks.TwoLines | crates/proxy-core/src/formats/v2ray.rs:25-39 | lines stand one below the other without a line feed at the end, and are wrapped in padded standard base64 |
| PrintedLinks.TrojanInFull | crates/proxy-core/src/protocols/trojan.rs:110-178 | the line of a node with TLS, WebSocket and a name, written out |
| PrintedLinks.VlessInFull | crates/proxy-core/src/protocols/vless.rs:106-166 | the line of a node with TLS, gRPC and a name, written out |
| PrintedLinks.TuicInFull | crates/proxy-core/src/protocols/tuic.rs:68-92 | the line of a node with all TLS settings and a name, written out |
| PrintedLinks.SsInFull | crates/proxy-core/src/protocols/ss.rs:86-109 | the line of a node with a name, written out |
| PrintedLinks.SsrInFull | crates/proxy-core/src/protocols/ssr.rs:71-109 | the text inside the base64, written out |
| PrintedLinks.VmessInFull | crates/proxy-core/src/protocols/vmess.rs:105-195 | the fifteen keys of a node that has everything, with their values |
| PrintedLinks.VmessAlone | crates/proxy-core/src/protocols/vmess.rs:105-195 | the eleven keys of a node that has nothing |
| PrintedLinks.VmessIsPadded | crates/proxy-core/src/protocols/vmess.rs:189-195 | the line is padded standard base64 of that object |
| PrintedLinks.TrojanAlone | crates/proxy-core/src/protocols/trojan.rs:110-178 | the line of a node that has nothing but a password ends with the port |
| PrintedLinks.VlessAlone | crates/proxy-core/src/protocols/vless.rs:106-166 | that of a node that has nothing but an id ends with `encryption=none` |
| PrintedLinks.TuicAlone | crates/proxy-core/src/protocols/tuic.rs:68-92 | that of a node that has nothing ends with its two fixed fields |
| PrintedLinks.PrintErrors | crates/proxy-core/src/protocols/ss.rs:86-98 | each printer refuses the nodes of other protocols and those that lack what it needs |
| Subscription.Restore | crates/proxy-core/src/parser.rs:10-40 | for each of the six carried protocols a restorable node is read back in normal form through the dispatch |
| Subscription.SubscriptionReads | crates/proxy-core/src/formats/v2ray.rs:7-39 | for any nodes that print to whole lines and any size: plain text, sniffed base64 and direct base64 are each read by looking at the printed lines one by one, or are lost as one skipped line outside the stated sizes |
| Subscription.PlainRoundTrip | crates/proxy-core/src/parser.rs:70-92 | the plain text of publishable nodes is never taken for YAML or base64 and gives back the first `max` normal forms, nothing skipped |
| Subscription.SubscriptionRoundTrip | crates/proxy-core/src/formats/v2ray.rs:29-39 | the base64 text gives back the first `max` normal forms of the carried nodes, in order, nothing skipped, if the joined lines have 13 to 3145728 bytes; for every other size the exact result is stated |
| Subscription.DirectRoundTrip | crates/proxy-core/src/parser.rs:43-47 | the reader that does not sniff gives them back for every size up to 3145728 bytes |
| Tidy.LineIsTidy | crates/proxy-core/src/parser.rs:49-67 | what is taken over literally from one trimmed line holds no line feed and does not end in white space |
| Tidy.LineIsTidyExactly | crates/proxy-core/src/parser.rs:10-40 | on arbitrary text given to the line reader, as a stored single node is, this holds if and only if the literal parts hold no line feed |
| Tidy.PrintsTidy | crates/proxy-core/src/formats/v2ray.rs:7-27 | such a node prints to a line without line feed and without white space at its end |
| Republish.RestorableExactly | crates/proxy-core/src/formats/v2ray.rs:7-27 | of the nodes that were read, exactly those without a bracketed server and within the base64 caps can be restored |
| Republish.NormalWasRead | crates/proxy-core/src/formats/v2ray.rs:7-27 | normal forms are idempotent and again of the shape of nodes that were read, for all six protocols |
| Republish.SameLineExactly | crates/proxy-core/src/formats/v2ray.rs:10-24 | a node that was read and its normal form print to the same line if and only if it is not a trojan node without TLS |
| Republish.LookAtPrinted | crates/proxy-core/src/formats/v2ray.rs:7-27 | the printed line of any node that was read and whose literal parts hold no line feed is found to be its normal form if the node survives and the line is within the cap, and is skipped otherwise |
| Republish.SubscriptionPrints | crates/proxy-core/src/formats/v2ray.rs:7-39 | every subscription that was read line by line can be printed again |
| Republish.RepublishRoundTrip | crates/proxy-core/src/parser.rs:70-92 | any subscription read line by line, published and read again: from the plain text, and within the recognised sizes from the wrapped one, the first `max` carried nodes that come back, in normal form and in order, every other carried node looked at counted as skipped; outside them the exact loss; normal forms are stable |
| Republish.TinySubscriptionIsLost | crates/proxy-core/src/parser.rs:83-91 | a concrete node that is read from the plain text and lost from the base64 text |
| Fetch.TaskShape | crates/server/src/service.rs:75-104 | a task succeeds only with nodes, a fetched source never brings more than the limit, and a single node fails only by its parse error |
| Sources.FetchedBrings | crates/server/src/service.rs:88-98 | a source of any kind but `single` that serves a published subscription, plain or wrapped, brings exactly its carried nodes in normal form, up to the limit; the wrapped one is lost outside the recognised sizes |
| Sources.SingleBrings | crates/server/src/service.rs:83-87 | a single line brings the normal form of the node that it was printed from |
| Sources.YamlBrings | crates/server/src/service.rs:88-98 | a fetched text with Clash YAML brings the nodes of the YAML reader, up to the limit |
| Sources.LinesBring | crates/server/src/service.rs:88-98 | any other fetched text with `://` brings the first nodes of its lines, or reports how many lines were skipped, or ends in a panic exactly if a line that is looked at is trapped |
| Sources.FailureIsReported | crates/server/src/service.rs:83-104 | failed requests and refused lines are reported; a single line ends in a panic exactly if it is trapped |
| Sources.ErrorsExactly | crates/server/src/service.rs:107-117 | the errors of an answer are those known before and those of the failed sources, under their names |
| Sources.OffersAreAnswered | crates/server/src/service.rs:72-120 | whatever the schedule, a request whose sources were made from nodes is answered without further errors, with as many nodes as are offered, up to the limit, and with exactly these if all fit |
| Fetch.Merge | crates/server/src/service.rs:107-120 | the join loop appends nodes and errors in the order in which tasks end, ignores crashed tasks, and cuts at the limit |
| Lists.FlatOfPermutation | crates/server/src/service.rs:107-117 | appended lists give the same multiset whatever the order of the tasks |
| Scheduler.PermitsAreConserved | crates/server/src/state.rs:19-28 | in every reachable state available permits plus running tasks is the configured concurrency, or one if it is zero |
| Scheduler.ActionsTerminate | crates/server/src/service.rs:69-117 | every step but an arrival strictly decreases the work that is left |
| Scheduler.RunIsBounded | crates/server/src/service.rs:69-117 | a run without arrivals is at most as long as the work at its start |
| Scheduler.SomeStepIsEnabled | crates/server/src/service.rs:69-105 | no deadlock: while a request is unfinished, a step other than an arrival or a departure can happen |
| Scheduler.QuietMeansFinished | crates/server/src/service.rs:69-120 | when no such step can happen, every request is finished and every permit is back |
| Scheduler.AnswerIsMerge | crates/server/src/service.rs:106-120 | in an answer every source was joined exactly once, and nodes and errors are the merge in the order of the joins, cut at the limit |
| Scheduler.ScheduleIndependence | crates/server/src/service.rs:80-120 | two answers for the same sources have the same errors as a multiset and equally many nodes, and the same nodes as a multiset whenever all fit |
| Orders.OrderIsBounded | crates/server/src/service.rs:72-105 | in every prompt run, whatever other requests there are, the first `n` tasks that a request joins are among its first `n - 1 + capacity` sources |
| Orders.OrdersExactly | crates/server/src/service.rs:72-117 | an order of the sources is the order of the joins in some prompt run if and only if it meets this bound, and in some run always |
| Answers.AnswersExactly | crates/server/src/service.rs:72-120 | a request can get an answer if and only if it is the merge of its sources, cut at the limit, in an order that can happen with the given permits |
| Answers.HiddenOrderAgrees | crates/server/src/service.rs:106-120 | all possible answers hold the same nodes if all nodes fit, or the limit is zero, or at most one source brings nodes, or, in prompt runs, there is one permit; sources may share nodes |
| Answers.ScheduleMattersExactly | crates/server/src/service.rs:106-120 | when no node comes twice, these are exactly the cases in which all possible answers hold the same nodes |
| Serve.AnswerPrints | crates/server/src/service.rs:75-120 | whatever the schedule, an answer whose sources were single nodes or were read line by line can be printed |
| Serve.AnswerReadsBack | crates/server/src/routes/subscribe.rs:80-109 | from the schedule to the reader: for single nodes without a line feed in their literal parts and sources read line by line, both texts that can be served for the answer give back the first `max` of its carried nodes that come back, in normal form and in the order of the joins, or are lost for their size |
| Calendar.StampOf | crates/server/src/db.rs:267-273 | the fields of an instant are a valid date and time that denote the instant |
| Calendar.StampExactly | crates/server/src/db.rs:267-273 | every valid date and time is the one of its instant |
| Calendar.StampOfZero | crates/server/src/db.rs:267-273 | instants are counted from the beginning of 1970 |
| Calendar.LeapYears | crates/server/src/db.rs:267-273 | the lengths of the years are those of the Gregorian calendar |
| Calendar.DaysOfMonths | crates/server/src/db.rs:267-273 | and so are those of the months |
| Calendar.TextExactly | crates/server/src/db.rs:267-273 | the text of a plain instant, digit by digit |
| Calendar.PadExactly | crates/server/src/db.rs:267-273 | each field stands for its number in decimal digits |
| Calendar.InstantsAreOrdered | crates/server/src/db.rs:337-344 | earlier instants have smaller fields, from the year down |
| Calendar.TextOrderIsTimeOrder | crates/server/src/db.rs:337-344 | a stored text, with either suffix, is less than a printed cutoff if and only if its instant is earlier, cutoffs before year 0 included |
| Sessions.SessionStore.Create | crates/server/src/db.rs:267-281 | a new row with both times at the current second; a hash that is there is refused |
| Sessions.SessionStore.ValidateSession | crates/server/src/db.rs:285-323 | lookup, expiry check, deletion or renewal: the new table and the answer are those of the specification |
| Sessions.SessionStore.DeleteExpired | crates/server/src/db.rs:327-348 | exactly the rows below the truncated cutoff are deleted, unless the cutoff cannot be represented |
| Sessions.CutOffExactly | crates/server/src/db.rs:337-347 | the string comparison of the cleanup is a comparison of instants |
| Sessions.CleanupAgreesWithValidation | crates/server/src/db.rs:300-347 | the cleanup deletes only rows that validation would reject at that instant; it keeps a rejected row exactly when expiry is on and the row was last used at the truncated cutoff while the clock has a fraction of a second, or its text is no time and does not sort below the cutoff; without a usable setting nothing is deleted and nothing expires |
| Sessions.PanicsExactly | crates/server/src/db.rs:296-301 | validation and cleanup panic exactly when a sum or difference leaves the range of dates |
| Sessions.LargeSettingPanics | crates/server/src/db.rs:296-301 | a concrete setting that passes the guard and panics |
| SessionRuns.AnswersArePromised | crates/server/src/db.rs:285-348 | in every run of validations and cleanups the answers are those of a specification that knows no table and no cleanup |
| SessionRuns.AcceptedExactly | crates/server/src/db.rs:285-323 | the k-th access is accepted if and only if it and all before it came in time; otherwise it is rejected |
| SessionRuns.DeadStaysDead | crates/server/src/db.rs:285-313 | after one rejection every later access is rejected |
| SessionRuns.GapsDecide | crates/server/src/db.rs:300-323 | a gap of at most the time to live less one second is always in time, a gap above it never |
| SessionRuns.ExpiryOverRuns | crates/server/src/db.rs:267-348 | for a new session, any monotone clock and any cleanups: access k is accepted if and only if each access so far came within the time to live of the second of the renewal before it |
| SessionLaws.ValidateExactly | crates/server/src/db.rs:285-323 | for every setting in days and every readable row: accepted, expired or out of range, told by the nanoseconds; only the last use of the row itself changes |
| SessionLaws.ValidateUnreadable | crates/server/src/db.rs:300-313 | a row whose text is no time is expired exactly when the setting has an expiry |
| SessionLaws.CleanExactly | crates/server/src/db.rs:327-348 | for every setting in days: the rows that the cleanup leaves, told by the nanoseconds, and when it panics |
| SessionLaws.DaysDecide | crates/server/src/db.rs:267-348 | for every usual setting, any monotone clock and any cleanups: access k to a new session is accepted if and only if each check so far came at most that many days after the second of the renewal before it |
| SessionLaws.EndlessKeeps | crates/server/src/db.rs:293-301 | with the setting zero, or more than 106751991167 days, every access in every run is accepted |
| SessionLaws.CleanupLeavesLiveRows | crates/server/src/db.rs:327-348 | in every reachable state a cleanup leaves no row whose expiry has passed for a second or more |
| SessionRaces.GoneStaysGone | crates/server/src/db.rs:314-323 | in every interleaving a row that is gone never comes back, because UPDATE does not insert |
| SessionRaces.ReachableIsSound | crates/server/src/db.rs:267-323 | in every reachable state only sessions that were created have rows |
| SessionRaces.RevocationIsFinal | crates/server/src/db.rs:350-361 | after a logout or a logout of everyone the session never has a row, and every validation that reads the table after it is rejected |
| SessionRaces.AloneIsValidate | crates/server/src/db.rs:285-323 | undisturbed, the statement steps are the sequential validation |
| SessionLimits.StillAcceptedExactly | crates/server/src/db.rs:285-323 | a validation of a session whose row is gone can still be accepted if and only if it has passed its check or has read a time that passes it now, for every setting |
| SessionLimits.AcceptedAfterRevocationExactly | crates/server/src/db.rs:350-361 | the same after a logout or a logout of everyone; no validation that begins later is accepted |
| SessionLimits.RowStaysExactly | crates/server/src/db.rs:285-348 | in every reachable state, without logout: all runs up to a given time keep the row if and only if its time lasts until then, no validation of it is about to delete it, and every time that one has read or is about to write lasts until then; cleanups at any moment make no difference if the clock readings are plain |
| DataStore.LoadIsGood | crates/server/web/src/data.rs:143-201 | loading keeps the cache good and makes no unit idle |
| DataStore.EnsureLoadedExactly | crates/server/web/src/data.rs:129-136 | exactly the units of the tab that are idle or have failed are marked loading, with their old data; every other unit is as it was |
| DataStore.DataIsNeverLost | crates/server/web/src/data.rs:189-199 | neither a refresh nor a fetch that fails changes the data of any unit |
| DataStore.EnsureLoadedIsGood | crates/server/web/src/data.rs:129-136 | after it none of the units is idle, and no unit has become idle |
| DataStore.CompleteIsGood | crates/server/web/src/data.rs:202-266 | a fetch that comes back keeps it good: loading exactly while in flight, one fetch for each unit in flight, ready units have data, data is the last successful answer |
| DataStore.CompleteExactly | crates/server/web/src/data.rs:202-266 | the unit that comes back is ready with what was fetched, or shows the error with the last good data; all others are as they were |
| DataStore.Store.LoadUnit | crates/server/web/src/data.rs:139-201 | the method keeps the invariant and does what the specification says |
| DataStore.Store.EnsureTabLoaded | crates/server/web/src/data.rs:129-136 | the loop computes the specification and leaves no unit of the tab idle |
| DataStore.Store.CompleteFetch | crates/server/web/src/data.rs:202-266 | the completion keeps the invariant and does what the specification says |
| Shell.MainShell.Navigate | crates/server/web/src/main.rs:148-169 | the handler does what the specification says, early returns included |
| Shell.MainShell.CheckPreload | crates/server/web/src/main.rs:171-174 | the preload check does what the specification says |
| Shell.MainShell.CommitEffect | crates/server/web/src/main.rs:177-185 | the effect does what the specification says |
| Shell.StepIsSafe | crates/server/web/src/main.rs:148-185 | every step keeps: the cache is good, a pending tab has no idle unit, a rendered component shows no tab with an idle unit, and the preload check has fired exactly once |
| Shell.RunIsSafe | crates/server/web/src/main.rs:148-185 | the same over every run of clicks, refreshes, renderings, effects and answers |
| Shell.ReachableIsSafe | crates/server/web/src/main.rs:92-185 | the same for every state that the component can reach from its start |
| Shell.FirstRenderingLoads | crates/server/web/src/main.rs:171-174 | the first rendering starts exactly the fetch of the first tab, which is pending |
| Shell.ClickHeads | crates/server/web/src/main.rs:148-169 | a click closes the menu and heads for its goal; a tab with ready units is shown at once with its groups open, any other is pending |
| Shell.ClickLeads | crates/server/web/src/main.rs:148-185 | after a click and any run without another one, up to a moment in which nothing is being fetched, the next effect shows the goal and nothing is pending |
| Shell.ShownTabsHaveFinished | crates/server/web/src/main.rs:148-185 | whenever the shown tab changes, or a pending tab stops being pending, each unit of the shown tab is ready or has failed; a pending tab is given up only by a click on another one that is ready |
| Shell.NoReloadLoop | crates/server/web/src/main.rs:170-174 | after the first rendering, rendering changes nothing, and no fetch is started but by a click or a refresh |
| Shell.PendingTabIsShown | crates/server/web/src/main.rs:177-185 | a pending tab waits exactly while one of its units is being fetched, and is shown when nothing is |

## Left out

- YAML and JSON text: serde_yaml_ng and serde_json are library code; vmess is modelled over the field map, and the Clash YAML reader is a function whose result is cut at the limit.
- The Clash printers and templates: string layout over the YAML library.
- The codecs of socks5, http, hysteria, hysteria2 and wireguard: not in the v2ray output; only their prefixes are modelled, and their readers enter as functions that may also panic.
- Parser.LinePanicsExactly: does not cover a panic inside serde_json or serde_yaml_ng, because both return their errors as values and are library code.
- HTTP handlers, headers, error mapping (an answer with errors and without nodes is served as an error), static files and DTOs: plumbing without state of their own.
- Password hashing, token hashing and token generation: tokens are fresh and hashing is injective, so that a hash is created at most once.
- SQL text, the connection pool and the migrations: tables are maps; of the migrations only the two shapes of stored times remain.
- The body of `fetch_source`: the text or the error of each source is an input of the model.
- A source's outcome in `Scheduler` is fixed in its task; when it arrives is left open.
- The semaphore is never closed, so the branch that skips a source is not modelled.
- Starvation of a single waiting request: the progress results say that some step can happen and that all work ends, not that the semaphore is fair.
- chrono's reader of RFC 3339 text: a stored time is a second and a suffix, and any other text is unreadable.
- Clock readings before year 0 or after year 9999, and times to live beyond `SessionRuns.IsSafe`, in the results about whole runs; outside them `Sessions.PanicsExactly` applies.
- A refresh that arrives while the unit is loading is dropped by the code; nothing is claimed about the freshness of the data then.
- Rendering, browser listeners, toasts and the menu groups beyond what `go` writes.
- `percent_decode` of arbitrary text is modelled in full, but only its effect on encoded text is characterised.
