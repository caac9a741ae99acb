# grpc_collector, modelled in Dafny

This project models the data-handling core of a gRPC telemetry collector for
network devices, written in Go. There are two families of collectors.

**gNMI client** (`gnmi/main.go`):

- `parsePath` turns an XPath-like string such as `/interfaces/interface[name=Gi0/0]/state`
  into a gNMI `Path`: the origin, the target, one element per non-empty `/`-segment
  with its `[key=value]` annotations, and the raw text of each segment.
- `newSubscribeRequest` builds the `SubscribeRequest` from the configuration. It
  parses every subscription path, then looks up the subscription mode without regard
  to case, then parses the prefix path. Only the `proto` encoding is accepted. The
  first error wins.
- `Start` checks that request first, and only then checks that the redial period is
  positive.
- `handleSubscribeResponse` handles only Update notifications:
  - `handlePath` flattens the prefix back into a string and writes its keys into a
    tag map.
  - The tags `source` (the device host) and `path` (the flattened prefix) are added.
  - Each update, through `handleTelemetryField`, writes its own keys into a copy of
    the tags and produces its value under its flattened path, with `-` turned into `_`.
  - A key whose short name is already taken is stored under `<path so far>/<short name>`.

**Cisco MDT key/value collectors** (`cisco_telemetry_mdt/dial_in_kv/main.go`,
`cisco_telemetry_mdt/dial_out/dial_out.go`):

- `parseGPBKVField` flattens the self-describing key/value tree of a `Telemetry`
  message.
  - A shared name buffer accumulates the `/`-joined node names.
  - Every node that has a value writes it under the buffer's text: raw into the field
    map when there is one, otherwise rendered as a string into the tag map.
  - The buffer is then truncated back to its length on entry.
- The per-row loop over `DataGpbkv` takes the row's timestamp, or the message's when
  the row's is 0, and splits the milliseconds into `time.Unix` seconds and
  nanoseconds.
  - A `keys` field starts a fresh tag map seeded with `Producer`, `Target`,
    `EncodingPath` and `TimeStamp`.
  - A `content` field starts a fresh field map.
  - A row counts as a measurement when both maps and the encoding path are non-empty.
- The dial-in KV collector keeps one name buffer for the whole session and decodes a
  message even when unmarshalling it failed. The dial-out server drops such a packet.

How the model is built:

- Pure logic is functions over datatypes: `Parse`, `WriteElems`, `Request`,
  `Entries`, `GroupOf`.
- The loops of the source are methods proved equal to those functions. They include
  the index scanner of `parsePath`, the element and key loops of `handlePath`, the
  subscription loop, the update loop, the recursive `parseGPBKVField` and the group
  loops.
- Go maps that the source passes by reference and mutates are `Common.Table` objects.
  A nil map is a `null` table.
- The name buffer is the `MdtFields.NameBuffer` class.
- What the source promises is proved as lemmas about the functions.

Module layout:

| file | module | contents |
|---|---|---|
| common.dfy | Common | Option, Result, Go integer widths, the `Table` map object |
| text.dfy | Text | `strings.Replace(s, "-", "_")`, `strings.Trim(s, "'\"")`, ASCII `strings.ToUpper` |
| gnmi_path.dfy | GnmiPath | path datatypes, the scanner `Step`/`ScanPrefix`, `Parse`, the method `ParsePath` |
| gnmi_path_steps.dfy | GnmiPathSteps | slicing facts used by the scanner proofs |
| gnmi_path_lemmas.dfy | GnmiPathLemmas | well-formedness of parsed paths |
| gnmi_path_split.dfy | GnmiPathSplit | bracket-free paths agree with splitting on `/` |
| gnmi_path_written.dfy | GnmiPathWritten | a path written with keys parses back to its elements |
| gnmi_path_errors.dfy | GnmiPathErrors | which malformed paths fail, and which are cut short |
| gnmi_path_after.dfy | GnmiPathAfter | the same faults after complete elements with annotations |
| gnmi_flatten.dfy | GnmiFlatten | `handlePath` and the short-name collision rule for tags |
| gnmi_client.dfy | GnmiClient | `handleTelemetryField`, `handleSubscribeResponse` |
| gnmi_subscribe.dfy | GnmiSubscribe | `newSubscribeRequest`, the validation in `Start` |
| mdt_fields.dfy | MdtFields | `parseGPBKVField` and the name buffer |
| mdt_group.dfy | MdtGroup | the per-`DataGpbkv` decode: timestamp, keys/content dispatch, validity |
| mdt_dial_in_kv.dfy | MdtDialInKv | the dial-in KV message loop |
| mdt_dial_out.dfy | MdtDialOut | the dial-out `handleTelemetry` |

## Model

| member | source | states |
|---|---|---|
| GnmiPath.ParsePath | gnmi/main.go:329-390 | The index-based scanner, with its `break`s and its final open-bracket check, returns exactly what the scan function `Parse` gives for every input. |
| GnmiPathLemmas.ParseNotRooted | gnmi/main.go:333-335 | A path fails with the not-rooted error if and only if it is non-empty and does not start with `/`. |
| GnmiPathLemmas.ParseWellFormed | gnmi/main.go:331-389 | A parsed path carries the given origin and target and has as many raw segment texts as elements. Each element name is non-empty, has no `/` or bracket character, and is its raw segment text up to the first `[`. Each key map has no repeated key, its keys and values hold no `[`, `]` or `=`, and no value starts or ends with a quote. |
| GnmiPathSplit.ParseBracketFree | gnmi/main.go:340-377 | A rooted path without `[`, `=` or `]` parses to exactly its non-empty `/`-separated segments, as names without keys, in order. The empty path parses to no elements. |
| GnmiPathSplit.ParseJoin | gnmi/main.go:340-377 | Names joined as `/n1/.../nk` parse back to exactly those names, with no keys. |
| GnmiPathWritten.ParseWritten | gnmi/main.go:343-377 | A path written as elements `name[k=v]...` parses to those elements. Each key gets the last value written for it, with surrounding quotes trimmed, and each element's raw text is kept. |
| GnmiPathWritten.ParseIdempotent | gnmi/main.go:331-389 | Parsing is idempotent: the elements of any parsed path, written back as a path and parsed again, come back unchanged. |
| GnmiPathWritten.ParseWrittenRoundTrip | gnmi/main.go:343-389 | Round trip: writing elements with plain names, unique keys and quote-free values as a path, then parsing it, gives back the same elements. |
| GnmiPathErrors.BracketError | gnmi/main.go:343-383 | At any point where the scan has not stopped and no bracket is open, a `[` that is left unclosed, or is followed by another `[`, a second `=` or a `]` with no `=` before its `]`, makes parsing fail with the invalid-path error. |
| GnmiPathErrors.StrayTruncates | gnmi/main.go:352-360 | At any point where the scan has not stopped and no bracket is open, a stray `=` or `]` stops the scan without an error. The result is exactly the elements and element strings finished before it. |
| GnmiPathErrors.StrayBracketFree | gnmi/main.go:352-360 | In a path with no bracket before it, a stray `=` or `]` yields the elements of the `/`-separated names before it. |
| GnmiPathErrors.StrayAfterJoin | gnmi/main.go:352-360 | So `/n1/.../nk/s=rest` parses successfully, to `n1 ... nk` alone. |
| GnmiPathAfter.AfterScan | gnmi/main.go:342-379 | After complete elements with their annotations, a `/` and a plain name, the scan has not stopped, has no bracket open, and has emitted exactly those elements. |
| GnmiPathAfter.StrayAfterWritten | gnmi/main.go:352-360 | A stray `=` or `]` after complete elements with annotations keeps those elements, keys included, and drops the rest, without an error. |
| GnmiPathAfter.BracketErrorAfterWritten | gnmi/main.go:343-383 | A `[` after complete elements with annotations that is never properly closed makes the path invalid. The conditions are those of `BracketError`. |
| GnmiPath.PutLookup | gnmi/main.go:361 | Storing a key in an element's key map makes it hold the new value and leaves every other key as it was. A new key is appended. The length is kept when the key exists. |
| GnmiPath.PutInPlace | gnmi/main.go:361 | An existing key is updated in place: the pair at its first position gets the new value and every other position is unchanged. |
| GnmiPath.PutKeepsUnique | gnmi/main.go:361 | Storing a key keeps an element's keys unique. |
| Text.TrimQuotesStrips | gnmi/main.go:361 | `strings.Trim(v, "'\"")` removes exactly the leading and trailing quotes around a quote-free value. |
| Text.TrimQuotesFree | gnmi/main.go:361 | Neither end of a trimmed value is a quote character. |
| Text.UnderscoredIdempotent | gnmi/main.go:281 | After `-` is replaced by `_` no `-` remains, and replacing again changes nothing. |
| GnmiFlatten.HandlePath | gnmi/main.go:294-326 | `handlePath` returns the prefix, the origin and `:` (when there is an origin), and `/name` for each element. The alias is always empty. A non-nil tag map receives every element's keys under the collision rule, in order. |
| GnmiFlatten.WriteElemKeys | gnmi/main.go:311-321 | The key loop of one element leaves the tag map equal to all of its keys written under the collision rule. |
| GnmiFlatten.WriteKeyRule | gnmi/main.go:312-319 | A key goes under its short name when that name is free. Otherwise it goes under `path/short` and the short name keeps its old value. At most one entry is added and no entry is lost. |
| GnmiFlatten.WriteKeysFresh | gnmi/main.go:311-321 | Keys with distinct, unused short names add exactly those short names, each bound to its own value. Nothing else changes. |
| GnmiFlatten.CollisionAcrossElements | gnmi/main.go:305-319 | The same key on two elements at different depths: the first element's value keeps the short name, and the second's is stored under the full path of its element, `base/n1/n2/key`. |
| GnmiFlatten.CollisionQualified | gnmi/main.go:315-319 | Two keys with the same short name, such as `if-name` and `if_name`: the first keeps the short name and the second is stored under `path/short`. |
| GnmiFlatten.ParseFlattenRoundTrip | gnmi/main.go:294-390 | Flattening the parse of `/n1/.../nk` gives back the same string. |
| GnmiClient.HandleTelemetryField | gnmi/main.go:252-291 | The update's keys go into the tags as `handlePath` writes them. A scalar value becomes the only field, under its flattened path with `-` turned into `_`. JSON and other kinds produce no field. |
| GnmiClient.FieldNameShape | gnmi/main.go:281 | A field name has the length of the flattened path, differs from it only where `-` became `_`, and contains no `-`. |
| GnmiClient.HandleSubscribeResponse | gnmi/main.go:202-248 | Only an Update response is handled. The reported tags are the prefix keys plus `source` and `path`. There is one field map per update, in order. The final tags are the prefix tags after every update has written its keys. |
| GnmiClient.TagPrefix | gnmi/main.go:209-218 | A fresh tag map holds the flattened prefix's keys, then `source` set to the host and `path` set to the flattened prefix. |
| GnmiClient.HandleUpdates | gnmi/main.go:234-248 | The update loop yields each update's fields in order and writes all updates' keys into the shared tag map. |
| GnmiClient.PrefixTagsFixed | gnmi/main.go:212-218 | `path` and `source` win over prefix keys of the same name. Without a prefix they are the only tags. With a prefix, every other tag is a prefix key. |
| GnmiClient.FinalTagsKeepSourceAndPath | gnmi/main.go:217-235 | No update key can overwrite `source` or `path`, because a taken short name sends the key to a qualified name. |
| GnmiSubscribe.NewSubscription | gnmi/main.go:121-135 | One subscription: its path is parsed with an empty target, then its mode is looked up in upper case, then the intervals are converted as Go's `uint64(...)` does. |
| GnmiSubscribe.NewSubscribeRequest | gnmi/main.go:117-159 | The method returns exactly `Request(c)`: the subscriptions in order stopping at the first error, then the prefix path, then the encoding check. |
| GnmiSubscribe.Start | gnmi/main.go:73-78 | The method returns exactly `Validate(c)`: the request first, then the redial check. |
| GnmiSubscribe.CollectFirstError | gnmi/main.go:120-128 | A loop that returns on its first error reports the error of the first failing item. Every item before it succeeded. |
| GnmiSubscribe.SubscriptionsSucceed | gnmi/main.go:119-136 | The subscriptions succeed if and only if each one does. |
| GnmiSubscribe.SubscriptionsValues | gnmi/main.go:119-136 | Successful subscriptions are, one for one and in order, each configuration's own subscription. |
| GnmiSubscribe.FirstErrorReported | gnmi/main.go:120-128 | Failing subscriptions report the error of the first configuration that fails. |
| GnmiSubscribe.SubscriptionErrors | gnmi/main.go:121-128 | A subscription fails on a bad path before its mode is examined, and fails with an invalid-mode error only when its path parses. |
| GnmiSubscribe.ModeCaseInsensitive | gnmi/main.go:125 | Mode names are matched without regard to (ASCII) case. |
| GnmiSubscribe.RequestSucceeds | gnmi/main.go:117-159 | A request is built if and only if every subscription is valid, the prefix path parses, and the encoding is `proto`. |
| GnmiSubscribe.RequestContents | gnmi/main.go:129-158 | A built request holds the prefix parsed with the configured origin and target, the PROTO encoding, and the updates-only flag. It holds one subscription per configured one, with the same origin, an empty target, the looked-up mode, and the converted intervals. |
| GnmiSubscribe.NegativeIntervalWraps | gnmi/main.go:132 | A negative sample interval is sent as its two's-complement value, that is, plus 2^64. |
| GnmiSubscribe.StartOrder | gnmi/main.go:74-78 | `Start` succeeds if and only if the request is built and the redial period is positive. A configuration error is reported as is. The redial error appears only when the request is valid. |
| MdtFields.NameBuffer.Truncate | cisco_telemetry_mdt/dial_out/dial_out.go:172 | `bytes.Buffer.Truncate(n)` keeps the first n characters, and demands that n is at most the length. |
| MdtFields.ParseField | cisco_telemetry_mdt/dial_out/dial_out.go:127-173 | The name buffer is restored. With a field map, the map receives every valued node under its `/`-joined name, in tree order, and the tag map is untouched. Without a field map, the tag map receives the same writes, rendered as strings. The dial-in KV collector holds the same function up to a print of each value (lines 148-195 of its `main.go`); it is a free function there, not a method. |
| MdtFields.ParseChildren | cisco_telemetry_mdt/dial_out/dial_out.go:168-170 | The children loop makes the writes of every child in order, and leaves the buffer as it found it. |
| MdtFields.EntriesUnder | cisco_telemetry_mdt/dial_out/dial_out.go:130-134 | Every name a node writes starts with the node's own name. Below a non-empty buffer, every name starts with the buffer's text and `/`. |
| MdtFields.EntriesCount | cisco_telemetry_mdt/dial_out/dial_out.go:159-170 | A tree makes exactly one write per node that has a value. |
| MdtFields.ValuelessWritesNothing | cisco_telemetry_mdt/dial_out/dial_out.go:159-166 | A tree writes nothing if and only if none of its nodes has a value. |
| MdtFields.PutAllHas | cisco_telemetry_mdt/dial_out/dial_out.go:161-165 | After writes in order, a name is present if and only if it was present before or some write names it. |
| MdtFields.PutAllLast | cisco_telemetry_mdt/dial_out/dial_out.go:161-165 | After writes in order, a name holds the value of its last write. A name that no write names keeps its old value. |
| MdtGroup.DecodeGroup | cisco_telemetry_mdt/dial_out/dial_out.go:75-121 | One row decodes to exactly `GroupOf`: its time, the tags of its last `keys` field, the fields of its last `content` field, and the validity test. It starts and ends with an empty name buffer. The dial-in KV loop body (lines 95-141 of its `main.go`) is the same. |
| MdtGroup.DecodeMessage | cisco_telemetry_mdt/dial_in_kv/main.go:94-142 | Every row of a message is decoded in order with the one buffer, which is left empty. |
| MdtGroup.SeedTags | cisco_telemetry_mdt/dial_out/dial_out.go:93-97 | A fresh tag map holds exactly the four seed tags. |
| MdtGroup.TimeSplit | cisco_telemetry_mdt/dial_out/dial_out.go:87 | Milliseconds split into whole seconds and a nanosecond part below one second that is a whole number of milliseconds. Together they give back the milliseconds. |
| MdtGroup.GroupTime | cisco_telemetry_mdt/dial_in_kv/main.go:102-107 | A row's time is its own timestamp unless that is 0, and then the message's timestamp. |
| MdtGroup.LastIsLast | cisco_telemetry_mdt/dial_out/dial_out.go:90-105 | A `keys` (or `content`) map exists if and only if a top-level field has that name, and it comes from the last such field. |
| MdtGroup.KeyOverrides | cisco_telemetry_mdt/dial_out/dial_out.go:93-100 | A decoded key replaces a seed tag or an earlier key of the same name. The tag holds the rendered value of its last write. |
| MdtGroup.SeedKept | cisco_telemetry_mdt/dial_out/dial_out.go:93-97 | A seed tag that no decoded key names keeps its value. |
| MdtGroup.KeysTagsNonEmpty | cisco_telemetry_mdt/dial_out/dial_out.go:93-97 | A `keys` field always yields tags, at least the four seed names. |
| MdtGroup.ContentFieldsNonEmpty | cisco_telemetry_mdt/dial_out/dial_out.go:101-105 | A `content` field yields fields if and only if one of its nodes has a value. |
| MdtGroup.TagsPresent | cisco_telemetry_mdt/dial_out/dial_out.go:79-100 | A row has tags if and only if some top-level field is named `keys`. |
| MdtGroup.FieldsPresent | cisco_telemetry_mdt/dial_out/dial_out.go:76-105 | A row has fields if and only if its last `content` field has a node with a value. |
| MdtGroup.ValidGroup | cisco_telemetry_mdt/dial_in_kv/main.go:132 | A row is a measurement if and only if the encoding path is non-empty, some top-level field is `keys`, and the last `content` field has a node with a value. |
| MdtDialInKv.Receive | cisco_telemetry_mdt/dial_in_kv/main.go:84-143 | Every received message is decoded in turn with one session-wide buffer, including a message whose unmarshal failed. |
| MdtDialOut.HandleTelemetry | cisco_telemetry_mdt/dial_out/dial_out.go:63-124 | A packet that fails to unmarshal yields nothing. Any other packet yields the measurements of all its rows. |

## Left out

- Networking is not modelled: gRPC dialing, TLS, credentials, the subscribe stream, the dial-out server's accept loop and `MdtDialout`, the dial-in session setup and timeouts. Neither are goroutines, contexts, signals, or the redial timer loop in `Start` (lines 80-113). These are I/O and concurrency.
- Printing and logging are not modelled. Where the source only prints a result (the fields in `handleSubscribeResponse`, the tags and fields of an MDT measurement), the model returns it instead.
- `proto.Unmarshal` is outside the model. A message arrives as its decoded value plus a flag saying whether the unmarshal reported an error.
- `net.SplitHostPort` is outside the model. Its host part is the `host` parameter of `GnmiClient.HandleSubscribeResponse`.
- Two library calls are function parameters. `fmt.Sprint` of a value is the `render` parameter. `time.Unix(sec, nsec).String()` is the `timeText` parameter.
- `json.Unmarshal` is not modelled. Its result is discarded by the source (gnmi/main.go:285-289), so a JSON value produces no field either way.
- Floating point is not interpreted. MDT double and float values, and gNMI float and decimal values, are kept as raw bits or parts.
- `GetNodeIdStr` and `GetSubscriptionIdStr` are not modelled as oneof getters. They are given as plain strings in the message.
- GnmiFlatten.HandlePath: Go iterates a key map in no fixed order, so which of two colliding keys gets the short name can vary between runs. The model takes the keys in the order the element lists them (insertion order in the parser).
- GnmiSubscribe.ModeCaseInsensitive, GnmiSubscribe.NewSubscription, GnmiSubscribe.NewSubscribeRequest: `strings.ToUpper` is modelled for ASCII letters only. Unicode case mapping is not modelled: Go upper-cases `ſample` (with U+017F) to `SAMPLE` and accepts that mode, while the model rejects it as an invalid mode.
- GnmiClient.HandleSubscribeResponse: the alias-path renaming of field keys (gnmi/main.go:237-244) is not modelled as a transformation. `handlePath` always returns an empty alias, so the renaming never applies.
- GnmiClient.HandleTelemetryField: an update with no path or no value (a nil `Path` or `Val`, as with the deprecated `value` field) makes the source panic at gnmi/main.go:253 and :258. The model's update always has both, so that panic is not modelled.
- GnmiClient.HandleTelemetryField: all TypedValue kinds that the type switch does not read (leaf lists, `Any`, proto bytes, an unset value) are one `OtherVal` case.
- MdtFields.ParseField: the source panics when a node has a value and both maps are nil. The requires clause excludes that case. Every caller in the source passes a non-nil map.
- MdtFields.ParseField: the `path` and `timestamp` arguments are unused by the source and are not parameters.
- The other collectors, `cisco_telemetry_mdt/dial_in/main.go` (JSON encoding) and `cisco_telemetry_mdt/dial_out_nx/main.go`, are not part of this model. Neither are the command-line flag handling and `main` functions.
