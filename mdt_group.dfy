/** The decode of one message's `DataGpbkv` groups, as the dial-in KV
    collector and the dial-out server both do it. A group's time is its own
    millisecond timestamp, or the message's when the group's is 0. Its
    top-level fields are dispatched by name: "keys" starts a fresh tag map
    seeded with the producer, subscription, encoding path and rendered time
    and decodes its children into it; "content" starts a fresh field map
    and decodes its children into that; any other name is only logged. The
    group is a measurement when both maps and the encoding path are
    non-empty. */
module MdtGroup {
  import opened Common
  import opened MdtFields

  /** One `TelemetryField` of `DataGpbkv`: its timestamp and top-level fields. */
  datatype Gpbkv = Gpbkv(timestamp: uint64, fields: seq<Field>)

  /** A `telemetry.Telemetry` message, as far as the decode reads it;
      `nodeId` and `subscriptionId` are what `GetNodeIdStr` and
      `GetSubscriptionIdStr` return. */
  datatype Telemetry = Telemetry(
    nodeId: string,
    subscriptionId: string,
    encodingPath: string,
    msgTimestamp: uint64,
    groups: seq<Gpbkv>)

  /** What one group yields: its tags and fields (a nil map is empty), its
      time as `time.Unix` arguments, and whether it is a measurement. */
  datatype Measurement = Measurement(
    tags: map<string, string>,
    fields: map<string, Value>,
    seconds: int,
    nanos: int,
    valid: bool)

  /** The milliseconds a group is measured at. */
  function Measured(msg: Telemetry, g: Gpbkv): uint64
  {
    if g.timestamp == 0 then msg.msgTimestamp else g.timestamp
  }

  function Seconds(ms: uint64): int
  {
    ms / 1000
  }

  function Nanos(ms: uint64): int
  {
    (ms % 1000) * 1000000
  }

  /** The four tags a "keys" field starts from. */
  function Seeds(msg: Telemetry, stamp: string): map<string, string>
  {
    map["Producer" := msg.nodeId, "Target" := msg.subscriptionId,
        "EncodingPath" := msg.encodingPath, "TimeStamp" := stamp]
  }

  /** The tags of a "keys" field, decoded with an empty name buffer. */
  function KeysTags(msg: Telemetry, stamp: string, k: Field, render: Value -> string): map<string, string>
  {
    PutAll(Seeds(msg, stamp), Rendered(EntriesOf("", k.fields), render))
  }

  /** The fields of a "content" field, decoded with an empty name buffer. */
  function ContentFields(c: Field): map<string, Value>
  {
    PutAll(map[], EntriesOf("", c.fields))
  }

  /** The last top-level field of a name: each "keys" or "content" field
      replaces the map the one before it made. */
  function Last(fs: seq<Field>, name: string): Option<Field>
  {
    if fs == [] then None
    else if fs[|fs| - 1].name == name then Some(fs[|fs| - 1])
    else Last(fs[..|fs| - 1], name)
  }

  /** The tags after the top-level fields: a nil map without "keys". */
  function TagsOf(msg: Telemetry, stamp: string, fs: seq<Field>, render: Value -> string): map<string, string>
  {
    match Last(fs, "keys")
    case None => map[]
    case Some(k) => KeysTags(msg, stamp, k, render)
  }

  /** The fields after the top-level fields: a nil map without "content". */
  function FieldsOf(fs: seq<Field>): map<string, Value>
  {
    match Last(fs, "content")
    case None => map[]
    case Some(c) => ContentFields(c)
  }

  /** One group, with `timeText(sec, nsec)` for `time.Unix(sec,
      nsec).String()`. */
  function GroupOf(msg: Telemetry, g: Gpbkv, render: Value -> string, timeText: (int, int) -> string): Measurement
  {
    var ms := Measured(msg, g);
    var tags := TagsOf(msg, timeText(Seconds(ms), Nanos(ms)), g.fields, render);
    var fields := FieldsOf(g.fields);
    Measurement(tags, fields, Seconds(ms), Nanos(ms), |fields| > 0 && |tags| > 0 && |msg.encodingPath| > 0)
  }

  /** Every group of a message, in order. */
  function Measurements(msg: Telemetry, render: Value -> string, timeText: (int, int) -> string): seq<Measurement>
  {
    seq(|msg.groups|, i requires 0 <= i < |msg.groups| => GroupOf(msg, msg.groups[i], render, timeText))
  }

  /** The body of the loop over `DataGpbkv`, with the name buffer the
      caller owns; the buffer is empty at every top-level decode call and
      is left empty. */
  method DecodeGroup(msg: Telemetry, g: Gpbkv, buf: NameBuffer, render: Value -> string, timeText: (int, int) -> string)
    returns (out: Measurement)
    requires buf.text == ""
    modifies buf
    ensures buf.text == ""
    ensures out == GroupOf(msg, g, render, timeText)
  {
    var fields: Table?<Value> := null;
    var tags: Table?<string> := null;
    var measured := g.timestamp;
    if measured == 0 {
      measured := msg.msgTimestamp;
    }
    var seconds, nanos := measured / 1000, (measured % 1000) * 1000000;
    var stamp := timeText(seconds, nanos);

    var i := 0;
    while i < |g.fields|
      invariant 0 <= i <= |g.fields|
      invariant buf.text == ""
      invariant tags != null ==> fresh(tags)
      invariant fields != null ==> fresh(fields)
      invariant tags == null <==> Last(g.fields[..i], "keys").None?
      invariant tags != null ==> tags.entries == KeysTags(msg, stamp, Last(g.fields[..i], "keys").value, render)
      invariant fields == null <==> Last(g.fields[..i], "content").None?
      invariant fields != null ==> fields.entries == ContentFields(Last(g.fields[..i], "content").value)
    {
      var field := g.fields[i];
      LastNext(g.fields, i, "keys");
      LastNext(g.fields, i, "content");
      if field.name == "keys" {
        tags := SeedTags(msg, stamp);
        ParseChildren(field.fields, buf, tags, null, render);
      } else if field.name == "content" {
        fields := new Table<Value>();
        ParseChildren(field.fields, buf, tags, fields, render);
      }
      i := i + 1;
    }
    assert g.fields[..i] == g.fields;

    var t: map<string, string> := if tags == null then map[] else tags.entries;
    var f: map<string, Value> := if fields == null then map[] else fields.entries;
    out := Measurement(t, f, seconds, nanos, |f| > 0 && |t| > 0 && |msg.encodingPath| > 0);
  }

  /** `tags = make(...)` and the four seeds written into it. */
  method SeedTags(msg: Telemetry, stamp: string) returns (tags: Table<string>)
    ensures fresh(tags)
    ensures tags.entries == Seeds(msg, stamp)
  {
    tags := new Table<string>();
    tags.Put("Producer", msg.nodeId);
    tags.Put("Target", msg.subscriptionId);
    tags.Put("EncodingPath", msg.encodingPath);
    tags.Put("TimeStamp", stamp);
  }

  /** One more top-level field. */
  lemma LastNext(fs: seq<Field>, i: nat, name: string)
    requires i < |fs|
    ensures Last(fs[..i + 1], name) == if fs[i].name == name then Some(fs[i]) else Last(fs[..i], name)
  {
    assert fs[..i + 1][..i] == fs[..i];
  }

  /** The loop over a message's groups, all with the one buffer. */
  method DecodeMessage(msg: Telemetry, buf: NameBuffer, render: Value -> string, timeText: (int, int) -> string)
    returns (out: seq<Measurement>)
    requires buf.text == ""
    modifies buf
    ensures buf.text == ""
    ensures out == Measurements(msg, render, timeText)
  {
    out := [];
    var i := 0;
    while i < |msg.groups|
      invariant 0 <= i <= |msg.groups|
      invariant buf.text == ""
      invariant out == Measurements(msg, render, timeText)[..i]
    {
      var m := DecodeGroup(msg, msg.groups[i], buf, render, timeText);
      out := out + [m];
      i := i + 1;
    }
  }

  // ----- the time of a group -----

  /** The milliseconds split into whole seconds and a nanosecond part that
      is below one second, a whole number of milliseconds, and together
      with the seconds gives back the milliseconds. */
  lemma TimeSplit(ms: uint64)
    ensures 0 <= Nanos(ms) < 1000000000
    ensures Nanos(ms) % 1000000 == 0
    ensures Seconds(ms) * 1000 + Nanos(ms) / 1000000 == ms
    ensures Seconds(ms) >= 0
  {
    var r := ms % 1000;
    assert Nanos(ms) == r * 1000000;
    assert (r * 1000000) / 1000000 == r;
    assert (r * 1000000) % 1000000 == 0;
  }

  /** A group's time is its own timestamp unless that is 0, and then the
      message's. */
  lemma GroupTime(msg: Telemetry, g: Gpbkv, render: Value -> string, timeText: (int, int) -> string)
    ensures var out := GroupOf(msg, g, render, timeText);
      && 0 <= out.nanos < 1000000000 && out.nanos % 1000000 == 0
      && out.seconds * 1000 + out.nanos / 1000000 == (if g.timestamp != 0 then g.timestamp else msg.msgTimestamp)
  {
    TimeSplit(Measured(msg, g));
  }

  // ----- the dispatch -----

  /** A field of the name exists exactly when there is a last one, and the
      last one is the one no later field of that name follows. */
  lemma {:induction false} LastIsLast(fs: seq<Field>, name: string)
    ensures Last(fs, name).Some? <==> exists i :: 0 <= i < |fs| && fs[i].name == name
    ensures forall i :: 0 <= i < |fs| && fs[i].name == name && (forall j :: i < j < |fs| ==> fs[j].name != name) ==>
      Last(fs, name) == Some(fs[i])
  {
    if fs != [] {
      var init := fs[..|fs| - 1];
      LastIsLast(init, name);
      assert forall i :: 0 <= i < |init| ==> fs[i] == init[i];
    }
  }

  /** A decoded key replaces a seed or earlier key of the same name: the
      tag holds the last value written under it. */
  lemma KeyOverrides(msg: Telemetry, stamp: string, k: Field, render: Value -> string, i: nat)
    requires i < |EntriesOf("", k.fields)|
    requires forall j :: i < j < |EntriesOf("", k.fields)| ==> EntriesOf("", k.fields)[j].0 != EntriesOf("", k.fields)[i].0
    ensures EntriesOf("", k.fields)[i].0 in KeysTags(msg, stamp, k, render)
    ensures KeysTags(msg, stamp, k, render)[EntriesOf("", k.fields)[i].0] == render(EntriesOf("", k.fields)[i].1)
  {
    var es := EntriesOf("", k.fields);
    RenderedLast(Seeds(msg, stamp), es, render, es[i].0, i);
  }

  /** A seed that no decoded key names keeps its value. */
  lemma SeedKept(msg: Telemetry, stamp: string, k: Field, render: Value -> string, x: string)
    requires x in Seeds(msg, stamp)
    requires forall j :: 0 <= j < |EntriesOf("", k.fields)| ==> EntriesOf("", k.fields)[j].0 != x
    ensures x in KeysTags(msg, stamp, k, render) && KeysTags(msg, stamp, k, render)[x] == Seeds(msg, stamp)[x]
  {
    RenderedUntouched(Seeds(msg, stamp), EntriesOf("", k.fields), render, x);
  }

  /** The last write to x, rendered, is what x holds. */
  lemma RenderedLast(m: map<string, string>, es: seq<(string, Value)>, render: Value -> string, x: string, i: nat)
    requires i < |es| && es[i].0 == x && forall j :: i < j < |es| ==> es[j].0 != x
    ensures x in PutAll(m, Rendered(es, render)) && PutAll(m, Rendered(es, render))[x] == render(es[i].1)
  {
    var rs := Rendered(es, render);
    assert rs[i] == (x, render(es[i].1));
    assert forall j :: i < j < |rs| ==> rs[j].0 == es[j].0;
    PutAllLast(m, rs, x);
  }

  /** A key no write names keeps its value. */
  lemma RenderedUntouched(m: map<string, string>, es: seq<(string, Value)>, render: Value -> string, x: string)
    requires x in m && forall j :: 0 <= j < |es| ==> es[j].0 != x
    ensures x in PutAll(m, Rendered(es, render)) && PutAll(m, Rendered(es, render))[x] == m[x]
  {
    var rs := Rendered(es, render);
    assert forall j :: 0 <= j < |rs| ==> rs[j].0 == es[j].0;
    PutAllLast(m, rs, x);
  }

  /** A "keys" field always yields tags: at least the seeds' names. */
  lemma KeysTagsNonEmpty(msg: Telemetry, stamp: string, k: Field, render: Value -> string)
    ensures Seeds(msg, stamp).Keys <= KeysTags(msg, stamp, k, render).Keys
    ensures |KeysTags(msg, stamp, k, render)| > 0
  {
    var es := Rendered(EntriesOf("", k.fields), render);
    forall x | x in Seeds(msg, stamp) ensures x in KeysTags(msg, stamp, k, render) {
      PutAllHas(Seeds(msg, stamp), es, x);
    }
    assert "Producer" in KeysTags(msg, stamp, k, render);
  }

  /** A "content" field yields fields exactly when one of its nodes has a
      value. */
  lemma ContentFieldsNonEmpty(c: Field)
    ensures |ContentFields(c)| > 0 <==> ValuedOf(c.fields) > 0
  {
    EntriesOfCount("", c.fields);
    PutAllNonEmpty(EntriesOf("", c.fields));
  }

  /** Writes into an empty map leave it empty only when there are none. */
  lemma PutAllNonEmpty<V>(es: seq<(string, V)>)
    ensures |PutAll(map[], es)| > 0 <==> es != []
  {
    if es != [] {
      PutAllHas(map[], es, es[0].0);
    }
  }

  /** The group has tags exactly when some top-level field is "keys". */
  lemma TagsPresent(msg: Telemetry, stamp: string, fs: seq<Field>, render: Value -> string)
    ensures |TagsOf(msg, stamp, fs, render)| > 0 <==> exists i :: 0 <= i < |fs| && fs[i].name == "keys"
  {
    LastIsLast(fs, "keys");
    if Last(fs, "keys").Some? {
      KeysTagsNonEmpty(msg, stamp, Last(fs, "keys").value, render);
    }
  }

  /** The group has fields exactly when its last "content" field has a
      node with a value. */
  lemma FieldsPresent(fs: seq<Field>)
    ensures |FieldsOf(fs)| > 0 <==>
      exists i :: 0 <= i < |fs| && fs[i].name == "content"
        && (forall j :: i < j < |fs| ==> fs[j].name != "content")
        && ValuedOf(fs[i].fields) > 0
  {
    LastIsLast(fs, "content");
    if Last(fs, "content").Some? {
      var i := LastNamed(fs, "content");
      ContentFieldsNonEmpty(fs[i]);
    }
  }

  /** A group is a measurement exactly when the encoding path is not
      empty, some top-level field is "keys", and the last "content" field
      has a node with a value. */
  lemma ValidGroup(msg: Telemetry, g: Gpbkv, render: Value -> string, timeText: (int, int) -> string)
    ensures GroupOf(msg, g, render, timeText).valid <==>
      && |msg.encodingPath| > 0
      && (exists i :: 0 <= i < |g.fields| && g.fields[i].name == "keys")
      && (exists i :: 0 <= i < |g.fields| && g.fields[i].name == "content"
            && (forall j :: i < j < |g.fields| ==> g.fields[j].name != "content")
            && ValuedOf(g.fields[i].fields) > 0)
  {
    var ms := Measured(msg, g);
    var stamp := timeText(Seconds(ms), Nanos(ms));
    TagsPresent(msg, stamp, g.fields, render);
    FieldsPresent(g.fields);
  }

  /** The last top-level field of a name that some field has. */
  lemma LastNamed(fs: seq<Field>, name: string) returns (i: nat)
    requires exists i :: 0 <= i < |fs| && fs[i].name == name
    ensures i < |fs| && fs[i].name == name && forall j :: i < j < |fs| ==> fs[j].name != name
  {
    i := |fs| - 1;
    while fs[i].name != name
      invariant 0 <= i < |fs|
      invariant forall j :: i < j < |fs| ==> fs[j].name != name
      decreases i
    {
      i := i - 1;
    }
  }
}
