/** What the collector does with one gNMI `SubscribeResponse`: only an
    Update notification is handled. Its prefix path is flattened and its
    keys become tags, together with the fixed tags "source" (the device
    host) and "path" (the flattened prefix, which wins over a prefix key
    of that name). The tags are then copied, and each update writes its own
    path keys into that one copy, in turn, before its value is stored under
    its flattened path with '-' turned into '_'. */
module GnmiClient {
  import opened Common
  import opened Text
  import opened GnmiPath
  import opened GnmiFlatten

  /** `gnmi.TypedValue`: the value kinds the collector reads; `OtherVal`
      stands for the kinds it ignores (leaf lists, `Any`, proto bytes) and
      for an unset value. Floating point and decimal payloads are kept as
      their raw parts. */
  datatype TypedValue =
    | AsciiVal(ascii: string)
    | BoolVal(flag: bool)
    | BytesVal(bytes: seq<bv8>)
    | DecimalVal(digits: int64, precision: uint32)
    | FloatVal(bits: bv32)
    | IntVal(signed: int64)
    | StringVal(text: string)
    | UintVal(unsigned: uint64)
    | JsonIetfVal(ietf: seq<bv8>)
    | JsonVal(json: seq<bv8>)
    | OtherVal

  /** The kinds the type switch turns into a field value. */
  predicate Scalar(v: TypedValue)
  {
    !(v.JsonIetfVal? || v.JsonVal? || v.OtherVal?)
  }

  datatype Update = Update(path: Path, val: TypedValue)

  datatype Notification = Notification(timestamp: int64, prefix: Option<Path>, updates: seq<Update>)

  datatype SubscribeResponse =
    | UpdateResponse(notification: Notification)
    | SyncResponse
    | ErrorResponse

  /** The name a value is stored under: the flattened path of its update,
      after the prefix string, with every '-' turned into '_'. */
  function FieldName(prefix: string, path: Path): string
  {
    Underscored(Base(prefix, path.origin) + Join(Names(path.elems)))
  }

  /** `handleTelemetryField(update, tags, prefix)`: the path keys go into
      `tags`, and a scalar value becomes the only field, under the field
      name; a JSON value is decoded and thrown away, and any other kind is
      ignored, so both leave no field. */
  method HandleTelemetryField(update: Update, tags: Table?<string>, prefix: string)
    returns (alias: string, fields: map<string, TypedValue>)
    modifies tags
    ensures alias == ""
    ensures tags != null ==>
      tags.entries == WriteElems(old(tags.entries), Base(prefix, update.path.origin), update.path.elems)
    ensures Scalar(update.val) ==> fields == map[FieldName(prefix, update.path) := update.val]
    ensures !Scalar(update.val) ==> fields == map[]
  {
    var path;
    path, alias := HandlePath(update.path, tags, prefix);
    var name := Underscored(path);
    fields := map[];
    if Scalar(update.val) {
      fields := fields[name := update.val];
    }
  }

  /** A field name holds no '-', and names the same flattened path. */
  lemma FieldNameShape(prefix: string, path: Path)
    ensures var flat := Base(prefix, path.origin) + Join(Names(path.elems));
      && |FieldName(prefix, path)| == |flat|
      && (forall i :: 0 <= i < |flat| ==> FieldName(prefix, path)[i] == flat[i] || (flat[i] == '-' && FieldName(prefix, path)[i] == '_'))
      && forall i :: 0 <= i < |flat| ==> FieldName(prefix, path)[i] != '-'
  {
    UnderscoredIdempotent(Base(prefix, path.origin) + Join(Names(path.elems)));
  }

  // ----- one response -----

  /** What the handler reports for an Update: the tags as assembled from
      the prefix, each update's fields, and the tag map once every update
      has written its keys into it. */
  datatype Report = Report(tags: map<string, string>, fields: seq<map<string, TypedValue>>, finalTags: map<string, string>)

  /** The flattened prefix, or "" without one. */
  function PrefixString(n: Notification): string
  {
    if n.prefix.Some? then Base("", n.prefix.value.origin) + Join(Names(n.prefix.value.elems)) else ""
  }

  /** The prefix keys, then "source" and "path". */
  function PrefixTags(host: string, n: Notification): map<string, string>
  {
    var keyed := if n.prefix.Some? then WriteElems(map[], Base("", n.prefix.value.origin), n.prefix.value.elems) else map[];
    keyed["source" := host]["path" := PrefixString(n)]
  }

  /** The key writes of the updates, one after the other, into one map. */
  function UpdateTags(t: map<string, string>, prefix: string, updates: seq<Update>): map<string, string>
  {
    if updates == [] then t
    else
      var last := updates[|updates| - 1];
      WriteElems(UpdateTags(t, prefix, updates[..|updates| - 1]), Base(prefix, last.path.origin), last.path.elems)
  }

  /** The fields of one update. */
  function FieldsOf(prefix: string, u: Update): map<string, TypedValue>
  {
    if Scalar(u.val) then map[FieldName(prefix, u.path) := u.val] else map[]
  }

  /** `handleSubscribeResponse(address, reply)`, with `host` the host part
      of the address. */
  method HandleSubscribeResponse(host: string, reply: SubscribeResponse) returns (out: Option<Report>)
    ensures out.None? <==> !reply.UpdateResponse?
    ensures out.Some? ==>
      && out.value.tags == PrefixTags(host, reply.notification)
      && |out.value.fields| == |reply.notification.updates|
      && (forall j :: 0 <= j < |reply.notification.updates| ==>
            out.value.fields[j] == FieldsOf(PrefixString(reply.notification), reply.notification.updates[j]))
      && out.value.finalTags ==
           UpdateTags(PrefixTags(host, reply.notification), PrefixString(reply.notification), reply.notification.updates)
  {
    if !reply.UpdateResponse? {
      return None;
    }
    var n := reply.notification;
    var prefix, prefixAlias, prefixTags := TagPrefix(host, n);
    var tags := new Table<string>.Of(prefixTags.entries);
    var printed := tags.entries;
    var all := HandleUpdates(n.updates, tags, prefix, prefixAlias);
    return Some(Report(printed, all, tags.entries));
  }

  /** The first half of `handleSubscribeResponse`: the prefix flattened,
      and the tags made from its keys, "source" and "path". */
  method TagPrefix(host: string, n: Notification) returns (prefix: string, prefixAlias: string, prefixTags: Table<string>)
    ensures fresh(prefixTags)
    ensures prefix == PrefixString(n) && prefixAlias == ""
    ensures prefixTags.entries == PrefixTags(host, n)
  {
    prefix, prefixAlias := "", "";
    prefixTags := new Table<string>();
    if n.prefix.Some? {
      prefix, prefixAlias := HandlePath(n.prefix.value, prefixTags, "");
    }
    prefixTags.Put("source", host);
    prefixTags.Put("path", prefix);
  }

  /** The loop over the updates of `handleSubscribeResponse`: each writes
      its path keys into the shared `tags` and yields its fields. */
  method HandleUpdates(updates: seq<Update>, tags: Table<string>, prefix: string, prefixAlias: string)
    returns (all: seq<map<string, TypedValue>>)
    modifies tags
    ensures |all| == |updates|
    ensures forall k :: 0 <= k < |updates| ==> all[k] == FieldsOf(prefix, updates[k])
    ensures tags.entries == UpdateTags(old(tags.entries), prefix, updates)
  {
    all := [];
    var j := 0;
    while j < |updates|
      invariant 0 <= j <= |updates|
      invariant |all| == j
      invariant forall k :: 0 <= k < j ==> all[k] == FieldsOf(prefix, updates[k])
      invariant tags.entries == UpdateTags(old(tags.entries), prefix, updates[..j])
    {
      assert updates[..j + 1][..j] == updates[..j];
      var aliasPath, fields := HandleTelemetryField(updates[j], tags, prefix);
      if |prefixAlias| > 0 && |aliasPath| == 0 {
        aliasPath := prefixAlias;
      }
      all := all + [fields];
      j := j + 1;
    }
    assert updates[..j] == updates;
  }

  /** "path" is the flattened prefix and "source" the host, whatever keys
      the prefix has; every other tag is a prefix key as written. */
  lemma PrefixTagsFixed(host: string, n: Notification)
    ensures "path" in PrefixTags(host, n) && PrefixTags(host, n)["path"] == PrefixString(n)
    ensures "source" in PrefixTags(host, n) && PrefixTags(host, n)["source"] == host
    ensures n.prefix.None? ==> PrefixTags(host, n).Keys == {"source", "path"}
    ensures n.prefix.Some? ==> forall x :: x != "source" && x != "path" ==>
      (x in PrefixTags(host, n) <==> x in WriteElems(map[], Base("", n.prefix.value.origin), n.prefix.value.elems))
  {
  }

  // ----- entries without '/' are never rewritten -----

  lemma WriteKeysKeepsPlain(t: map<string, string>, at: string, keys: seq<(string, string)>, x: string)
    requires x in t && '/' !in x
    ensures x in WriteKeys(t, at, keys) && WriteKeys(t, at, keys)[x] == t[x]
  {
    forall i | 0 <= i < |keys| ensures x != at + "/" + Underscored(keys[i].0) {
      assert (at + "/" + Underscored(keys[i].0))[|at|] == '/';
    }
    WriteKeysKeepsShort(t, at, keys, x);
  }

  lemma {:induction false} WriteElemsKeepsPlain(t: map<string, string>, base: string, elems: seq<PathElem>, x: string)
    requires x in t && '/' !in x
    ensures x in WriteElems(t, base, elems) && WriteElems(t, base, elems)[x] == t[x]
  {
    if elems != [] {
      var init, last := elems[..|elems| - 1], elems[|elems| - 1];
      WriteElemsKeepsPlain(t, base, init, x);
      WriteKeysKeepsPlain(WriteElems(t, base, init), base + Join(Names(init)) + "/" + last.name, last.keys, x);
    }
  }

  /** An entry whose name holds no '/' keeps its value through every later
      update: a key that finds its short name taken is written under a
      qualified name, which holds a '/'. So "source", "path" and the prefix
      keys stored under short names are what the updates leave them. */
  lemma {:induction false} UpdatesKeepPlain(t: map<string, string>, prefix: string, updates: seq<Update>, x: string)
    requires x in t && '/' !in x
    ensures x in UpdateTags(t, prefix, updates) && UpdateTags(t, prefix, updates)[x] == t[x]
  {
    if updates != [] {
      var init, last := updates[..|updates| - 1], updates[|updates| - 1];
      UpdatesKeepPlain(t, prefix, init, x);
      WriteElemsKeepsPlain(UpdateTags(t, prefix, init), Base(prefix, last.path.origin), last.path.elems, x);
    }
  }

  /** So after any number of updates the tags still say where the data came
      from and which prefix it was under. */
  lemma FinalTagsKeepSourceAndPath(host: string, n: Notification)
    ensures var f := UpdateTags(PrefixTags(host, n), PrefixString(n), n.updates);
      && "source" in f && f["source"] == host
      && "path" in f && f["path"] == PrefixString(n)
  {
    PrefixTagsFixed(host, n);
    UpdatesKeepPlain(PrefixTags(host, n), PrefixString(n), n.updates, "source");
    UpdatesKeepPlain(PrefixTags(host, n), PrefixString(n), n.updates, "path");
  }
}
