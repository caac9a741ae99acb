/** `parseGPBKVField`, the flattener of the Cisco MDT self-describing
    key/value tree (the dial-in KV collector and the dial-out server hold
    the same function). Each node's name is appended to a shared name
    buffer, '/'-separated when the buffer is not empty; a node with a value
    writes it under the buffer's text, raw into the field map when there is
    one and otherwise rendered as a string into the tag map; the children
    follow in order, and the buffer is cut back to its length on entry. */
module MdtFields {
  import opened Common

  /** The `ValueByType` oneof of a `TelemetryField`; floating point
      values are kept as their IEEE 754 bits. */
  datatype Value =
    | BytesValue(bytes: seq<bv8>)
    | StringValue(text: string)
    | BoolValue(flag: bool)
    | Uint32Value(u32: uint32)
    | Uint64Value(u64: uint64)
    | Sint32Value(s32: int32)
    | Sint64Value(s64: int64)
    | DoubleValue(f64: bv64)
    | FloatValue(f32: bv32)

  /** A `TelemetryField`: a name, the value when one is set, children. */
  datatype Field = Field(name: string, value: Option<Value>, fields: seq<Field>)

  /** Go's `bytes.Buffer`, as far as the name buffer uses it. */
  class NameBuffer {
    var text: string

    constructor ()
      ensures text == ""
    {
      text := "";
    }

    method Len() returns (n: nat)
      ensures n == |text|
    {
      n := |text|;
    }

    method WriteRune(c: char)
      modifies this
      ensures text == old(text) + [c]
    {
      text := text + [c];
    }

    method WriteString(s: string)
      modifies this
      ensures text == old(text) + s
    {
      text := text + s;
    }

    /** `Truncate(n)`, which panics unless n is at most the length. */
    method Truncate(n: nat)
      requires n <= |text|
      modifies this
      ensures text == old(text)[..n]
    {
      text := text[..n];
    }

    method String() returns (s: string)
      ensures s == text
    {
      s := text;
    }
  }

  /** The name a node is written under, below a buffer holding `prefix`. */
  function Key(prefix: string, name: string): string
  {
    if |prefix| > 0 then prefix + "/" + name else name
  }

  /** The writes a node makes, in order: its own value, then those of its
      children, each below the node's key. */
  function Entries(prefix: string, f: Field): seq<(string, Value)>
    decreases f, 1
  {
    var key := Key(prefix, f.name);
    (if f.value.Some? then [(key, f.value.value)] else []) + EntriesOf(key, f.fields)
  }

  /** The writes of sibling nodes, left to right. */
  function EntriesOf(prefix: string, fs: seq<Field>): seq<(string, Value)>
    decreases fs, 0
  {
    if fs == [] then [] else EntriesOf(prefix, fs[..|fs| - 1]) + Entries(prefix, fs[|fs| - 1])
  }

  /** Map writes in order: a later write to a key replaces an earlier one. */
  function PutAll<V>(m: map<string, V>, es: seq<(string, V)>): map<string, V>
  {
    if es == [] then m else PutAll(m, es[..|es| - 1])[es[|es| - 1].0 := es[|es| - 1].1]
  }

  /** The writes into the tag map: each value as `fmt.Sprint` renders it. */
  function Rendered(es: seq<(string, Value)>, render: Value -> string): seq<(string, string)>
  {
    seq(|es|, i requires 0 <= i < |es| => (es[i].0, render(es[i].1)))
  }

  /** No node of the tree carries a value. */
  predicate Valueless(f: Field)
  {
    f.value.None? && forall i :: 0 <= i < |f.fields| ==> Valueless(f.fields[i])
  }

  /** `parseGPBKVField(field, namebuf, path, timestamp, tags, fields)`; the
      path and timestamp arguments are unused and left out, a nil map is a
      null table, and `render` stands for `fmt.Sprint`. A value is written
      to `fields` when it is non-nil and to `tags` otherwise, so the caller
      must pass a map whenever some node has a value. */
  method ParseField(field: Field, buf: NameBuffer, tags: Table?<string>, fields: Table?<Value>, render: Value -> string)
    requires fields != null || tags != null || Valueless(field)
    modifies buf, tags, fields
    decreases field, 1
    ensures buf.text == old(buf.text)
    ensures fields != null ==> fields.entries == PutAll(old(fields.entries), Entries(old(buf.text), field))
    ensures fields != null && tags != null ==> tags.entries == old(tags.entries)
    ensures fields == null && tags != null ==>
      tags.entries == PutAll(old(tags.entries), Rendered(Entries(old(buf.text), field), render))
  {
    ghost var prefix := buf.text;
    var namelen := buf.Len();
    if namelen > 0 {
      buf.WriteRune('/');
    }
    buf.WriteString(field.name);
    assert buf.text == Key(prefix, field.name);

    ghost var own: seq<(string, Value)> := [];
    if field.value.Some? {
      var name := buf.String();
      own := [(name, field.value.value)];
      if fields != null {
        fields.Put(name, field.value.value);
      } else {
        tags.Put(name, render(field.value.value));
      }
    }
    assert fields != null ==> fields.entries == PutAll(old(fields.entries), own) by {
      if fields != null && own != [] {
        assert own[..0] == [];
      }
    }
    assert fields == null && tags != null ==> tags.entries == PutAll(old(tags.entries), Rendered(own, render)) by {
      if fields == null && tags != null && own != [] {
        assert Rendered(own, render)[..0] == [];
      }
    }

    ParseChildren(field.fields, buf, tags, fields, render);
    if fields != null {
      PutAllAppend(old(fields.entries), own, EntriesOf(Key(prefix, field.name), field.fields));
    }
    if fields == null && tags != null {
      RenderedAppend(own, EntriesOf(Key(prefix, field.name), field.fields), render);
      PutAllAppend(old(tags.entries), Rendered(own, render), Rendered(EntriesOf(Key(prefix, field.name), field.fields), render));
    }
    buf.Truncate(namelen);
  }

  /** `for _, subfield := range fs { parseGPBKVField(subfield, ...) }`,
      the loop over a node's children and over the children of a top-level
      "keys" or "content" field. */
  method ParseChildren(fs: seq<Field>, buf: NameBuffer, tags: Table?<string>, fields: Table?<Value>, render: Value -> string)
    requires fields != null || tags != null || forall i :: 0 <= i < |fs| ==> Valueless(fs[i])
    modifies buf, tags, fields
    decreases fs, 0
    ensures buf.text == old(buf.text)
    ensures fields != null ==> fields.entries == PutAll(old(fields.entries), EntriesOf(old(buf.text), fs))
    ensures fields != null && tags != null ==> tags.entries == old(tags.entries)
    ensures fields == null && tags != null ==>
      tags.entries == PutAll(old(tags.entries), Rendered(EntriesOf(old(buf.text), fs), render))
  {
    ghost var prefix := buf.text;
    ghost var f0 := if fields != null then fields.entries else map[];
    ghost var t0 := if tags != null then tags.entries else map[];
    var i := 0;
    while i < |fs|
      invariant 0 <= i <= |fs|
      invariant buf.text == prefix
      invariant fields != null ==> fields.entries == PutAll(f0, EntriesOf(prefix, fs[..i]))
      invariant fields != null && tags != null ==> tags.entries == t0
      invariant fields == null && tags != null ==> tags.entries == PutAll(t0, Rendered(EntriesOf(prefix, fs[..i]), render))
    {
      ParseField(fs[i], buf, tags, fields, render);
      FieldsStep(f0, prefix, fs, i);
      TagsStep(t0, prefix, fs, i, render);
      i := i + 1;
    }
    assert fs[..i] == fs;
  }

  // ----- the fold -----

  /** The field writes of one more child. */
  lemma FieldsStep(m: map<string, Value>, prefix: string, fs: seq<Field>, i: nat)
    requires i < |fs|
    ensures PutAll(PutAll(m, EntriesOf(prefix, fs[..i])), Entries(prefix, fs[i])) == PutAll(m, EntriesOf(prefix, fs[..i + 1]))
  {
    EntriesOfNext(prefix, fs, i);
    PutAllAppend(m, EntriesOf(prefix, fs[..i]), Entries(prefix, fs[i]));
  }

  /** The tag writes of one more child. */
  lemma TagsStep(m: map<string, string>, prefix: string, fs: seq<Field>, i: nat, render: Value -> string)
    requires i < |fs|
    ensures PutAll(PutAll(m, Rendered(EntriesOf(prefix, fs[..i]), render)), Rendered(Entries(prefix, fs[i]), render))
      == PutAll(m, Rendered(EntriesOf(prefix, fs[..i + 1]), render))
  {
    EntriesOfNext(prefix, fs, i);
    RenderedAppend(EntriesOf(prefix, fs[..i]), Entries(prefix, fs[i]), render);
    PutAllAppend(m, Rendered(EntriesOf(prefix, fs[..i]), render), Rendered(Entries(prefix, fs[i]), render));
  }

  lemma EntriesOfNext(prefix: string, fs: seq<Field>, i: nat)
    requires i < |fs|
    ensures EntriesOf(prefix, fs[..i + 1]) == EntriesOf(prefix, fs[..i]) + Entries(prefix, fs[i])
  {
    assert fs[..i + 1][..i] == fs[..i];
  }

  /** Writing a then b is writing a + b. */
  lemma {:induction false} PutAllAppend<V>(m: map<string, V>, a: seq<(string, V)>, b: seq<(string, V)>)
    ensures PutAll(m, a + b) == PutAll(PutAll(m, a), b)
    decreases |b|
  {
    if b == [] {
      assert a + b == a;
    } else {
      assert (a + b)[..|a + b| - 1] == a + b[..|b| - 1];
      PutAllAppend(m, a, b[..|b| - 1]);
    }
  }

  lemma RenderedAppend(a: seq<(string, Value)>, b: seq<(string, Value)>, render: Value -> string)
    ensures Rendered(a + b, render) == Rendered(a, render) + Rendered(b, render)
  {
  }

  // ----- what the writes are -----

  /** Every key a node writes starts with the node's own key, and every
      key below a non-empty buffer starts with the buffer's text and '/'. */
  lemma {:induction false} EntriesUnder(prefix: string, f: Field)
    ensures forall k :: 0 <= k < |Entries(prefix, f)| ==> Key(prefix, f.name) <= Entries(prefix, f)[k].0
    ensures |prefix| > 0 ==> forall k :: 0 <= k < |Entries(prefix, f)| ==> prefix + "/" <= Entries(prefix, f)[k].0
    decreases f, 1
  {
    var key := Key(prefix, f.name);
    var own: seq<(string, Value)> := if f.value.Some? then [(key, f.value.value)] else [];
    var rest := EntriesOf(key, f.fields);
    EntriesOfUnder(key, f.fields);
    assert Entries(prefix, f) == own + rest;
    forall k | 0 <= k < |Entries(prefix, f)| ensures key <= Entries(prefix, f)[k].0 {
      if k >= |own| {
        assert Entries(prefix, f)[k] == rest[k - |own|];
        if |key| > 0 {
          assert key <= key + "/";
        }
      }
    }
    if |prefix| > 0 {
      assert prefix + "/" <= key;
    }
  }

  /** Every key written by siblings below `prefix` starts with `prefix`
      and '/', when `prefix` is not empty. */
  lemma {:induction false} EntriesOfUnder(prefix: string, fs: seq<Field>)
    ensures |prefix| > 0 ==> forall k :: 0 <= k < |EntriesOf(prefix, fs)| ==> prefix + "/" <= EntriesOf(prefix, fs)[k].0
    decreases fs, 0
  {
    if fs != [] {
      var init, last := fs[..|fs| - 1], fs[|fs| - 1];
      EntriesOfUnder(prefix, init);
      EntriesUnder(prefix, last);
      var a: seq<(string, Value)> := EntriesOf(prefix, init);
      var b: seq<(string, Value)> := Entries(prefix, last);
      var ab := a + b;
      assert EntriesOf(prefix, fs) == ab;
      forall k | |prefix| > 0 && 0 <= k < |ab| ensures prefix + "/" <= ab[k].0 {
        if k >= |a| {
          assert ab[k] == b[k - |a|];
        }
      }
    }
  }

  /** The number of nodes that carry a value. */
  function Valued(f: Field): nat
    decreases f, 1
  {
    (if f.value.Some? then 1 else 0) + ValuedOf(f.fields)
  }

  function ValuedOf(fs: seq<Field>): nat
    decreases fs, 0
  {
    if fs == [] then 0 else ValuedOf(fs[..|fs| - 1]) + Valued(fs[|fs| - 1])
  }

  /** A tree makes one write per node that carries a value. */
  lemma {:induction false} EntriesCount(prefix: string, f: Field)
    ensures |Entries(prefix, f)| == Valued(f)
    decreases f, 1
  {
    EntriesOfCount(Key(prefix, f.name), f.fields);
  }

  lemma {:induction false} EntriesOfCount(prefix: string, fs: seq<Field>)
    ensures |EntriesOf(prefix, fs)| == ValuedOf(fs)
    decreases fs, 0
  {
    if fs != [] {
      EntriesOfCount(prefix, fs[..|fs| - 1]);
      EntriesCount(prefix, fs[|fs| - 1]);
    }
  }

  /** A tree writes nothing exactly when none of its nodes has a value. */
  lemma {:induction false} ValuelessWritesNothing(prefix: string, f: Field)
    ensures Valueless(f) <==> Entries(prefix, f) == []
    decreases f, 1
  {
    ValuelessOfNothing(Key(prefix, f.name), f.fields);
  }

  lemma {:induction false} ValuelessOfNothing(prefix: string, fs: seq<Field>)
    ensures (forall i :: 0 <= i < |fs| ==> Valueless(fs[i])) <==> EntriesOf(prefix, fs) == []
    decreases fs, 0
  {
    if fs != [] {
      var init := fs[..|fs| - 1];
      ValuelessOfNothing(prefix, init);
      ValuelessWritesNothing(prefix, fs[|fs| - 1]);
      assert forall i :: 0 <= i < |init| ==> fs[i] == init[i];
    }
  }

  /** After writes in order, a key is present exactly when it was before
      or some write names it. */
  lemma {:induction false} PutAllHas<V>(m: map<string, V>, es: seq<(string, V)>, k: string)
    ensures k in PutAll(m, es) <==> k in m || exists i :: 0 <= i < |es| && es[i].0 == k
  {
    if es != [] {
      var init := es[..|es| - 1];
      PutAllHas(m, init, k);
      assert forall i :: 0 <= i < |init| ==> es[i] == init[i];
    }
  }

  /** After writes in order, a key holds the value of the last write to it,
      or its old value when no write names it. */
  lemma {:induction false} PutAllLast<V>(m: map<string, V>, es: seq<(string, V)>, k: string)
    ensures forall i :: 0 <= i < |es| && es[i].0 == k && (forall j :: i < j < |es| ==> es[j].0 != k) ==>
      k in PutAll(m, es) && PutAll(m, es)[k] == es[i].1
    ensures k in m && (forall i :: 0 <= i < |es| ==> es[i].0 != k) ==> k in PutAll(m, es) && PutAll(m, es)[k] == m[k]
  {
    if es != [] {
      var init := es[..|es| - 1];
      PutAllLast(m, init, k);
      assert forall i :: 0 <= i < |init| ==> es[i] == init[i];
    }
  }
}
