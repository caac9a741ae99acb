/** `handlePath`: a gNMI path flattened back into its string form, with the
    keys of every element written into the caller's tag map. A key whose
    short name (dashes turned into underscores) is already taken is stored
    under the path so far plus '/' plus the short name instead, so an
    existing short-name entry is never replaced. Go iterates an element's
    key map in no fixed order; the model takes the keys in the order the
    element lists them. */
module GnmiFlatten {
  import opened Common
  import opened Text
  import opened GnmiPath
  import opened GnmiPathSplit

  /** What the builder holds before the first element: the prefix, then
      the origin and ':' when there is an origin. */
  function Base(prefix: string, origin: string): string
  {
    prefix + (if |origin| > 0 then origin + ":" else "")
  }

  /** `tags[key] = v` under the collision rule, with `at` the path so far. */
  function WriteKey(t: map<string, string>, at: string, k: string, v: string): map<string, string>
  {
    var key := Underscored(k);
    if key in t then t[at + "/" + key := v] else t[key := v]
  }

  /** The keys of one element, written in turn at the same path. */
  function WriteKeys(t: map<string, string>, at: string, keys: seq<(string, string)>): map<string, string>
  {
    if keys == [] then t
    else
      var last := keys[|keys| - 1];
      WriteKey(WriteKeys(t, at, keys[..|keys| - 1]), at, last.0, last.1)
  }

  /** The keys of every element, each written at the path up to and
      including that element's name. */
  function WriteElems(t: map<string, string>, base: string, elems: seq<PathElem>): map<string, string>
  {
    if elems == [] then t
    else
      var init, last := elems[..|elems| - 1], elems[|elems| - 1];
      WriteKeys(WriteElems(t, base, init), base + Join(Names(init)) + "/" + last.name, last.keys)
  }

  /** `handlePath(path, tags, prefix)`; a nil map is a null `tags`, and then
      nothing is written. */
  method HandlePath(path: Path, tags: Table?<string>, prefix: string) returns (s: string, alias: string)
    modifies tags
    ensures s == Base(prefix, path.origin) + Join(Names(path.elems))
    ensures alias == ""
    ensures tags != null ==> tags.entries == WriteElems(old(tags.entries), Base(prefix, path.origin), path.elems)
  {
    alias := "";
    var base := prefix;
    if |path.origin| > 0 {
      base := base + path.origin + ":";
    }
    var builder := base;
    ghost var t0 := if tags == null then map[] else tags.entries;
    var i := 0;
    while i < |path.elems|
      invariant 0 <= i <= |path.elems|
      invariant base == Base(prefix, path.origin)
      invariant builder == base + Join(Names(path.elems[..i]))
      invariant tags != null ==> tags.entries == WriteElems(t0, base, path.elems[..i])
    {
      var elem := path.elems[i];
      NextElem(path.elems, i, t0, base, builder, builder + ("/" + elem.name));
      builder := builder + ("/" + elem.name);
      var name := builder;
      if tags != null {
        WriteElemKeys(tags, name, elem.keys);
      }
      i := i + 1;
    }
    assert path.elems[..i] == path.elems;
    s := builder;
  }

  /** The inner loop of `handlePath`: every key of one element, under the
      collision rule, with `name` the path so far. */
  method WriteElemKeys(tags: Table<string>, name: string, keys: seq<(string, string)>)
    modifies tags
    ensures tags.entries == WriteKeys(old(tags.entries), name, keys)
  {
    var j := 0;
    while j < |keys|
      invariant 0 <= j <= |keys|
      invariant tags.entries == WriteKeys(old(tags.entries), name, keys[..j])
    {
      assert keys[..j + 1][..j] == keys[..j];
      var key := Underscored(keys[j].0);
      if key in tags.entries {
        tags.Put(name + "/" + key, keys[j].1);
      } else {
        tags.Put(key, keys[j].1);
      }
      j := j + 1;
    }
    assert keys[..j] == keys;
  }

  lemma Concat3(a: string, b: string, c: string)
    ensures (a + b) + c == a + (b + c)
  {
  }

  /** One more element: its name extends the path, and its keys are
      written at the extended path. */
  lemma NextElem(elems: seq<PathElem>, i: nat, t: map<string, string>, base: string, builder: string, at: string)
    requires i < |elems| && builder == base + Join(Names(elems[..i])) && at == builder + ("/" + elems[i].name)
    ensures at == base + Join(Names(elems[..i + 1]))
    ensures WriteElems(t, base, elems[..i + 1]) == WriteKeys(WriteElems(t, base, elems[..i]), at, elems[i].keys)
  {
    JoinPrefix(elems, i);
    Concat3(base, Join(Names(elems[..i])), "/" + elems[i].name);
    Concat3(builder, "/", elems[i].name);
    WritePrefix(elems, i, t, base, at);
  }

  /** The path string of one more element. */
  lemma JoinPrefix(elems: seq<PathElem>, i: nat)
    requires i < |elems|
    ensures Join(Names(elems[..i + 1])) == Join(Names(elems[..i])) + ("/" + elems[i].name)
  {
    assert elems[..i + 1][..i] == elems[..i];
  }

  /** The key writes of one more element, at the extended path `at`. */
  lemma WritePrefix(elems: seq<PathElem>, i: nat, t: map<string, string>, base: string, at: string)
    requires i < |elems| && at == base + Join(Names(elems[..i])) + "/" + elems[i].name
    ensures WriteElems(t, base, elems[..i + 1]) == WriteKeys(WriteElems(t, base, elems[..i]), at, elems[i].keys)
  {
    var s := elems[..i + 1];
    assert s[..|s| - 1] == elems[..i];
    assert s[|s| - 1] == elems[i];
    WriteElemsLast(t, base, s, elems[..i], elems[i]);
  }

  lemma WriteElemsLast(t: map<string, string>, base: string, s: seq<PathElem>, init: seq<PathElem>, last: PathElem)
    requires s != [] && s[..|s| - 1] == init && s[|s| - 1] == last
    ensures WriteElems(t, base, s) == WriteKeys(WriteElems(t, base, init), base + Join(Names(init)) + "/" + last.name, last.keys)
  {
  }

  // ----- the collision rule -----

  /** One key write adds at most one entry and changes at most one value:
      under the short name when that is free, and otherwise under the
      qualified name, leaving the short name's value as it was. */
  lemma WriteKeyRule(t: map<string, string>, at: string, k: string, v: string)
    ensures var key, r := Underscored(k), WriteKey(t, at, k, v);
      && t.Keys <= r.Keys && |r.Keys| <= |t.Keys| + 1
      && key in r
      && (key in t ==> at + "/" + key in r && r[key] == t[key] && r[at + "/" + key] == v)
      && (key !in t ==> r[key] == v)
      && forall x :: x in t && x != key && x != at + "/" + key ==> r[x] == t[x]
  {
    var key := Underscored(k);
    assert |at + "/" + key| > |key|;
    if key in t {
      assert t[at + "/" + key := v].Keys <= t.Keys + {at + "/" + key};
    } else {
      assert t[key := v].Keys == t.Keys + {key};
    }
  }

  /** After an element's keys are written, each of them has an entry under
      its short name. */
  lemma {:induction false} WriteKeysCovers(t: map<string, string>, at: string, keys: seq<(string, string)>)
    ensures forall i :: 0 <= i < |keys| ==> Underscored(keys[i].0) in WriteKeys(t, at, keys)
    ensures t.Keys <= WriteKeys(t, at, keys).Keys
  {
    if keys != [] {
      var init, last := keys[..|keys| - 1], keys[|keys| - 1];
      WriteKeysCovers(t, at, init);
      WriteKeyRule(WriteKeys(t, at, init), at, last.0, last.1);
      forall i | 0 <= i < |init| ensures Underscored(keys[i].0) in WriteKeys(t, at, keys) {
        assert keys[i] == init[i];
      }
    }
  }

  /** A short name already in the map keeps its value through all key
      writes: only entries under qualified names `at/key` can be replaced. */
  lemma {:induction false} WriteKeysKeepsShort(t: map<string, string>, at: string, keys: seq<(string, string)>, x: string)
    requires x in t
    requires forall i :: 0 <= i < |keys| ==> x != at + "/" + Underscored(keys[i].0)
    ensures x in WriteKeys(t, at, keys) && WriteKeys(t, at, keys)[x] == t[x]
  {
    if keys != [] {
      var init, last := keys[..|keys| - 1], keys[|keys| - 1];
      WriteKeysKeepsShort(t, at, init, x);
      WriteKeyRule(WriteKeys(t, at, init), at, last.0, last.1);
    }
  }

  predicate DistinctShort(keys: seq<(string, string)>)
  {
    forall i, j :: 0 <= i < j < |keys| ==> Underscored(keys[i].0) != Underscored(keys[j].0)
  }

  /** The short names of a list of keys. */
  function ShortNames(keys: seq<(string, string)>): set<string>
  {
    if keys == [] then {} else ShortNames(keys[..|keys| - 1]) + {Underscored(keys[|keys| - 1].0)}
  }

  lemma {:induction false} ShortNamesHas(keys: seq<(string, string)>, x: string)
    ensures x in ShortNames(keys) <==> exists i :: 0 <= i < |keys| && Underscored(keys[i].0) == x
  {
    if keys != [] {
      var init := keys[..|keys| - 1];
      ShortNamesHas(init, x);
      if x in ShortNames(init) {
        var i :| 0 <= i < |init| && Underscored(init[i].0) == x;
        assert keys[i] == init[i];
      }
    }
  }

  /** Without collisions every key is stored under its short name: keys
      whose short names are distinct and absent from the map add exactly
      those short names, each bound to its own value, and change nothing
      else. */
  lemma {:induction false} WriteKeysFresh(t: map<string, string>, at: string, keys: seq<(string, string)>)
    requires DistinctShort(keys)
    requires forall i :: 0 <= i < |keys| ==> Underscored(keys[i].0) !in t
    ensures WriteKeys(t, at, keys).Keys == t.Keys + ShortNames(keys)
    ensures forall i :: 0 <= i < |keys| ==>
      Underscored(keys[i].0) in WriteKeys(t, at, keys) && WriteKeys(t, at, keys)[Underscored(keys[i].0)] == keys[i].1
    ensures forall x :: x in t ==> WriteKeys(t, at, keys)[x] == t[x]
  {
    if keys != [] {
      var init, last := keys[..|keys| - 1], keys[|keys| - 1];
      WriteKeysFresh(t, at, init);
      var r0 := WriteKeys(t, at, init);
      ShortNamesHas(init, Underscored(last.0));
      assert Underscored(last.0) !in r0;
      forall i | 0 <= i < |keys|
        ensures Underscored(keys[i].0) in WriteKeys(t, at, keys) && WriteKeys(t, at, keys)[Underscored(keys[i].0)] == keys[i].1
      {
        if i < |init| {
          assert keys[i] == init[i];
        }
      }
    }
  }

  /** A second key with a taken short name goes to the qualified name:
      writing k after a key with the same short name leaves the first value
      under the short name and puts v under `at/short`. */
  lemma CollisionQualified(t: map<string, string>, at: string, k1: string, v1: string, k2: string, v2: string)
    requires Underscored(k1) == Underscored(k2) && Underscored(k1) !in t
    ensures var r := WriteKeys(t, at, [(k1, v1), (k2, v2)]);
      && Underscored(k1) in r && r[Underscored(k1)] == v1
      && at + "/" + Underscored(k1) in r && r[at + "/" + Underscored(k1)] == v2
  {
    var key := Underscored(k1);
    assert [(k1, v1), (k2, v2)][..1] == [(k1, v1)];
    assert [(k1, v1)][..0] == [];
    assert WriteKeys(t, at, [(k1, v1)]) == WriteKey(t, at, k1, v1);
    WriteKeyRule(t, at, k1, v1);
    WriteKeyRule(WriteKey(t, at, k1, v1), at, k2, v2);
  }

  /** The same key on two elements at different depths: the first keeps
      the short name, and the second is stored under the full path of its
      element. */
  lemma CollisionAcrossElements(t: map<string, string>, base: string, n1: string, n2: string, k: string, v1: string, v2: string)
    requires Underscored(k) !in t
    ensures var r := WriteElems(t, base, [PathElem(n1, [(k, v1)]), PathElem(n2, [(k, v2)])]);
      && Underscored(k) in r && r[Underscored(k)] == v1
      && base + "/" + n1 + "/" + n2 + "/" + Underscored(k) in r
      && r[base + "/" + n1 + "/" + n2 + "/" + Underscored(k)] == v2
  {
    var e1, e2 := PathElem(n1, [(k, v1)]), PathElem(n2, [(k, v2)]);
    var at1, at2 := base + "/" + n1, base + "/" + n1 + "/" + n2;
    assert [e1, e2][..1] == [e1] && [e1][..0] == [] && [(k, v1)][..0] == [] && [(k, v2)][..0] == [];
    assert base + Join(Names([])) + "/" + n1 == at1;
    assert Names([e1]) == [n1] && [n1][..0] == [];
    assert base + Join(Names([e1])) + "/" + n2 == at2;
    var t1 := WriteKey(t, at1, k, v1);
    assert WriteKeys(t, at1, [(k, v1)]) == t1;
    assert WriteElems(t, base, [e1]) == t1;
    assert WriteKeys(t1, at2, [(k, v2)]) == WriteKey(t1, at2, k, v2);
    assert WriteElems(t, base, [e1, e2]) == WriteKeys(WriteElems(t, base, [e1]), at2, [(k, v2)]);
    WriteKeyRule(t, at1, k, v1);
    WriteKeyRule(t1, at2, k, v2);
  }

  // ----- the round trip with parsePath -----

  lemma {:induction false} NamesOfElems(names: seq<string>)
    ensures Names(Elems(names)) == names
  {
    if names != [] {
      NamesOfElems(names[..|names| - 1]);
      assert Elems(names)[..|names| - 1] == Elems(names[..|names| - 1]);
    }
  }

  /** A path written as "/n1/n2/..." from names without '/', '[', ']' or
      '=' comes back unchanged from `parsePath` followed by `handlePath`
      with an empty origin and prefix. */
  lemma ParseFlattenRoundTrip(names: seq<string>)
    requires forall k :: 0 <= k < |names| ==> GoodName(names[k])
    ensures Parse("", Join(names), "").Success?
    ensures Base("", Parse("", Join(names), "").value.origin) + Join(Names(Parse("", Join(names), "").value.elems)) == Join(names)
  {
    ParseJoin("", names, "");
    NamesOfElems(names);
  }
}
