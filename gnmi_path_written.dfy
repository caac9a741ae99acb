/** `parsePath` on paths with key annotations. A path is written as
    "/name[k=v][k=v]/name..." (`Text` of each element, joined by `Join`);
    parsing a written path gives back its elements, each key bound to its
    last value with quotes trimmed, so a path of elements with distinct keys
    and unquoted values makes the round trip unchanged. Then the malformed
    annotations: which of them are errors and which only cut the path
    short. */
module GnmiPathWritten {
  import opened Common
  import opened Text
  import opened GnmiPath
  import opened GnmiPathSteps
  import opened GnmiPathLemmas

  // ----- the written form of a path -----

  /** An element as written in a path string: its name and its `[key=value]`
      annotations in order, each value exactly as written (quotes included). */
  datatype Written = Written(name: string, pairs: seq<(string, string)>)

  function Bracket(kv: (string, string)): string
  {
    "[" + kv.0 + "=" + kv.1 + "]"
  }

  function Annotations(pairs: seq<(string, string)>): string
  {
    if pairs == [] then [] else Annotations(pairs[..|pairs| - 1]) + Bracket(pairs[|pairs| - 1])
  }

  function TextOf(w: Written): string
  {
    w.name + Annotations(w.pairs)
  }

  function Texts(ws: seq<Written>): (r: seq<string>)
    ensures |r| == |ws|
    ensures forall k :: 0 <= k < |ws| ==> r[k] == TextOf(ws[k])
  {
    if ws == [] then [] else Texts(ws[..|ws| - 1]) + [TextOf(ws[|ws| - 1])]
  }

  /** The key map the annotations denote: each key bound in turn to its
      value with quotes trimmed, a later binding replacing an earlier one. */
  function KeyMap(pairs: seq<(string, string)>): seq<(string, string)>
  {
    if pairs == [] then []
    else
      var kv := pairs[|pairs| - 1];
      Put(KeyMap(pairs[..|pairs| - 1]), kv.0, TrimQuotes(kv.1))
  }

  function Decoded(ws: seq<Written>): (r: seq<PathElem>)
    ensures |r| == |ws|
    ensures forall k :: 0 <= k < |ws| ==> r[k] == PathElem(ws[k].name, KeyMap(ws[k].pairs))
  {
    if ws == [] then [] else Decoded(ws[..|ws| - 1]) + [PathElem(ws[|ws| - 1].name, KeyMap(ws[|ws| - 1].pairs))]
  }

  /** Keys and values hold no '[', ']' or '=' (a '/' is allowed) and the
      name no special character at all. */
  predicate Writable(w: Written)
  {
    && (forall j :: 0 <= j < |w.name| ==> !Special(w.name[j]))
    && forall i :: 0 <= i < |w.pairs| ==> BracketFree(w.pairs[i].0) && BracketFree(w.pairs[i].1)
  }

  /** A writable element with a non-empty name. */
  predicate Complete(w: Written)
  {
    Writable(w) && w.name != []
  }

  /** The last value written for key k, quotes trimmed. */
  function LastValue(pairs: seq<(string, string)>, k: string): Option<string>
  {
    if pairs == [] then None
    else if pairs[|pairs| - 1].0 == k then Some(TrimQuotes(pairs[|pairs| - 1].1))
    else LastValue(pairs[..|pairs| - 1], k)
  }

  /** A repeated key keeps the value of its last annotation. */
  lemma {:induction false} KeyMapLookup(pairs: seq<(string, string)>, k: string)
    ensures Lookup(KeyMap(pairs), k) == LastValue(pairs, k)
  {
    if pairs != [] {
      var kv := pairs[|pairs| - 1];
      KeyMapLookup(pairs[..|pairs| - 1], k);
      PutLookup(KeyMap(pairs[..|pairs| - 1]), kv.0, TrimQuotes(kv.1));
    }
  }

  /** Distinct keys with values that neither start nor end with a quote
      denote themselves. */
  lemma {:induction false} KeyMapOfPlain(pairs: seq<(string, string)>)
    requires UniqueKeys(pairs)
    requires forall i :: 0 <= i < |pairs| ==> QuoteFree(pairs[i].1)
    ensures KeyMap(pairs) == pairs
  {
    if pairs != [] {
      var init, kv := pairs[..|pairs| - 1], pairs[|pairs| - 1];
      KeyMapOfPlain(init);
      TrimQuotesStrips([], kv.1, []);
      assert [] + kv.1 + [] == kv.1;
      PutLookup(init, kv.0, kv.1);
      SplitLast(pairs);
    }
  }

  // ----- scanning a written path -----

  /** The state at the start of a segment, with the elements so far. */
  function Fresh(n: int, elems: seq<PathElem>, element: seq<string>): Scanner
  {
    Scanner(n, -1, -1, -1, [], elems, element, false)
  }

  /** The state after the name and the annotations of an element: the first
      '[' (at m) marks the end of the name. */
  function Opened(st: Scanner, m: int, pairs: seq<(string, string)>): Scanner
  {
    if pairs == [] then st else st.(end := m, keys := KeyMap(pairs))
  }

  /** The state after "[k=v]" read at position j from st: the first '[' of
      the segment marks where its name ends and starts a fresh key map, and
      k is bound to v with quotes trimmed. */
  function Bracketed(st: Scanner, j: int, k: string, v: string): Scanner
  {
    st.(end := if st.end < 0 then j else st.end,
        keys := Put(if st.end < 0 then [] else st.keys, k, TrimQuotes(v)))
  }

  /** '[' and the key after it. */
  lemma KeyOpen(p: string, j: nat, k: string, st: Scanner)
    requires j + 1 + |k| <= |p| && p[j] == '[' && p[j + 1..j + 1 + |k|] == k && BracketFree(k)
    requires ScanPrefix(p, j) == st && !st.stopped && st.name == -1
    ensures ScanPrefix(p, j + 1 + |k|) ==
      st.(end := if st.end < 0 then j else st.end, keys := if st.end < 0 then [] else st.keys, name := j + 1)
  {
    var s1 := st.(end := if st.end < 0 then j else st.end, keys := if st.end < 0 then [] else st.keys, name := j + 1);
    OpenStep(p, j, st);
    Advance(p, j, st);
    QuietRun(p, j + 1, j + 1 + |k|, k, s1);
  }

  /** '=' and the value after it. */
  lemma ValueOpen(p: string, i: nat, v: string, st: Scanner)
    requires i + 1 + |v| <= |p| && p[i] == '=' && p[i + 1..i + 1 + |v|] == v && BracketFree(v)
    requires ScanPrefix(p, i) == st && !st.stopped && st.name > 0 && st.value < 0
    ensures ScanPrefix(p, i + 1 + |v|) == st.(value := i + 1)
  {
    EqualsStep(p, i, st);
    Advance(p, i, st);
    QuietRun(p, i + 1, i + 1 + |v|, v, st.(value := i + 1));
  }

  /** The closing ']' at b stores what the two indices delimit: the key
      from j + 1 up to the '=' at a, the value from a + 1 up to b. */
  lemma CloseBracket(p: string, j: nat, a: nat, b: nat, k: string, v: string, st: Scanner)
    requires a == j + 1 + |k| && b == a + 1 + |v| && b < |p|
    requires p[j + 1..a] == k && p[a + 1..b] == v
    requires st.name == -1 && st.value == -1
    ensures var s2 := st.(end := if st.end < 0 then j else st.end, keys := if st.end < 0 then [] else st.keys,
                          name := j + 1, value := a + 1);
      CloseKey(p, b, s2) == Bracketed(st, j, k, v)
  {
  }

  /** "[k=v]" from position j up to e, from a state outside brackets. */
  lemma BracketScan(p: string, j: nat, e: nat, k: string, v: string, st: Scanner)
    requires e == j + |k| + |v| + 3 && e <= |p|
    requires p[j] == '[' && p[j + 1..j + 1 + |k|] == k && p[j + 1 + |k|] == '='
    requires p[j + 2 + |k|..j + 2 + |k| + |v|] == v && p[j + 2 + |k| + |v|] == ']'
    requires BracketFree(k) && BracketFree(v)
    requires ScanPrefix(p, j) == st && !st.stopped && st.name == -1 && st.value == -1
    ensures ScanPrefix(p, e) == Bracketed(st, j, k, v)
  {
    var a := j + 1 + |k|;
    var b := a + 1 + |v|;
    var s1 := st.(end := if st.end < 0 then j else st.end, keys := if st.end < 0 then [] else st.keys, name := j + 1);
    var s2 := s1.(value := a + 1);
    KeyOpen(p, j, k, st);
    ValueOpen(p, a, v, s1);
    Advance(p, b, s2);
    CloseStep(p, b, s2);
    CloseBracket(p, j, a, b, k, v, st);
    Same(p, b + 1, e);
  }

  /** The pieces of "[k=v]" found at position j of p. */
  lemma BracketPieces(p: string, j: nat, e: nat, k: string, v: string)
    requires e == j + |k| + |v| + 3 <= |p| && p[j..e] == Bracket((k, v))
    ensures p[j] == '[' && p[j + 1..j + 1 + |k|] == k && p[j + 1 + |k|] == '='
    ensures p[j + 2 + |k|..j + 2 + |k| + |v|] == v && p[j + 2 + |k| + |v|] == ']'
  {
    var b := Bracket((k, v));
    Chars(p, j, b);
    assert b[0] == '[' && b[1 + |k|] == '=' && b[2 + |k| + |v|] == ']';
    Slice(p, j, b, 1, 1 + |k|);
    assert b[1..1 + |k|] == k;
    Slice(p, j, b, 2 + |k|, 2 + |k| + |v|);
    assert b[2 + |k|..2 + |k| + |v|] == v;
  }

  /** One more annotation extends the key map the way the scan does. */
  lemma OpenedSnoc(st: Scanner, m: nat, pairs: seq<(string, string)>)
    requires pairs != [] && st.end == -1 && st.keys == []
    ensures var init, kv := pairs[..|pairs| - 1], pairs[|pairs| - 1];
      Opened(st, m, pairs) == Bracketed(Opened(st, m, init), m + |Annotations(init)|, kv.0, kv.1)
  {
    var init, kv := pairs[..|pairs| - 1], pairs[|pairs| - 1];
    var keys := Put(KeyMap(init), kv.0, TrimQuotes(kv.1));
    assert KeyMap(pairs) == keys;
    if init == [] {
      assert Annotations(init) == [] && KeyMap(init) == [];
      assert Bracketed(st, m, kv.0, kv.1) == st.(end := m, keys := keys);
    } else {
      var s1 := st.(end := m, keys := KeyMap(init));
      assert Opened(st, m, init) == s1;
      BracketedOpen(s1, m + |Annotations(init)|, kv.0, kv.1);
    }
  }

  lemma BracketedOpen(s: Scanner, j: int, k: string, v: string)
    requires s.end >= 0
    ensures Bracketed(s, j, k, v) == s.(keys := Put(s.keys, k, TrimQuotes(v)))
  {
  }

  /** The annotations at m split into those of all but the last pair, up to
      j, and the last pair's "[k=v]" from j to e. */
  lemma AnnotationsPieces(p: string, m: nat, e: nat, pairs: seq<(string, string)>, j: nat, k: string, v: string)
    requires pairs != [] && pairs[|pairs| - 1] == (k, v) && j == m + |Annotations(pairs[..|pairs| - 1])|
    requires e == m + |Annotations(pairs)| && e <= |p| && p[m..e] == Annotations(pairs)
    ensures e == j + |k| + |v| + 3 && p[m..j] == Annotations(pairs[..|pairs| - 1])
    ensures p[j] == '[' && p[j + 1..j + 1 + |k|] == k && p[j + 1 + |k|] == '='
    ensures p[j + 2 + |k|..j + 2 + |k| + |v|] == v && p[j + 2 + |k| + |v|] == ']'
  {
    var a0 := Annotations(pairs[..|pairs| - 1]);
    assert Annotations(pairs) == a0 + Bracket((k, v));
    assert |Bracket((k, v))| == |k| + |v| + 3;
    Halves(p, m, e, a0, Bracket((k, v)));
    BracketPieces(p, j, e, k, v);
  }

  /** The annotations of an element, read from position m where its name
      ends up to position e. */
  lemma {:induction false} AnnotationsScan(p: string, m: nat, e: nat, pairs: seq<(string, string)>, st: Scanner)
    requires e == m + |Annotations(pairs)| && e <= |p| && p[m..e] == Annotations(pairs)
    requires forall i :: 0 <= i < |pairs| ==> BracketFree(pairs[i].0) && BracketFree(pairs[i].1)
    requires ScanPrefix(p, m) == st
    requires !st.stopped && st.name == -1 && st.value == -1 && st.end == -1 && st.keys == []
    ensures ScanPrefix(p, e) == Opened(st, m, pairs)
  {
    if pairs == [] {
      assert e == m;
    } else {
      var init, k, v := pairs[..|pairs| - 1], pairs[|pairs| - 1].0, pairs[|pairs| - 1].1;
      var j := m + |Annotations(init)|;
      AnnotationsPieces(p, m, e, pairs, j, k, v);
      AnnotationsScan(p, m, j, init, st);
      LastBracket(p, m, j, e, pairs, k, v, st);
    }
  }

  /** The last annotation "[k=v]", read at j after the others. */
  lemma LastBracket(p: string, m: nat, j: nat, e: nat, pairs: seq<(string, string)>, k: string, v: string, st: Scanner)
    requires pairs != [] && pairs[|pairs| - 1] == (k, v) && j == m + |Annotations(pairs[..|pairs| - 1])|
    requires e == j + |k| + |v| + 3 && e <= |p|
    requires p[j] == '[' && p[j + 1..j + 1 + |k|] == k && p[j + 1 + |k|] == '='
    requires p[j + 2 + |k|..j + 2 + |k| + |v|] == v && p[j + 2 + |k| + |v|] == ']'
    requires BracketFree(k) && BracketFree(v)
    requires ScanPrefix(p, j) == Opened(st, m, pairs[..|pairs| - 1])
    requires !st.stopped && st.name == -1 && st.value == -1 && st.end == -1 && st.keys == []
    ensures ScanPrefix(p, e) == Opened(st, m, pairs)
  {
    BracketScan(p, j, e, k, v, Opened(st, m, pairs[..|pairs| - 1]));
    OpenedSnoc(st, m, pairs);
  }

  /** The name and the annotations of an element written at n. */
  lemma TextPieces(p: string, n: nat, e: nat, w: Written)
    requires e == n + |TextOf(w)| && e <= |p| && p[n..e] == TextOf(w)
    ensures e == n + |w.name| + |Annotations(w.pairs)|
    ensures p[n..n + |w.name|] == w.name && p[n + |w.name|..e] == Annotations(w.pairs)
  {
    var t := TextOf(w);
    Slice(p, n, t, 0, |w.name|);
    assert t[0..|w.name|] == w.name;
    Slice(p, n, t, |w.name|, |t|);
    assert t[|w.name|..] == Annotations(w.pairs);
  }

  /** The name and the annotations of an element, from the start n of its
      segment up to position e. */
  lemma OpenElement(p: string, n: nat, e: nat, w: Written, st: Scanner)
    requires Writable(w)
    requires e == n + |TextOf(w)| && e <= |p| && p[n..e] == TextOf(w)
    requires ScanPrefix(p, n) == st && st == Fresh(n, st.elems, st.element)
    ensures ScanPrefix(p, e) == Opened(st, n + |w.name|, w.pairs)
  {
    var m := n + |w.name|;
    TextPieces(p, n, e, w);
    NameRun(p, n, m, w.name, st);
    AnnotationsScan(p, m, e, w.pairs, st);
  }

  /** The name of an element leaves the fresh state of its segment as it is. */
  lemma NameRun(p: string, n: nat, m: nat, name: string, st: Scanner)
    requires m == n + |name| <= |p| && p[n..m] == name
    requires forall j :: 0 <= j < |name| ==> !Special(name[j])
    requires ScanPrefix(p, n) == st
    ensures ScanPrefix(p, m) == st
  {
    QuietRun(p, n, m, name, st);
  }

  /** What the '/' after a complete element emits. */
  lemma EmitElement(p: string, n: nat, i: nat, w: Written, st: Scanner)
    requires Complete(w)
    requires i == n + |TextOf(w)| && i < |p| && p[n..i] == TextOf(w)
    requires st == Fresh(n, st.elems, st.element)
    ensures EndSegment(p, i, Opened(st, n + |w.name|, w.pairs)) ==
      Fresh(i + 1, st.elems + [PathElem(w.name, KeyMap(w.pairs))], st.element + [TextOf(w)])
  {
    Slice(p, n, TextOf(w), 0, |w.name|);
    assert TextOf(w)[0..|w.name|] == w.name;
  }

  /** A complete element and the '/' at i after it, from the start n of its
      segment: the element is emitted and the next segment starts. */
  lemma ElementScan(p: string, n: nat, i: nat, w: Written, st: Scanner)
    requires Complete(w)
    requires i == n + |TextOf(w)| && i < |p| && p[n..i] == TextOf(w) && p[i] == '/'
    requires ScanPrefix(p, n) == st && st == Fresh(n, st.elems, st.element)
    ensures ScanPrefix(p, i + 1) ==
      Fresh(i + 1, st.elems + [PathElem(w.name, KeyMap(w.pairs))], st.element + [TextOf(w)])
  {
    var st1 := Opened(st, n + |w.name|, w.pairs);
    OpenElement(p, n, i, w, st);
    assert Step(p, i, st1) == EndSegment(p, i, st1) by {
      SlashStep(p, i, st1);
    }
    EmitElement(p, n, i, w, st);
    Advance(p, i, st1);
  }

  /** A written path of one more element, read at the start of p. */
  lemma JoinPieces(p: string, n: nat, ws: seq<Written>)
    requires ws != []
    requires n == |Join(Texts(ws))| && n < |p| && p[..n + 1] == Join(Texts(ws)) + "/"
    ensures var ws0, w := ws[..|ws| - 1], ws[|ws| - 1];
      var n0 := |Join(Texts(ws0))|;
      && n == n0 + 1 + |TextOf(w)| && p[..n0 + 1] == Join(Texts(ws0)) + "/"
      && p[n0 + 1..n] == TextOf(w) && p[n] == '/'
      && Decoded(ws) == Decoded(ws0) + [PathElem(w.name, KeyMap(w.pairs))]
      && Texts(ws) == Texts(ws0) + [TextOf(w)]
  {
    var ws0, w := ws[..|ws| - 1], ws[|ws| - 1];
    TextsSnoc(ws);
    PathPieces(p, n, Join(Texts(ws0)), TextOf(w));
  }

  /** A written path of one more element: its texts, decoded elements and
      path string. */
  lemma TextsSnoc(ws: seq<Written>)
    requires ws != []
    ensures var ws0, w := ws[..|ws| - 1], ws[|ws| - 1];
      && Texts(ws) == Texts(ws0) + [TextOf(w)]
      && Join(Texts(ws)) == Join(Texts(ws0)) + "/" + TextOf(w)
      && Decoded(ws) == Decoded(ws0) + [PathElem(w.name, KeyMap(w.pairs))]
  {
    var ws0 := ws[..|ws| - 1];
    assert Texts(ws)[..|ws| - 1] == Texts(ws0);
  }

  /** A written path followed by '/' at position n: after it, all its
      elements have been emitted and a new segment starts. */
  lemma {:induction false} JoinScan(p: string, n: nat, ws: seq<Written>)
    requires forall k :: 0 <= k < |ws| ==> Complete(ws[k])
    requires n == |Join(Texts(ws))| && n < |p| && p[..n + 1] == Join(Texts(ws)) + "/"
    ensures ScanPrefix(p, n + 1) == Fresh(n + 1, Decoded(ws), Texts(ws))
  {
    if ws == [] {
      assert p[0] == (Join(Texts(ws)) + "/")[0];
      SlashStep(p, 0, Initial);
    } else {
      var ws0, w := ws[..|ws| - 1], ws[|ws| - 1];
      var n0 := |Join(Texts(ws0))|;
      JoinPieces(p, n, ws);
      JoinScan(p, n0, ws0);
      ElementScan(p, n0 + 1, n, w, Fresh(n0 + 1, Decoded(ws0), Texts(ws0)));
    }
  }

  /** Parsing a written path gives its elements, each key bound to its last
      value with quotes trimmed, and each element's raw text. */
  lemma ParseWritten(origin: string, ws: seq<Written>, target: string)
    requires forall k :: 0 <= k < |ws| ==> Complete(ws[k])
    ensures Parse(origin, Join(Texts(ws)), target) == Success(Path(origin, target, Decoded(ws), Texts(ws)))
  {
    var path := Join(Texts(ws));
    WholeScan(path, ws);
    ParseOfFresh(origin, path, target, Decoded(ws), Texts(ws));
  }

  /** The scan of the whole written path, with its closing '/'. */
  lemma WholeScan(path: string, ws: seq<Written>)
    requires forall k :: 0 <= k < |ws| ==> Complete(ws[k])
    requires path == Join(Texts(ws))
    ensures ScanPrefix(path + "/", |path| + 1) == Fresh(|path| + 1, Decoded(ws), Texts(ws))
  {
    var p := path + "/";
    assert p[..|path| + 1] == p;
    JoinScan(p, |path|, ws);
  }

  /** A scan that ends with no bracket open yields what it has emitted. */
  lemma ParseOfFresh(origin: string, path: string, target: string, elems: seq<PathElem>, element: seq<string>)
    requires path == [] || path[0] == '/'
    requires ScanPrefix(path + "/", |path| + 1) == Fresh(|path| + 1, elems, element)
    ensures Parse(origin, path, target) == Success(Path(origin, target, elems, element))
  {
    ParseOfFinal(origin, path, target, Fresh(|path| + 1, elems, element));
  }

  /** The written form of a parsed element. */
  function WrittenOf(elems: seq<PathElem>): (r: seq<Written>)
    ensures |r| == |elems|
    ensures forall k :: 0 <= k < |elems| ==> r[k] == Written(elems[k].name, elems[k].keys)
  {
    if elems == [] then [] else WrittenOf(elems[..|elems| - 1]) + [Written(elems[|elems| - 1].name, elems[|elems| - 1].keys)]
  }

  /** An element that survives writing and re-parsing unchanged. */
  predicate Plain(e: PathElem)
  {
    && GoodName(e.name)
    && UniqueKeys(e.keys)
    && forall i :: 0 <= i < |e.keys| ==>
         BracketFree(e.keys[i].0) && BracketFree(e.keys[i].1) && QuoteFree(e.keys[i].1)
  }

  /** Round trip: writing plain elements as a path and parsing it gives the
      same elements back. */
  lemma ParseWrittenRoundTrip(origin: string, elems: seq<PathElem>, target: string)
    requires forall k :: 0 <= k < |elems| ==> Plain(elems[k])
    ensures Parse(origin, Join(Texts(WrittenOf(elems))), target).Success?
    ensures Parse(origin, Join(Texts(WrittenOf(elems))), target).value.elems == elems
  {
    WrittenComplete(elems);
    ParseWritten(origin, WrittenOf(elems), target);
    DecodedPlain(elems);
  }

  /** Parsing is idempotent: the elements of any parsed path, written out
      as a path and parsed again, come back unchanged. */
  lemma ParseIdempotent(origin: string, path: string, target: string)
    requires Parse(origin, path, target).Success?
    ensures var elems := Parse(origin, path, target).value.elems;
      && Parse(origin, Join(Texts(WrittenOf(elems))), target).Success?
      && Parse(origin, Join(Texts(WrittenOf(elems))), target).value.elems == elems
  {
    ParseWellFormed(origin, path, target);
    var elems := Parse(origin, path, target).value.elems;
    forall k | 0 <= k < |elems| ensures Plain(elems[k]) {
      assert PlainPairs(elems[k].keys);
    }
    ParseWrittenRoundTrip(origin, elems, target);
  }

  lemma WrittenComplete(elems: seq<PathElem>)
    requires forall k :: 0 <= k < |elems| ==> Plain(elems[k])
    ensures forall k :: 0 <= k < |elems| ==> Complete(WrittenOf(elems)[k])
  {
    forall k | 0 <= k < |elems| ensures Complete(WrittenOf(elems)[k]) {
      assert Plain(elems[k]);
    }
  }

  /** Plain elements are their own decoding once written. */
  lemma DecodedPlain(elems: seq<PathElem>)
    requires forall k :: 0 <= k < |elems| ==> Plain(elems[k])
    ensures Decoded(WrittenOf(elems)) == elems
  {
    var ws := WrittenOf(elems);
    forall k | 0 <= k < |elems| ensures Decoded(ws)[k] == elems[k] {
      KeyMapOfPlain(elems[k].keys);
    }
  }
}
