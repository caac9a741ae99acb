/** The gNMI path structure (section 2.2.2 of the gNMI Specification) and the
    collector's XPath-like path parser `parsePath`, which turns a string such
    as `/a/b[k=v][j='w']/c` into a path of named elements with key
    annotations.

    The parser is a single left-to-right scan over `path + "/"` that keeps
    four indices: `start` (first character of the current segment), `name`
    (first character of the key inside an open `[`, or -1), `value` (first
    character after `=`, or -1) and `end` (position of the segment's first
    `[`, or -1). `Step` is one iteration of that loop and `ScanPrefix` the
    state after the first n characters; `stopped` records that the loop left
    through `break`. */
module GnmiPath {
  import opened Common
  import opened Text

  /** A `gnmi.PathElem`. Its key map is kept as pairs in insertion order with
      at most one pair per key. */
  datatype PathElem = PathElem(name: string, keys: seq<(string, string)>)

  /** A `gnmi.Path`: origin, target, the element list, and the deprecated
      `Element` list that holds each segment's raw text. */
  datatype Path = Path(origin: string, target: string, elems: seq<PathElem>, element: seq<string>)

  datatype PathError =
    | NotRooted(path: string)    // "path does not start with a '/'"
    | InvalidPath(path: string)  // "Invalid GNMI path", reported with the trailing '/' appended

  // ----- the key map of an element -----

  function Lookup(keys: seq<(string, string)>, k: string): (r: Option<string>)
    ensures r.None? <==> forall i :: 0 <= i < |keys| ==> keys[i].0 != k
    ensures r.Some? ==> (k, r.value) in keys
  {
    if keys == [] then None
    else if keys[0].0 == k then Some(keys[0].1)
    else Lookup(keys[1..], k)
  }

  predicate UniqueKeys(keys: seq<(string, string)>)
  {
    forall i, j :: 0 <= i < j < |keys| ==> keys[i].0 != keys[j].0
  }

  /** `elem.Key[k] = v`: a new key is added at the end, an existing key gets
      the new value in place. */
  function Put(keys: seq<(string, string)>, k: string, v: string): seq<(string, string)>
  {
    if keys == [] then [(k, v)]
    else if keys[0].0 == k then [(k, v)] + keys[1..]
    else [keys[0]] + Put(keys[1..], k, v)
  }

  /** After Put, k maps to v and every other key to what it mapped to
      before; a key that was absent is appended, a present one replaced. */
  lemma {:induction false} PutLookup(keys: seq<(string, string)>, k: string, v: string)
    ensures Lookup(Put(keys, k, v), k) == Some(v)
    ensures forall k' :: k' != k ==> Lookup(Put(keys, k, v), k') == Lookup(keys, k')
    ensures Lookup(keys, k).None? ==> Put(keys, k, v) == keys + [(k, v)]
    ensures Lookup(keys, k).Some? ==> |Put(keys, k, v)| == |keys|
  {
    if keys != [] && keys[0].0 != k {
      PutLookup(keys[1..], k, v);
      assert keys == [keys[0]] + keys[1..];
    }
  }

  /** A key already present is updated in place: Put rewrites the pair at
      its first occurrence and leaves every other position as it was. */
  lemma {:induction false} PutInPlace(keys: seq<(string, string)>, k: string, v: string)
    requires Lookup(keys, k).Some?
    ensures |Put(keys, k, v)| == |keys|
    ensures forall n :: 0 <= n < |keys| ==>
      Put(keys, k, v)[n] == (if keys[n].0 == k && Lookup(keys[..n], k).None? then (k, v) else keys[n])
  {
    if keys[0].0 == k {
      forall n | 0 < n < |keys|
        ensures Lookup(keys[..n], k).Some?
      {
        assert keys[..n][0] == keys[0];
      }
    } else {
      PutInPlace(keys[1..], k, v);
      forall n | 0 < n < |keys|
        ensures Lookup(keys[..n], k) == Lookup(keys[1..][..n - 1], k)
      {
        assert keys[..n][0] == keys[0];
        assert keys[..n][1..] == keys[1..][..n - 1];
      }
    }
  }

  /** Put keeps at most one pair per key, as a Go map does. */
  lemma {:induction false} PutKeepsUnique(keys: seq<(string, string)>, k: string, v: string)
    requires UniqueKeys(keys)
    ensures UniqueKeys(Put(keys, k, v))
  {
    if keys != [] && keys[0].0 != k {
      PutKeepsUnique(keys[1..], k, v);
      PutLookup(keys[1..], k, v);
      assert Lookup(keys[1..], keys[0].0).None?;
      UniqueCons(keys[0], Put(keys[1..], k, v));
    }
  }

  lemma UniqueCons(x: (string, string), rest: seq<(string, string)>)
    requires UniqueKeys(rest) && Lookup(rest, x.0).None?
    ensures UniqueKeys([x] + rest)
  {
    var r := [x] + rest;
    forall i, j | 0 <= i < j < |r| ensures r[i].0 != r[j].0 {
      assert r[j] == rest[j - 1];
      if i > 0 {
        assert r[i] == rest[i - 1];
      }
    }
  }

  // ----- the scanner -----

  datatype Scanner = Scanner(
    start: int, name: int, value: int, end: int,
    keys: seq<(string, string)>,   // keys of the element being built
    elems: seq<PathElem>,          // gnmiPath.Elem so far
    element: seq<string>,          // gnmiPath.Element so far
    stopped: bool)                 // the loop has left through `break`

  const Initial := Scanner(0, -1, -1, -1, [], [], [], false)

  /** The index bounds every scan state keeps after n characters. */
  ghost predicate Sane(st: Scanner, n: int)
  {
    && 0 <= st.start <= n
    && (st.end == -1 || st.start <= st.end < n)
    && (st.name == -1 || 1 <= st.name <= n)
    && (st.value == -1 || (1 <= st.name < st.value <= n))
  }

  /** One iteration of the loop of `parsePath`, at index i of p. */
  function Step(p: string, i: nat, st: Scanner): (r: Scanner)
    requires i < |p| && Sane(st, i)
    ensures Sane(r, i + 1)
  {
    if st.stopped then st
    else if p[i] == '[' then
      if st.name >= 0 then st.(stopped := true)
      else if st.end < 0 then st.(end := i, keys := [], name := i + 1)
      else st.(name := i + 1)
    else if p[i] == '=' then
      if st.name <= 0 || st.value >= 0 then st.(stopped := true)
      else st.(value := i + 1)
    else if p[i] == ']' then
      if st.name <= 0 || st.value <= st.name then st.(stopped := true)
      else st.(keys := Put(st.keys, p[st.name..st.value - 1], TrimQuotes(p[st.value..i])),
               name := -1, value := -1)
    else if p[i] == '/' then
      if st.name < 0 then
        var end := if st.end < 0 then i else st.end;
        var emitted :=
          if end > st.start
          then st.(elems := st.elems + [PathElem(p[st.start..end], st.keys)],
                   element := st.element + [p[st.start..i]])
          else st;
        emitted.(start := i + 1, name := -1, value := -1, end := -1, keys := [])
      else st
    else st
  }

  /** ']' closing `[key=value`: the key is stored with its value trimmed of
      quotes, and the bracket is closed. */
  function CloseKey(p: string, i: nat, st: Scanner): Scanner
    requires i < |p| && 0 < st.name < st.value <= i
  {
    st.(keys := Put(st.keys, p[st.name..st.value - 1], TrimQuotes(p[st.value..i])), name := -1, value := -1)
  }

  /** '/' outside brackets: the segment is emitted when its name (up to its
      first '[', or up to the '/') is non-empty, and a new segment starts. */
  function EndSegment(p: string, i: nat, st: Scanner): Scanner
    requires 0 <= st.start <= i < |p| && (st.end == -1 || st.start <= st.end <= i)
  {
    var end := if st.end < 0 then i else st.end;
    if end > st.start
    then Scanner(i + 1, -1, -1, -1, [], st.elems + [PathElem(p[st.start..end], st.keys)], st.element + [p[st.start..i]], false)
    else Scanner(i + 1, -1, -1, -1, [], st.elems, st.element, false)
  }

  // One lemma per branch of the loop body, each giving the new state outright.

  lemma SlashStep(p: string, i: nat, st: Scanner)
    requires i < |p| && p[i] == '/' && Sane(st, i)
    requires !st.stopped && st.name < 0
    ensures Step(p, i, st) == EndSegment(p, i, st)
  {
  }

  /** A character that is not '/', '[', ']' or '=' changes nothing, and
      inside an open bracket neither does '/'. */
  lemma QuietStep(p: string, i: nat, st: Scanner)
    requires i < |p| && Sane(st, i)
    requires !Special(p[i]) || (st.name >= 0 && !BracketChar(p[i]))
    ensures Step(p, i, st) == st
  {
  }

  /** '[' outside brackets opens a key; the first '[' of a segment also
      marks where its name ends and starts a fresh key map. */
  lemma OpenStep(p: string, i: nat, st: Scanner)
    requires i < |p| && p[i] == '[' && Sane(st, i)
    requires !st.stopped && st.name < 0
    ensures Step(p, i, st) ==
      st.(end := if st.end < 0 then i else st.end, keys := if st.end < 0 then [] else st.keys, name := i + 1)
  {
  }

  /** '=' inside an open bracket that has no '=' yet starts the value. */
  lemma EqualsStep(p: string, i: nat, st: Scanner)
    requires i < |p| && p[i] == '=' && Sane(st, i)
    requires !st.stopped && st.name > 0 && st.value < 0
    ensures Step(p, i, st) == st.(value := i + 1)
  {
  }

  /** ']' after a key and a value stores the key with its quote-trimmed value. */
  lemma CloseStep(p: string, i: nat, st: Scanner)
    requires i < |p| && p[i] == ']' && Sane(st, i)
    requires !st.stopped && 0 < st.name < st.value
    ensures Step(p, i, st) == CloseKey(p, i, st)
  {
  }

  /** The four `break`s of the loop. */
  lemma BreakStep(p: string, i: nat, st: Scanner)
    requires i < |p| && Sane(st, i) && !st.stopped
    requires || (p[i] == '[' && st.name >= 0)
             || (p[i] == '=' && (st.name <= 0 || st.value >= 0))
             || (p[i] == ']' && (st.name <= 0 || st.value <= st.name))
    ensures Step(p, i, st) == st.(stopped := true)
  {
  }

  /** The scan state after the first n characters of p. */
  function ScanPrefix(p: string, n: nat): (st: Scanner)
    requires n <= |p|
    ensures Sane(st, n)
  {
    if n == 0 then Initial else Step(p, n - 1, ScanPrefix(p, n - 1))
  }

  /** `parsePath(origin, path, target)` as a value. */
  function Parse(origin: string, path: string, target: string): Result<Path, PathError>
  {
    if |path| > 0 && path[0] != '/' then Failure(NotRooted(path))
    else
      var p := path + "/";
      var st := ScanPrefix(p, |p|);
      if st.name >= 0 || st.value >= 0 then Failure(InvalidPath(p))
      else Success(Path(origin, target, st.elems, st.element))
  }

  /** `parsePath`: the index-based scanner itself. */
  method ParsePath(origin: string, path: string, target: string) returns (r: Result<Path, PathError>)
    ensures r == Parse(origin, path, target)
  {
    if |path| > 0 && path[0] != '/' {
      return Failure(NotRooted(path));
    }
    var p := path + "/";
    var start, name, value, end := 0, -1, -1, -1;
    var keys: seq<(string, string)> := [];
    var elems: seq<PathElem> := [];
    var element: seq<string> := [];
    var i := 0;
    while i < |p|
      invariant 0 <= i <= |p|
      invariant ScanPrefix(p, i) == Scanner(start, name, value, end, keys, elems, element, false)
    {
      ghost var st := Scanner(start, name, value, end, keys, elems, element, false);
      Advance(p, i, st);
      if p[i] == '[' {
        if name >= 0 {
          BreakParse(origin, path, target, i, st);
          break;
        }
        OpenStep(p, i, st);
        if end < 0 {
          end := i;
          keys := [];
        }
        name := i + 1;
      } else if p[i] == '=' {
        if name <= 0 || value >= 0 {
          BreakParse(origin, path, target, i, st);
          break;
        }
        EqualsStep(p, i, st);
        value := i + 1;
      } else if p[i] == ']' {
        if name <= 0 || value <= name {
          BreakParse(origin, path, target, i, st);
          break;
        }
        CloseStep(p, i, st);
        keys := Put(keys, p[name..value - 1], TrimQuotes(p[value..i]));
        name, value := -1, -1;
      } else if p[i] == '/' && name < 0 {
        SlashStep(p, i, st);
        if end < 0 {
          end := i;
        }
        if end > start {
          elems := elems + [PathElem(p[start..end], keys)];
          element := element + [p[start..i]];
        }
        start, name, value, end := i + 1, -1, -1, -1;
        keys := [];
      } else {
        QuietStep(p, i, st);
      }
      i := i + 1;
    }
    if name >= 0 || value >= 0 {
      return Failure(InvalidPath(p));
    }
    return Success(Path(origin, target, elems, element));
  }

  /** One more character of the scan, from a known state. */
  lemma Advance(p: string, i: nat, st: Scanner)
    requires i < |p| && ScanPrefix(p, i) == st
    ensures ScanPrefix(p, i + 1) == Step(p, i, st)
  {
  }

  /** What `parsePath` returns once the scan of the whole of `path + "/"`
      ends in st. */
  lemma ParseOfFinal(origin: string, path: string, target: string, st: Scanner)
    requires path == [] || path[0] == '/'
    requires ScanPrefix(path + "/", |path| + 1) == st
    ensures Parse(origin, path, target) ==
      if st.name >= 0 || st.value >= 0 then Failure(InvalidPath(path + "/"))
      else Success(Path(origin, target, st.elems, st.element))
  {
  }

  /** A `break` at i leaves the result to the state before it. */
  lemma BreakParse(origin: string, path: string, target: string, i: nat, st: Scanner)
    requires path == [] || path[0] == '/'
    requires i < |path| + 1 && ScanPrefix(path + "/", i) == st && !st.stopped
    requires var c := (path + "/")[i];
      || (c == '[' && st.name >= 0)
      || (c == '=' && (st.name <= 0 || st.value >= 0))
      || (c == ']' && (st.name <= 0 || st.value <= st.name))
    ensures Parse(origin, path, target) ==
      if st.name >= 0 || st.value >= 0 then Failure(InvalidPath(path + "/"))
      else Success(Path(origin, target, st.elems, st.element))
  {
    var p := path + "/";
    BreakStep(p, i, st);
    Advance(p, i, st);
    StoppedStays(p, i + 1, |p|);
    ParseOfFinal(origin, path, target, st.(stopped := true));
  }

  /** Once the loop has broken out, the remaining characters change nothing. */
  lemma {:induction false} StoppedStays(p: string, n: nat, m: nat)
    requires n <= m <= |p|
    requires ScanPrefix(p, n).stopped
    ensures ScanPrefix(p, m) == ScanPrefix(p, n)
    decreases m
  {
    if m > n {
      StoppedStays(p, n, m - 1);
    }
  }

  // ----- reference definitions: splitting and joining on '/' -----

  /** `strings.Split(s, "/")`. */
  function Segments(s: string): (r: seq<string>)
    ensures |r| >= 1
  {
    if s == [] then [""]
    else
      var init := Segments(s[..|s| - 1]);
      if s[|s| - 1] == '/' then init + [""]
      else init[..|init| - 1] + [init[|init| - 1] + [s[|s| - 1]]]
  }

  /** `strings.Join(segs, "/")` for a non-empty list. */
  function Interleave(segs: seq<string>): string
    requires |segs| >= 1
  {
    if |segs| == 1 then segs[0] else Interleave(segs[..|segs| - 1]) + "/" + segs[|segs| - 1]
  }

  /** Segments is the inverse of Interleave: joining the pieces with '/'
      gives the string back. */
  lemma {:induction false} SegmentsInterleave(s: string)
    ensures Interleave(Segments(s)) == s
  {
    if s != [] {
      var s0, c := s[..|s| - 1], s[|s| - 1];
      SegmentsInterleave(s0);
      assert s == s0 + [c];
      var init := Segments(s0);
      if c == '/' {
        InterleaveSnoc(init, "");
      } else if |init| == 1 {
        assert Segments(s) == [init[0] + [c]];
      } else {
        var head, last := init[..|init| - 1], init[|init| - 1];
        assert init == head + [last];
        InterleaveExtendLast(head, last, c);
      }
    }
  }

  lemma InterleaveSnoc(segs: seq<string>, x: string)
    requires |segs| >= 1
    ensures Interleave(segs + [x]) == Interleave(segs) + "/" + x
  {
    assert (segs + [x])[..|segs|] == segs;
  }

  lemma InterleaveExtendLast(head: seq<string>, last: string, c: char)
    requires |head| >= 1
    ensures Interleave(head + [last + [c]]) == Interleave(head + [last]) + [c]
  {
    InterleaveSnoc(head, last);
    InterleaveSnoc(head, last + [c]);
    var h := Interleave(head);
    assert h + "/" + (last + [c]) == (h + "/" + last) + [c];
  }

  /** No piece produced by Segments contains a '/'. */
  lemma {:induction false} SegmentsHaveNoSlash(s: string)
    ensures forall k :: 0 <= k < |Segments(s)| ==> '/' !in Segments(s)[k]
  {
    if s != [] {
      SegmentsHaveNoSlash(s[..|s| - 1]);
    }
  }

  /** The segments that are not empty, in order. */
  function NonEmpty(segs: seq<string>): (r: seq<string>)
    ensures forall k :: 0 <= k < |r| ==> r[k] != ""
    ensures |r| <= |segs|
  {
    if segs == [] then []
    else NonEmpty(segs[..|segs| - 1]) + (if segs[|segs| - 1] == "" then [] else [segs[|segs| - 1]])
  }

  /** Key-less elements named by the given names. */
  function Elems(names: seq<string>): (r: seq<PathElem>)
    ensures |r| == |names|
    ensures forall k :: 0 <= k < |r| ==> r[k] == PathElem(names[k], [])
  {
    if names == [] then [] else Elems(names[..|names| - 1]) + [PathElem(names[|names| - 1], [])]
  }

  function Names(elems: seq<PathElem>): (r: seq<string>)
    ensures |r| == |elems|
    ensures forall k :: 0 <= k < |r| ==> r[k] == elems[k].name
  {
    if elems == [] then [] else Names(elems[..|elems| - 1]) + [elems[|elems| - 1].name]
  }

  /** The path string `/n1/n2/...` of a list of names. */
  function Join(names: seq<string>): (r: string)
    ensures r == [] <==> names == []
    ensures r != [] ==> r[0] == '/'
  {
    if names == [] then [] else Join(names[..|names| - 1]) + "/" + names[|names| - 1]
  }

  predicate Special(c: char)
  {
    c == '/' || c == '[' || c == ']' || c == '='
  }

  predicate BracketChar(c: char)
  {
    c == '[' || c == ']' || c == '='
  }

  predicate BracketFree(s: string)
  {
    forall j :: 0 <= j < |s| ==> !BracketChar(s[j])
  }

  /** A name the parser can produce: non-empty, without '/', '[', ']' or '='. */
  predicate GoodName(s: string)
  {
    s != [] && forall j :: 0 <= j < |s| ==> !Special(s[j])
  }
}
