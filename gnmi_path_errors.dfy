/** Which malformed annotations `parsePath` reports and which it only cuts
    short. Once a '[' is open, every way of leaving the loop keeps the key
    index set, so the final check reports "Invalid GNMI path"; a '=' or ']'
    outside any bracket leaves through `break` with no bracket open, so the
    path comes back without error, holding only the elements finished
    before it. */
module GnmiPathErrors {
  import opened Common
  import opened GnmiPath
  import opened GnmiPathSteps
  import opened GnmiPathSplit

  /** The scan after a '[' at i that no ']' has closed yet: a key index is
      set, and while the loop still runs it is the one just after i, and a
      value index is set exactly when a '=' came after the '['. */
  ghost predicate OpenFrom(p: string, i: nat, m: nat, st: Scanner)
    requires i < m <= |p|
  {
    && st.name >= 0
    && (!st.stopped ==>
          && st.name == i + 1
          && (st.value < 0 <==> forall q :: i < q < m ==> p[q] != '='))
  }

  /** One character other than ']' keeps a bracket open. */
  lemma OpenNext(p: string, i: nat, j: nat, st: Scanner)
    requires i < j < |p| && Sane(st, j) && p[j] != ']'
    requires OpenFrom(p, i, j, st)
    ensures OpenFrom(p, i, j + 1, Step(p, j, st))
  {
  }

  lemma {:induction false} OpenRun(p: string, i: nat, m: nat)
    requires i < m <= |p| && p[i] == '['
    requires !ScanPrefix(p, i).stopped && ScanPrefix(p, i).name < 0
    requires forall q :: i < q < m ==> p[q] != ']'
    ensures OpenFrom(p, i, m, ScanPrefix(p, m))
    decreases m
  {
    if m == i + 1 {
      OpenStep(p, i, ScanPrefix(p, i));
      Advance(p, i, ScanPrefix(p, i));
    } else {
      OpenRun(p, i, m - 1);
      Advance(p, m - 1, ScanPrefix(p, m - 1));
      OpenNext(p, i, m - 1, ScanPrefix(p, m - 1));
    }
  }

  /** The bracket-free front of a path leaves the loop running with no
      bracket open. */
  lemma FrontOpen(path: string, i: nat)
    requires i <= |path| && BracketFree(path[..i])
    ensures var st := ScanPrefix(path + "/", i); !st.stopped && st.name == -1 && st.value == -1
  {
    var p := path + "/";
    assert forall q :: 0 <= q < i ==> p[q] == path[..i][q];
    ScanBracketFree(p, i);
  }

  /** The step at j, with a bracket open since i, either leaves the loop
      with the key index set or, on the closing '/' at the very end, keeps
      it set. */
  lemma CloseFails(p: string, i: nat, j: nat, st: Scanner)
    requires i < j < |p| && ScanPrefix(p, j) == st && OpenFrom(p, i, j, st)
    requires || (j == |p| - 1 && p[j] == '/') || p[j] == '['
             || (p[j] == '=' && exists q :: i < q < j && p[q] == '=')
             || (p[j] == ']' && forall q :: i < q < j ==> p[q] != '=')
    ensures ScanPrefix(p, |p|).name >= 0
  {
    Advance(p, j, st);
    if Step(p, j, st).stopped {
      StoppedStays(p, j + 1, |p|);
    }
  }

  /** A '[' at i, reached with the loop still running and no bracket open,
      followed by no ']' up to j: the path is rejected as invalid when j is
      the end of the path (an unclosed '['), or a second '[' (a '[' before
      ']'), or a second '=', or a ']' with no '=' between. */
  lemma BracketError(origin: string, path: string, target: string, i: nat, j: nat, st: Scanner)
    requires path == [] || path[0] == '/'
    requires i < j <= |path| && path[i] == '['
    requires ScanPrefix(path + "/", i) == st && !st.stopped && st.name < 0
    requires forall q :: i < q < j ==> path[q] != ']'
    requires || j == |path| || path[j] == '['
             || (path[j] == '=' && exists q :: i < q < j && path[q] == '=')
             || (path[j] == ']' && forall q :: i < q < j ==> path[q] != '=')
    ensures Parse(origin, path, target) == Failure(InvalidPath(path + "/"))
  {
    var p := path + "/";
    OpenToEnd(p, path, i, j, st);
    ParseOfFinal(origin, path, target, ScanPrefix(p, |p|));
  }

  /** The scan side of `BracketError`, on p = path + "/": the key index is
      still set at the end. */
  lemma OpenToEnd(p: string, path: string, i: nat, j: nat, st: Scanner)
    requires p == path + "/"
    requires i < j <= |path| && path[i] == '['
    requires ScanPrefix(p, i) == st && !st.stopped && st.name < 0
    requires forall q :: i < q < j ==> path[q] != ']'
    requires || j == |path| || path[j] == '['
             || (path[j] == '=' && exists q :: i < q < j && path[q] == '=')
             || (path[j] == ']' && forall q :: i < q < j ==> path[q] != '=')
    ensures ScanPrefix(p, |p|).name >= 0
  {
    assert forall q :: 0 <= q < |path| ==> p[q] == path[q];
    OpenRun(p, i, j);
    CloseFails(p, i, j, ScanPrefix(p, j));
  }

  /** A '=' or ']' at i, reached with the loop still running and no bracket
      open, stops the scan without error: the result holds the elements
      emitted before i, and neither the segment i is in nor anything after
      it. */
  lemma StrayTruncates(origin: string, path: string, target: string, i: nat, st: Scanner)
    requires path == [] || path[0] == '/'
    requires i < |path| && (path[i] == '=' || path[i] == ']')
    requires ScanPrefix(path + "/", i) == st && !st.stopped && st.name < 0
    ensures Parse(origin, path, target) == Success(Path(origin, target, st.elems, st.element))
  {
    var p := path + "/";
    assert p[i] == path[i];
    BreakParse(origin, path, target, i, st);
  }

  /** The non-empty segments of s that a '/' has closed: those before the
      last '/' of s. */
  function Finished(s: string): (r: seq<string>)
    ensures forall k :: 0 <= k < |r| ==> r[k] != ""
  {
    var segs := Segments(s);
    NonEmpty(segs[..|segs| - 1])
  }

  /** When the '=' or ']' at i is the first bracket character of the path,
      the elements it keeps are those `strings.Split` finds finished before
      i. */
  lemma StrayBracketFree(origin: string, path: string, target: string, i: nat)
    requires path == [] || path[0] == '/'
    requires i < |path| && BracketFree(path[..i]) && (path[i] == '=' || path[i] == ']')
    ensures Parse(origin, path, target) == Success(Path(origin, target, Elems(Finished(path[..i])), Finished(path[..i])))
  {
    var p := path + "/";
    assert forall q :: 0 <= q < i ==> p[q] == path[..i][q];
    ScanBracketFree(p, i);
    assert p[..i] == path[..i];
    BreakParse(origin, path, target, i, ScanPrefix(p, i));
  }

  /** So "/n1/.../nk/" + s + rest, with rest starting with '=' or ']',
      parses without error to the elements n1 ... nk alone. */
  lemma StrayAfterJoin(origin: string, names: seq<string>, s: string, rest: string, target: string)
    requires forall k :: 0 <= k < |names| ==> GoodName(names[k])
    requires forall j :: 0 <= j < |s| ==> !Special(s[j])
    requires rest != [] && (rest[0] == '=' || rest[0] == ']')
    ensures Parse(origin, Join(names) + "/" + s + rest, target) == Success(Path(origin, target, Elems(names), names))
  {
    var front := Join(names) + "/" + s;
    FinishedOfJoin(names, s);
    assert (front + rest)[..|front|] == front;
    StrayBracketFree(origin, front + rest, target, |front|);
  }

  /** Good names written as a path and followed by '/' and a segment s
      without special characters: the bracket-free text whose finished
      segments are the names. */
  lemma FinishedOfJoin(names: seq<string>, s: string)
    requires forall k :: 0 <= k < |names| ==> GoodName(names[k])
    requires forall j :: 0 <= j < |s| ==> !Special(s[j])
    ensures BracketFree(Join(names) + "/" + s) && Finished(Join(names) + "/" + s) == names
  {
    JoinBracketFree(names);
    FrontBracketFree(Join(names), s);
    assert forall k :: 0 <= k < |names| ==> '/' !in names[k] by {
      forall k | 0 <= k < |names| ensures '/' !in names[k] {
        assert GoodName(names[k]);
      }
    }
    assert '/' !in s by {
      assert forall j :: 0 <= j < |s| ==> s[j] != '/';
    }
    SegmentsOfJoin(names);
    SegmentsAppend(Join(names), s);
    FinishedOfSegments(Join(names) + "/" + s, names, s);
  }

  lemma FrontBracketFree(w: string, s: string)
    requires BracketFree(w) && forall j :: 0 <= j < |s| ==> !Special(s[j])
    ensures BracketFree(w + "/" + s)
  {
    var t := w + "/" + s;
    forall j | 0 <= j < |t| ensures !BracketChar(t[j]) {
      if j > |w| {
        assert t[j] == s[j - |w| - 1];
      }
    }
  }

  lemma FinishedOfSegments(t: string, names: seq<string>, s: string)
    requires Segments(t) == [""] + names + [s]
    requires forall k :: 0 <= k < |names| ==> GoodName(names[k])
    ensures Finished(t) == names
  {
    assert Segments(t)[..|Segments(t)| - 1] == [""] + names;
    NonEmptyKeeps(names);
  }
}
