/** `parsePath` on paths without key annotations, against the reference
    `strings.Split`: the elements are exactly the non-empty '/'-separated
    segments, so empty segments (a leading '/', "//", the appended '/')
    produce nothing, and a path written from good names parses back to
    those names. */
module GnmiPathSplit {
  import opened Common
  import opened GnmiPath
  import opened GnmiPathSteps

  /** The scan of a bracket-free prefix whose split is segs: no bracket is
      open, the completed segments have been emitted (the non-empty ones,
      without keys), and the current segment runs from `start` to n. */
  ghost predicate SplitScan(p: string, n: nat, st: Scanner, segs: seq<string>)
    requires n <= |p| && |segs| >= 1
  {
    && !st.stopped && st.name == -1 && st.value == -1 && st.end == -1 && st.keys == []
    && 0 <= st.start <= n
    && st.element == NonEmpty(segs[..|segs| - 1])
    && st.elems == Elems(st.element)
    && p[st.start..n] == segs[|segs| - 1]
  }

  lemma {:induction false} ScanBracketFree(p: string, n: nat)
    requires n <= |p|
    requires forall j :: 0 <= j < n ==> !BracketChar(p[j])
    ensures SplitScan(p, n, ScanPrefix(p, n), Segments(p[..n]))
  {
    if n > 0 {
      ScanBracketFree(p, n - 1);
      SegmentsPrefix(p, n);
      SplitStep(p, n - 1, ScanPrefix(p, n - 1), Segments(p[..n - 1]));
    }
  }

  lemma SegmentsPrefix(p: string, n: nat)
    requires 0 < n <= |p|
    ensures Segments(p[..n]) == SplitNext(Segments(p[..n - 1]), p[n - 1])
  {
    assert p[..n] == p[..n - 1] + [p[n - 1]];
    SegmentsSnoc(p[..n - 1], p[n - 1]);
  }

  lemma SplitStep(p: string, i: nat, st: Scanner, segs: seq<string>)
    requires i < |p| && !BracketChar(p[i]) && Sane(st, i) && |segs| >= 1 && SplitScan(p, i, st, segs)
    ensures SplitScan(p, i + 1, Step(p, i, st), SplitNext(segs, p[i]))
  {
    if p[i] == '/' {
      SlashStep(p, i, st);
      SplitSlash(p, i, st, segs);
    } else {
      QuietStep(p, i, st);
      SplitOther(p, i, st, segs);
    }
  }

  /** How one more character extends the split of a string. */
  function SplitNext(segs: seq<string>, c: char): seq<string>
    requires |segs| >= 1
  {
    if c == '/' then segs + [""] else segs[..|segs| - 1] + [segs[|segs| - 1] + [c]]
  }

  lemma SegmentsSnoc(s: string, c: char)
    ensures Segments(s + [c]) == SplitNext(Segments(s), c)
  {
    assert (s + [c])[..|s|] == s;
  }

  lemma SplitSlash(p: string, i: nat, st: Scanner, segs: seq<string>)
    requires i < |p| && Sane(st, i) && |segs| >= 1 && SplitScan(p, i, st, segs)
    ensures SplitScan(p, i + 1, EndSegment(p, i, st), segs + [""])
  {
    assert NonEmpty((segs + [""])[..|segs|]) == NonEmpty(segs) by {
      assert (segs + [""])[..|segs|] == segs;
    }
    if i > st.start {
      SplitSlashEmit(p, i, st, segs);
    } else {
      assert NonEmpty(segs) == st.element by {
        assert segs[|segs| - 1] == "";
        NonEmptyLast(segs);
      }
    }
  }

  lemma SplitSlashEmit(p: string, i: nat, st: Scanner, segs: seq<string>)
    requires i < |p| && Sane(st, i) && |segs| >= 1 && SplitScan(p, i, st, segs)
    requires i > st.start
    ensures EndSegment(p, i, st).element == NonEmpty(segs)
    ensures EndSegment(p, i, st).elems == Elems(NonEmpty(segs))
  {
    var last := p[st.start..i];
    assert NonEmpty(segs) == st.element + [last] by {
      assert last != "";
      NonEmptyLast(segs);
    }
    ElemsSnoc(st.element, last);
  }

  lemma NonEmptyLast(segs: seq<string>)
    requires |segs| >= 1
    ensures NonEmpty(segs) == NonEmpty(segs[..|segs| - 1]) + (if segs[|segs| - 1] == "" then [] else [segs[|segs| - 1]])
  {
  }

  lemma SplitOther(p: string, i: nat, st: Scanner, segs: seq<string>)
    requires i < |p| && Sane(st, i) && |segs| >= 1 && SplitScan(p, i, st, segs)
    ensures SplitScan(p, i + 1, st, segs[..|segs| - 1] + [segs[|segs| - 1] + [p[i]]])
  {
    var segs' := segs[..|segs| - 1] + [segs[|segs| - 1] + [p[i]]];
    assert segs'[..|segs'| - 1] == segs[..|segs| - 1];
    assert p[st.start..i + 1] == p[st.start..i] + [p[i]];
  }

  lemma ElemsSnoc(names: seq<string>, x: string)
    ensures Elems(names + [x]) == Elems(names) + [PathElem(x, [])]
  {
    assert (names + [x])[..|names|] == names;
  }

  /** On a path without '[', ']' or '=', `parsePath` succeeds with one
      key-less element per non-empty segment of `strings.Split(path, "/")`;
      the raw element texts are the same names, and the empty path gives no
      element at all. */
  lemma ParseBracketFree(origin: string, path: string, target: string)
    requires path == [] || path[0] == '/'
    requires BracketFree(path)
    ensures var names := NonEmpty(Segments(path));
      Parse(origin, path, target) == Success(Path(origin, target, Elems(names), names))
    ensures path == [] ==> Parse(origin, path, target) == Success(Path(origin, target, [], []))
  {
    var p := path + "/";
    ScanBracketFree(p, |p|);
    assert p[..|p|] == p;
    assert p[..|p| - 1] == path;
    assert Segments(p) == Segments(path) + [""];
  }

  /** Splitting after appending "/" + x adds x as one more segment. */
  lemma {:induction false} SegmentsAppend(s: string, x: string)
    requires '/' !in x
    ensures Segments(s + "/" + x) == Segments(s) + [x]
    decreases |x|
  {
    var t := s + "/" + x;
    if x == [] {
      assert t[..|t| - 1] == s;
    } else {
      var x0 := x[..|x| - 1];
      assert t[..|t| - 1] == s + "/" + x0;
      SegmentsAppend(s, x0);
      assert x == x0 + [x[|x| - 1]];
    }
  }

  /** The path written from names splits into one empty segment (before the
      leading '/') followed by the names. */
  lemma {:induction false} SegmentsOfJoin(names: seq<string>)
    requires forall k :: 0 <= k < |names| ==> '/' !in names[k]
    ensures Segments(Join(names)) == [""] + names
  {
    if names != [] {
      var init := names[..|names| - 1];
      SegmentsOfJoin(init);
      SegmentsAppend(Join(init), names[|names| - 1]);
      assert [""] + names == ([""] + init) + [names[|names| - 1]];
    }
  }

  lemma {:induction false} NonEmptyKeeps(names: seq<string>)
    requires forall k :: 0 <= k < |names| ==> names[k] != ""
    ensures NonEmpty([""] + names) == names
  {
    if names != [] {
      var init := names[..|names| - 1];
      NonEmptyKeeps(init);
      assert ([""] + names)[..|names|] == [""] + init;
    }
  }

  lemma {:induction false} JoinBracketFree(names: seq<string>)
    requires forall k :: 0 <= k < |names| ==> GoodName(names[k])
    ensures BracketFree(Join(names))
  {
    if names != [] {
      JoinBracketFree(names[..|names| - 1]);
    }
  }

  /** A path written as "/n1/n2/..." from good names parses to exactly those
      names, as key-less elements. */
  lemma ParseJoin(origin: string, names: seq<string>, target: string)
    requires forall k :: 0 <= k < |names| ==> GoodName(names[k])
    ensures Parse(origin, Join(names), target) == Success(Path(origin, target, Elems(names), names))
  {
    assert forall k :: 0 <= k < |names| ==> '/' !in names[k] by {
      forall k | 0 <= k < |names| ensures '/' !in names[k] {
        assert GoodName(names[k]);
      }
    }
    SegmentsOfJoin(names);
    NonEmptyKeeps(names);
    JoinBracketFree(names);
    ParseBracketFree(origin, Join(names), target);
  }
}
