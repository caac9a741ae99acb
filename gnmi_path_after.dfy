/** `parsePath` on malformed annotations that follow complete elements
    with annotations of their own: the elements written before the fault
    are emitted and the loop runs on with no bracket open, so the rules of
    `GnmiPathErrors` apply there as at the first bracket of a path. */
module GnmiPathAfter {
  import opened Common
  import opened GnmiPath
  import opened GnmiPathSteps
  import opened GnmiPathWritten
  import opened GnmiPathErrors

  /** Complete written elements, '/', and a segment front s without special
      characters, read from the start of p up to e: the loop runs on with
      no bracket open, all the elements emitted. */
  lemma WrittenFront(p: string, n: nat, e: nat, ws: seq<Written>, s: string)
    requires forall k :: 0 <= k < |ws| ==> Complete(ws[k])
    requires forall j :: 0 <= j < |s| ==> !Special(s[j])
    requires n == |Join(Texts(ws))| && e == n + 1 + |s| && e <= |p|
    requires p[..n + 1] == Join(Texts(ws)) + "/" && p[n + 1..e] == s
    ensures ScanPrefix(p, e) == Fresh(n + 1, Decoded(ws), Texts(ws))
  {
    JoinScan(p, n, ws);
    QuietRun(p, n + 1, e, s, Fresh(n + 1, Decoded(ws), Texts(ws)));
  }

  /** The pieces of w + "/" + s + rest, and of the same path with the
      closing '/' the scan appends. */
  lemma AfterPieces(path: string, p: string, w: string, s: string, rest: string)
    requires path == w + "/" + s + rest && p == path + "/"
    requires w == [] || w[0] == '/'
    ensures path != [] && path[0] == '/'
    ensures |w| + 1 + |s| <= |path| && path[|w| + 1 + |s|..] == rest
    ensures p[..|w| + 1] == w + "/" && p[|w| + 1..|w| + 1 + |s|] == s
  {
    assert path[0] == (w + "/")[0];
    assert p == w + "/" + s + (rest + "/");
  }

  /** So "/a[k=v]/b]/c" parses without error to the element a with its key
      alone: a stray '=' or ']' after complete elements keeps them and drops
      the rest. */
  lemma StrayAfterWritten(origin: string, path: string, target: string, ws: seq<Written>, s: string, rest: string)
    requires forall k :: 0 <= k < |ws| ==> Complete(ws[k])
    requires forall j :: 0 <= j < |s| ==> !Special(s[j])
    requires rest != [] && (rest[0] == '=' || rest[0] == ']')
    requires path == Join(Texts(ws)) + "/" + s + rest
    ensures Parse(origin, path, target) == Success(Path(origin, target, Decoded(ws), Texts(ws)))
  {
    var i := |Join(Texts(ws))| + 1 + |s|;
    AfterScan(path, path + "/", i, ws, s, rest);
    assert path[i] == rest[0];
    StrayTruncates(origin, path, target, i, Fresh(|Join(Texts(ws))| + 1, Decoded(ws), Texts(ws)));
  }

  /** And "/a[k=v]/b[x" is rejected: a '[' after complete elements that
      is never properly closed makes the path invalid, on the same four
      conditions as `BracketError`, j counted from the '['. */
  lemma BracketErrorAfterWritten(origin: string, path: string, target: string, ws: seq<Written>, s: string, rest: string, j: nat)
    requires forall k :: 0 <= k < |ws| ==> Complete(ws[k])
    requires forall k :: 0 <= k < |s| ==> !Special(s[k])
    requires 0 < j <= |rest| && rest[0] == '['
    requires forall q :: 0 < q < j ==> rest[q] != ']'
    requires || j == |rest| || rest[j] == '['
             || (rest[j] == '=' && exists q :: 0 < q < j && rest[q] == '=')
             || (rest[j] == ']' && forall q :: 0 < q < j ==> rest[q] != '=')
    requires path == Join(Texts(ws)) + "/" + s + rest
    ensures Parse(origin, path, target) == Failure(InvalidPath(path + "/"))
  {
    var i := |Join(Texts(ws))| + 1 + |s|;
    AfterScan(path, path + "/", i, ws, s, rest);
    BracketErrorAt(origin, path, target, i, rest, j, Fresh(|Join(Texts(ws))| + 1, Decoded(ws), Texts(ws)));
  }

  /** `BracketError` with the unclosed bracket and what follows it given as
      the rest of the path from i. */
  lemma BracketErrorAt(origin: string, path: string, target: string, i: nat, rest: string, j: nat, st: Scanner)
    requires path != [] && path[0] == '/' && i <= |path| && path[i..] == rest
    requires ScanPrefix(path + "/", i) == st && !st.stopped && st.name < 0
    requires 0 < j <= |rest| && rest[0] == '['
    requires forall q :: 0 < q < j ==> rest[q] != ']'
    requires || j == |rest| || rest[j] == '['
             || (rest[j] == '=' && exists q :: 0 < q < j && rest[q] == '=')
             || (rest[j] == ']' && forall q :: 0 < q < j ==> rest[q] != '=')
    ensures Parse(origin, path, target) == Failure(InvalidPath(path + "/"))
  {
    AfterConditions(path, i, rest, j);
    BracketError(origin, path, target, i, i + j, st);
  }

  /** Where rest begins in the path w + "/" + s + rest, and the scan up to
      there: no break, no bracket open, the elements of w emitted. */
  lemma AfterScan(path: string, p: string, i: nat, ws: seq<Written>, s: string, rest: string)
    requires forall k :: 0 <= k < |ws| ==> Complete(ws[k])
    requires forall j :: 0 <= j < |s| ==> !Special(s[j])
    requires path == Join(Texts(ws)) + "/" + s + rest && p == path + "/"
    requires i == |Join(Texts(ws))| + 1 + |s|
    ensures path[0] == '/' && i <= |path| && path[i..] == rest
    ensures ScanPrefix(p, i) == Fresh(|Join(Texts(ws))| + 1, Decoded(ws), Texts(ws))
  {
    AfterPieces(path, p, Join(Texts(ws)), s, rest);
    WrittenFront(p, |Join(Texts(ws))|, i, ws, s);
  }


  /** The conditions on rest, read at position i of the path. */
  lemma AfterConditions(path: string, i: nat, rest: string, j: nat)
    requires i <= |path| && path[i..] == rest
    requires 0 < j <= |rest| && rest[0] == '['
    requires forall q :: 0 < q < j ==> rest[q] != ']'
    requires || j == |rest| || rest[j] == '['
             || (rest[j] == '=' && exists q :: 0 < q < j && rest[q] == '=')
             || (rest[j] == ']' && forall q :: 0 < q < j ==> rest[q] != '=')
    ensures path[i] == '[' && i + j <= |path|
    ensures forall q :: i < q < i + j ==> path[q] != ']'
    ensures || i + j == |path| || path[i + j] == '['
            || (path[i + j] == '=' && exists q :: i < q < i + j && path[q] == '=')
            || (path[i + j] == ']' && forall q :: i < q < i + j ==> path[q] != '=')
  {
    assert forall q :: i <= q < |path| ==> path[q] == rest[q - i];
    if j < |rest| {
      assert path[i + j] == rest[j];
      if rest[j] == '=' && exists q :: 0 < q < j && rest[q] == '=' {
        var q :| 0 < q < j && rest[q] == '=';
        assert path[i + q] == '=';
      }
    }
  }
}
