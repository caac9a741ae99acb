/** Runs of characters that leave the scan of `parsePath` as it is, and
    reading characters and pieces of a string found inside the path. */
module GnmiPathSteps {
  import opened Text
  import opened GnmiPath

  /** A run s of characters from a to e that are quiet for the state st
      reached before them leaves the scan unchanged. */
  lemma {:induction false} QuietRun(p: string, a: nat, e: nat, s: string, st: Scanner)
    requires e == a + |s| <= |p| && p[a..e] == s
    requires ScanPrefix(p, a) == st
    requires forall j :: 0 <= j < |s| ==> !Special(s[j]) || (st.name >= 0 && !BracketChar(s[j]))
    ensures ScanPrefix(p, e) == st
  {
    if s != [] {
      var n := |s| - 1;
      LastPiece(p, a, e, s);
      QuietRun(p, a, a + n, s[..n], st);
      QuietStep(p, a + n, st);
      Advance(p, a + n, st);
      Same(p, a + n + 1, e);
    }
  }

  /** A string from a to e in p: its front and its last character. */
  lemma LastPiece(p: string, a: nat, e: nat, s: string)
    requires s != [] && e == a + |s| <= |p| && p[a..e] == s
    ensures p[a..a + (|s| - 1)] == s[..|s| - 1] && p[a + (|s| - 1)] == s[|s| - 1]
  {
    assert p[a..e][|s| - 1] == p[a + (|s| - 1)];
  }

  /** The scan at two positions known to be equal. */
  lemma Same(p: string, a: nat, b: nat)
    requires a == b <= |p|
    ensures ScanPrefix(p, a) == ScanPrefix(p, b)
  {
  }

  /** Characters of a string s at position i of p. */
  lemma Chars(p: string, i: nat, s: string)
    requires i + |s| <= |p| && p[i..i + |s|] == s
    ensures forall j :: 0 <= j < |s| ==> p[i + j] == s[j]
  {
    forall j | 0 <= j < |s| ensures p[i + j] == s[j] {
      assert p[i..i + |s|][j] == p[i + j];
    }
  }

  /** A concatenation x + y found at position m of p: x and y in turn. */
  lemma Halves(p: string, m: nat, e: nat, x: string, y: string)
    requires e == m + |x| + |y| && e <= |p| && p[m..e] == x + y
    ensures p[m..m + |x|] == x && p[m + |x|..e] == y
  {
    assert p[m..m + |x|] == p[m..e][..|x|];
    assert p[m + |x|..e] == p[m..e][|x|..];
  }

  /** A piece of a string s found at position i of p. */
  lemma Slice(p: string, i: nat, s: string, a: nat, b: nat)
    requires i + |s| <= |p| && p[i..i + |s|] == s && a <= b <= |s|
    ensures p[i + a..i + b] == s[a..b]
  {
    assert |p[i + a..i + b]| == |s[a..b]|;
    forall j | 0 <= j < b - a ensures p[i + a..i + b][j] == s[a..b][j] {
      assert p[i + a + j] == p[i..i + |s|][a + j];
    }
  }

  /** A path a + "/" + b + "/" at the start of p: a and '/', then b, then
      the '/' at n. */
  lemma PathPieces(p: string, n: nat, a: string, b: string)
    requires n == |a| + 1 + |b| && n < |p| && p[..n + 1] == a + "/" + b + "/"
    ensures p[..|a| + 1] == a + "/" && p[|a| + 1..n] == b && p[n] == '/'
  {
    var pre := p[..n + 1];
    assert p[..|a| + 1] == pre[..|a| + 1];
    assert pre[..|a| + 1] == a + "/";
    assert p[|a| + 1..n] == pre[|a| + 1..n];
    assert pre[|a| + 1..n] == b;
    assert p[n] == pre[n];
  }
}
