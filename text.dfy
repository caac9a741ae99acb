/** The string helpers of Go's `strings` package that the core uses, on
    strings as sequences of characters. */
module Text {

  /** `strings.Replace(s, "-", "_", -1)`: every dash becomes an underscore. */
  function Underscored(s: string): (r: string)
    ensures |r| == |s|
    ensures forall i :: 0 <= i < |s| ==> r[i] == (if s[i] == '-' then '_' else s[i])
  {
    if s == [] then [] else [if s[0] == '-' then '_' else s[0]] + Underscored(s[1..])
  }

  /** The result of Underscored holds no dash, and applying it again changes nothing. */
  lemma UnderscoredIdempotent(s: string)
    ensures forall i :: 0 <= i < |Underscored(s)| ==> Underscored(s)[i] != '-'
    ensures Underscored(Underscored(s)) == Underscored(s)
  {
    var r := Underscored(s);
    assert Underscored(r) == r by {
      assert |Underscored(r)| == |r|;
      forall i | 0 <= i < |r| ensures Underscored(r)[i] == r[i] { }
    }
  }

  predicate IsQuote(c: char)
  {
    c == '\'' || c == '"'
  }

  predicate AllQuotes(s: string)
  {
    forall i :: 0 <= i < |s| ==> IsQuote(s[i])
  }

  /** Neither end of `s` is a quote character. */
  predicate QuoteFree(s: string)
  {
    s == [] || (!IsQuote(s[0]) && !IsQuote(s[|s| - 1]))
  }

  /** `strings.TrimLeft(s, "'\"")` */
  function TrimLeftQuotes(s: string): string
  {
    if s != [] && IsQuote(s[0]) then TrimLeftQuotes(s[1..]) else s
  }

  /** `strings.TrimRight(s, "'\"")` */
  function TrimRightQuotes(s: string): string
  {
    if s != [] && IsQuote(s[|s| - 1]) then TrimRightQuotes(s[..|s| - 1]) else s
  }

  /** `strings.Trim(s, "'\"")`: drops every leading and every trailing
      single or double quote. */
  function TrimQuotes(s: string): string
  {
    TrimRightQuotes(TrimLeftQuotes(s))
  }

  /** TrimLeftQuotes drops a prefix made only of quotes and stops at the
      first character that is not one. */
  lemma {:induction false} TrimLeftQuotesSpec(s: string)
    ensures var r := TrimLeftQuotes(s);
      && |r| <= |s| && r == s[|s| - |r|..]
      && AllQuotes(s[..|s| - |r|])
      && (r == [] || !IsQuote(r[0]))
  {
    if s != [] && IsQuote(s[0]) {
      TrimLeftQuotesSpec(s[1..]);
      var r := TrimLeftQuotes(s);
      assert s[..|s| - |r|] == [s[0]] + s[1..][..|s| - 1 - |r|];
    }
  }

  /** TrimRightQuotes drops a suffix made only of quotes and stops at the
      last character that is not one. */
  lemma {:induction false} TrimRightQuotesSpec(s: string)
    ensures var r := TrimRightQuotes(s);
      && |r| <= |s| && r == s[..|r|]
      && AllQuotes(s[|r|..])
      && (r == [] || !IsQuote(r[|r| - 1]))
  {
    if s != [] && IsQuote(s[|s| - 1]) {
      TrimRightQuotesSpec(s[..|s| - 1]);
      var r := TrimRightQuotes(s);
      assert s[|r|..] == s[..|s| - 1][|r|..] + [s[|s| - 1]];
    }
  }

  /** Neither end of a trimmed string is a quote. */
  lemma TrimQuotesFree(s: string)
    ensures QuoteFree(TrimQuotes(s))
  {
    var l := TrimLeftQuotes(s);
    TrimLeftQuotesSpec(s);
    TrimRightQuotesSpec(l);
  }

  /** TrimQuotes removes exactly the quote runs at both ends: surrounding a
      quote-free string with any quotes and trimming gives it back. */
  lemma {:induction false} TrimQuotesStrips(lead: string, s: string, trail: string)
    requires AllQuotes(lead) && AllQuotes(trail) && QuoteFree(s)
    ensures TrimQuotes(lead + s + trail) == s
  {
    if s == [] {
      assert lead + s + trail == (lead + trail) + [];
      TrimLeftAll(lead + trail, []);
    } else {
      TrimLeftAll(lead, s + trail);
      assert lead + s + trail == lead + (s + trail);
      TrimRightAll(s, trail);
    }
  }

  lemma {:induction false} TrimLeftAll(lead: string, s: string)
    requires AllQuotes(lead)
    requires s == [] || !IsQuote(s[0])
    ensures TrimLeftQuotes(lead + s) == s
  {
    if lead != [] {
      assert (lead + s)[1..] == lead[1..] + s;
      TrimLeftAll(lead[1..], s);
    }
  }

  lemma {:induction false} TrimRightAll(s: string, trail: string)
    requires AllQuotes(trail) && QuoteFree(s)
    ensures TrimRightQuotes(s + trail) == s
  {
    if trail != [] {
      assert (s + trail)[..|s + trail| - 1] == s + trail[..|trail| - 1];
      TrimRightAll(s, trail[..|trail| - 1]);
    } else {
      assert s + trail == s;
    }
  }

  /** ASCII upper-casing, the part of `strings.ToUpper` the mode names use. */
  function ToUpper(s: string): (r: string)
    ensures |r| == |s|
    ensures forall i :: 0 <= i < |s| ==>
      r[i] == (if 'a' <= s[i] <= 'z' then (s[i] as int - 32) as char else s[i])
  {
    if s == [] then []
    else [if 'a' <= s[0] <= 'z' then (s[0] as int - 32) as char else s[0]] + ToUpper(s[1..])
  }
}
