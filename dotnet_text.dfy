/** The .NET string operations the REPL relies on: `Char.IsWhiteSpace`,
  * `String.TrimStart()`, `String.TrimEnd()` and `String.Trim()`. */
module DotNetText {

  /** `Char.IsWhiteSpace`: the Unicode space separators, the line and
    * paragraph separators, and U+0009..U+000D, U+0085, U+00A0. */
  predicate IsWhiteSpace(c: char)
  {
    || c == ' '
    || ('\t' <= c <= '\r')
    || c == '\U{85}'
    || c == '\U{A0}'
    || c == '\U{1680}'
    || ('\U{2000}' <= c <= '\U{200A}')
    || c == '\U{2028}'
    || c == '\U{2029}'
    || c == '\U{202F}'
    || c == '\U{205F}'
    || c == '\U{3000}'
  }

  predicate AllWhiteSpace(s: string)
  {
    forall i :: 0 <= i < |s| ==> IsWhiteSpace(s[i])
  }

  /** `s.TrimEnd()`: `s` without its trailing white space. */
  function TrimEnd(s: string): (r: string)
    ensures |r| <= |s|
  {
    if s == [] then []
    else if IsWhiteSpace(s[|s| - 1]) then TrimEnd(s[..|s| - 1])
    else s
  }

  /** `s.TrimStart()`: `s` without its leading white space. */
  function TrimStart(s: string): (r: string)
    ensures |r| <= |s|
  {
    if s == [] then []
    else if IsWhiteSpace(s[0]) then TrimStart(s[1..])
    else s
  }

  /** `s.Trim()`: `s` without its leading and trailing white space. */
  function Trim(s: string): (r: string)
    ensures |r| <= |s|
  {
    TrimEnd(TrimStart(s))
  }

  /** `TrimEnd` keeps the longest prefix that does not end in white space,
    * and drops only white space. */
  lemma {:induction false} TrimEndFacts(s: string)
    ensures TrimEnd(s) <= s
    ensures TrimEnd(s) == [] || !IsWhiteSpace(TrimEnd(s)[|TrimEnd(s)| - 1])
    ensures AllWhiteSpace(s[|TrimEnd(s)|..])
  {
    if s != [] && IsWhiteSpace(s[|s| - 1]) {
      var t := s[..|s| - 1];
      TrimEndFacts(t);
      assert s[|TrimEnd(s)|..] == t[|TrimEnd(t)|..] + [s[|s| - 1]];
    }
  }

  /** `TrimStart` keeps the longest suffix that does not start with white
    * space, and drops only white space. */
  lemma {:induction false} TrimStartFacts(s: string)
    ensures TrimStart(s) == s[|s| - |TrimStart(s)|..]
    ensures TrimStart(s) == [] || !IsWhiteSpace(TrimStart(s)[0])
    ensures AllWhiteSpace(s[..|s| - |TrimStart(s)|])
  {
    if s != [] && IsWhiteSpace(s[0]) {
      var t := s[1..];
      TrimStartFacts(t);
      assert s[..|s| - |TrimStart(s)|] == [s[0]] + t[..|t| - |TrimStart(t)|];
    }
  }

  /** What `Trim` leaves neither starts nor ends with white space. */
  lemma TrimFacts(s: string)
    ensures Trim(s) == [] || (!IsWhiteSpace(Trim(s)[0]) && !IsWhiteSpace(Trim(s)[|Trim(s)| - 1]))
  {
    var u := TrimStart(s);
    TrimStartFacts(s);
    TrimEndFacts(u);
    if Trim(s) != [] {
      assert Trim(s)[0] == u[0];
    }
  }

  /** Trimming finds the text that white space surrounds: `Trim(" \t python \r\n") == "python"`. */
  lemma {:induction false} TrimPadded(lead: string, t: string, trail: string)
    requires AllWhiteSpace(lead) && AllWhiteSpace(trail)
    requires t == [] || (!IsWhiteSpace(t[0]) && !IsWhiteSpace(t[|t| - 1]))
    ensures Trim(lead + t + trail) == t
  {
    if t == [] {
      assert lead + t + trail == (lead + trail) + [];
      TrimStartPadded(lead + trail, []);
    } else {
      assert lead + t + trail == lead + (t + trail);
      TrimStartPadded(lead, t + trail);
      TrimEndPadded(t, trail);
    }
  }

  lemma {:induction false} TrimStartPadded(lead: string, u: string)
    requires AllWhiteSpace(lead)
    requires u == [] || !IsWhiteSpace(u[0])
    ensures TrimStart(lead + u) == u
  {
    if lead != [] {
      assert (lead + u)[1..] == lead[1..] + u;
      TrimStartPadded(lead[1..], u);
    }
  }

  lemma {:induction false} TrimEndPadded(t: string, trail: string)
    requires AllWhiteSpace(trail)
    requires t == [] || !IsWhiteSpace(t[|t| - 1])
    ensures TrimEnd(t + trail) == t
  {
    if trail != [] {
      assert (t + trail)[..|t + trail| - 1] == t + trail[..|trail| - 1];
      TrimEndPadded(t, trail[..|trail| - 1]);
    }
  }
}
