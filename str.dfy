/**
 * The methods of Rust's `str` that the program relies on: `trim`,
 * `contains`, `replace` and `split`, on strings as sequences of Unicode
 * scalar values.
 */
module Str {
  import opened Seqs

  /** `char::is_whitespace`: the characters with the Unicode White_Space property. */
  predicate IsWhitespace(c: char) {
    var n := c as int;
    || 0x09 <= n <= 0x0D
    || n == 0x20
    || n == 0x85
    || n == 0xA0
    || n == 0x1680
    || 0x2000 <= n <= 0x200A
    || n == 0x2028
    || n == 0x2029
    || n == 0x202F
    || n == 0x205F
    || n == 0x3000
  }

  predicate AllWhitespace(s: string) {
    forall i :: 0 <= i < |s| ==> IsWhitespace(s[i])
  }

  /** `trim_start`: drops the leading whitespace. */
  function TrimStart(s: string): (r: string)
    ensures |r| <= |s| && r == s[|s| - |r|..]
    ensures AllWhitespace(s[..|s| - |r|])
    ensures r == [] || !IsWhitespace(r[0])
  {
    if s != [] && IsWhitespace(s[0]) then
      var r := TrimStart(s[1..]);
      assert s[..|s| - |r|] == [s[0]] + s[1..][..|s| - 1 - |r|];
      r
    else s
  }

  /** `trim_end`: drops the trailing whitespace. */
  function TrimEnd(s: string): (r: string)
    ensures |r| <= |s| && r == s[..|r|]
    ensures AllWhitespace(s[|r|..])
    ensures r == [] || !IsWhitespace(r[|r| - 1])
  {
    if s != [] && IsWhitespace(s[|s| - 1]) then
      var init := s[..|s| - 1];
      var r := TrimEnd(init);
      assert s[|r|..] == init[|r|..] + [s[|s| - 1]];
      r
    else s
  }

  /** `trim`: drops the whitespace on both sides. */
  function Trim(s: string): string {
    TrimEnd(TrimStart(s))
  }

  /**
   * What `trim` gives: the part of `s` left between the whitespace it drops,
   * neither starting nor ending with whitespace.
   */
  lemma TrimSpec(s: string)
    ensures exists lead, trail :: s == lead + Trim(s) + trail && AllWhitespace(lead) && AllWhitespace(trail)
    ensures Trim(s) == [] || (!IsWhitespace(Trim(s)[0]) && !IsWhitespace(Trim(s)[|Trim(s)| - 1]))
  {
    var t := TrimStart(s);
    var r := TrimEnd(t);
    assert Trim(s) == r;
    var lead, trail := s[..|s| - |t|], t[|r|..];
    Sandwich(s, t, r);
    TrimEnds(t, r);
    Padding(s, lead, r, trail);
  }

  /**
   * Solver hint, not a property of the program: the witnesses of
   * `TrimSpec`'s existential. Dafny proves it from the definitions alone;
   * stating it as one step keeps the proofs that call it small.
   */
  lemma Padding(s: string, lead: string, r: string, trail: string)
    requires s == lead + r + trail && AllWhitespace(lead) && AllWhitespace(trail)
    ensures exists lead, trail :: s == lead + r + trail && AllWhitespace(lead) && AllWhitespace(trail)
  {
  }

  /**
   * Solver hint, not a property of the program: the ends of a trimmed
   * text. Dafny proves it from the definitions alone; stating it as one
   * step keeps the proofs that call it small.
   */
  lemma TrimEnds(t: string, r: string)
    requires t == [] || !IsWhitespace(t[0])
    requires |r| <= |t| && r == t[..|r|]
    requires r == [] || !IsWhitespace(r[|r| - 1])
    ensures r == [] || (!IsWhitespace(r[0]) && !IsWhitespace(r[|r| - 1]))
  {
    if r != [] {
      assert r[0] == t[0];
    }
  }

  /** What the two trims leave sits between the whitespace they drop. */
  lemma Sandwich(s: string, t: string, r: string)
    requires |t| <= |s| && t == s[|s| - |t|..]
    requires |r| <= |t| && r == t[..|r|]
    ensures s == s[..|s| - |t|] + r + t[|r|..]
  {
    var lead, trail := s[..|s| - |t|], t[|r|..];
    assert s == lead + t;
    assert t == r + trail;
  }

  lemma {:induction false} TrimStartPadded(lead: string, x: string)
    requires AllWhitespace(lead) && (x == [] || !IsWhitespace(x[0]))
    ensures TrimStart(lead + x) == x
  {
    if lead != [] {
      assert (lead + x)[1..] == lead[1..] + x;
      TrimStartPadded(lead[1..], x);
    } else {
      assert lead + x == x;
    }
  }

  lemma {:induction false} TrimEndPadded(x: string, trail: string)
    requires AllWhitespace(trail) && (x == [] || !IsWhitespace(x[|x| - 1]))
    ensures TrimEnd(x + trail) == x
  {
    if trail != [] {
      var n := |trail| - 1;
      assert (x + trail)[..|x| + n] == x + trail[..n];
      TrimEndPadded(x, trail[..n]);
    } else {
      assert x + trail == x;
    }
  }

  /**
   * `trim` gives back the text between the whitespace: the result that
   * `Trim`'s contract describes is the only one.
   */
  lemma TrimPadded(lead: string, r: string, trail: string)
    requires AllWhitespace(lead) && AllWhitespace(trail)
    requires r != [] && !IsWhitespace(r[0]) && !IsWhitespace(r[|r| - 1])
    ensures Trim(lead + r + trail) == r
  {
    assert lead + r + trail == lead + (r + trail);
    TrimStartPadded(lead, r + trail);
    TrimEndPadded(r, trail);
  }

  /** `pat` starts at position `i` of `s`. */
  predicate OccursAt(s: string, pat: string, i: nat) {
    i + |pat| <= |s| && s[i..i + |pat|] == pat
  }

  /** `contains` with a string pattern. */
  predicate Contains(s: string, pat: string) {
    exists i: nat | i <= |s| :: OccursAt(s, pat, i)
  }

  /**
   * `replace`: every occurrence of `pat`, found left to right without
   * overlapping, is replaced by `rep`.
   */
  function Replace(s: string, pat: string, rep: string): string
    requires pat != []
    decreases |s|
  {
    if |s| < |pat| then s
    else if s[..|pat|] == pat then rep + Replace(s[|pat|..], pat, rep)
    else [s[0]] + Replace(s[1..], pat, rep)
  }

  /** An occurrence in the tail is an occurrence in the whole. */
  lemma ContainsTail(s: string, pat: string)
    requires s != []
    ensures Contains(s[1..], pat) ==> Contains(s, pat)
  {
    var t := s[1..];
    if Contains(t, pat) {
      var i: nat :| i <= |t| && OccursAt(t, pat, i);
      assert s[i + 1..i + 1 + |pat|] == t[i..i + |pat|];
      assert OccursAt(s, pat, i + 1);
    }
  }

  /** Replacing a pattern that does not occur changes nothing. */
  lemma {:induction false} ReplaceAbsent(s: string, pat: string, rep: string)
    requires pat != [] && !Contains(s, pat)
    ensures Replace(s, pat, rep) == s
    decreases |s|
  {
    if |s| >= |pat| {
      assert !OccursAt(s, pat, 0);
      ContainsTail(s, pat);
      ReplaceAbsent(s[1..], pat, rep);
    }
  }

  /** The segments that `split` yields, glued back together with `sep`. */
  function Join(parts: seq<string>, sep: char): string
    requires parts != []
  {
    if |parts| == 1 then parts[0] else parts[0] + [sep] + Join(parts[1..], sep)
  }

  /** `split` by a one-character pattern: the text between consecutive separators. */
  function Split(s: string, sep: char): seq<string>
    decreases |s|
  {
    if sep !in s then [s]
    else
      var i := IndexOf(s, sep);
      [s[..i]] + Split(s[i + 1..], sep)
  }

  /**
   * What `split` yields: at least one segment, which glued back together
   * with the separator give `s`; no segment contains the separator; more
   * than one exactly when `s` holds it; the first runs up to the first one.
   */
  lemma {:induction false} SplitSpec(s: string, sep: char)
    ensures var parts := Split(s, sep);
      && |parts| >= 1
      && Join(parts, sep) == s
      && (forall i :: 0 <= i < |parts| ==> sep !in parts[i])
      && (|parts| > 1 <==> sep in s)
      && (sep in s ==> parts[0] == s[..IndexOf(s, sep)])
    decreases |s|
  {
    if sep in s {
      var i := IndexOf(s, sep);
      SplitSpec(s[i + 1..], sep);
      assert s == s[..i] + [sep] + s[i + 1..];
    }
  }
}
