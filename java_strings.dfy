/**
 * The three java.lang.String operations the transform relies on:
 * `trim()`, `toLowerCase()` and `replaceAll(regex, replacement)` with a
 * regular expression that matches one literal text.
 */
module JavaStrings {

  /** `String.trim` removes every leading and trailing char at or below U+0020. */
  predicate IsTrimmable(c: char)
  {
    c <= ' '
  }

  /** A string made only of chars that `trim` removes. */
  ghost predicate Blank(s: string)
  {
    forall k {:trigger IsTrimmable(s[k])} :: 0 <= k < |s| ==> IsTrimmable(s[k])
  }

  /** Removes the leading run of trimmable chars. */
  function TrimStart(s: string): (r: string)
    ensures |r| <= |s|
  {
    if s != [] && IsTrimmable(s[0]) then TrimStart(s[1..]) else s
  }

  /** Removes the trailing run of trimmable chars. */
  function TrimEnd(s: string): (r: string)
    ensures |r| <= |s|
  {
    if s != [] && IsTrimmable(s[|s| - 1]) then TrimEnd(s[..|s| - 1]) else s
  }

  /** `TrimStart` keeps a suffix, drops only blanks, and stops at a char `trim` keeps. */
  lemma {:induction false} TrimStartSpec(s: string)
    ensures var r := TrimStart(s);
      r == s[|s| - |r|..] && Blank(s[..|s| - |r|]) && (r == [] || !IsTrimmable(r[0]))
    decreases |s|
  {
    if s != [] && IsTrimmable(s[0]) {
      TrimStartSpec(s[1..]);
      var r := TrimStart(s);
      assert s[1..][|s| - 1 - |r|..] == s[|s| - |r|..];
      assert s[1..][..|s| - 1 - |r|] == s[1..|s| - |r|];
    }
  }

  /** `TrimEnd` keeps a prefix, drops only blanks, and stops at a char `trim` keeps. */
  lemma {:induction false} TrimEndSpec(s: string)
    ensures var r := TrimEnd(s);
      r == s[..|r|] && Blank(s[|r|..]) && (r == [] || !IsTrimmable(r[|r| - 1]))
    decreases |s|
  {
    if s != [] && IsTrimmable(s[|s| - 1]) {
      var init := s[..|s| - 1];
      TrimEndSpec(init);
      var r := TrimEnd(s);
      assert init[..|r|] == s[..|r|];
      assert init[|r|..] == s[|r|..|s| - 1];
    }
  }

  /** `String.trim`: the string between the leading and the trailing blank runs. */
  function Trim(s: string): (r: string)
    ensures |r| <= |s|
    ensures r == [] || (!IsTrimmable(r[0]) && !IsTrimmable(r[|r| - 1]))
  {
    TrimStartSpec(s);
    TrimEndSpec(TrimStart(s));
    TrimEnd(TrimStart(s))
  }

  /** A blank prefix is invisible to `TrimStart`. */
  lemma {:induction false} TrimStartSkipsBlank(lead: string, rest: string)
    requires Blank(lead)
    ensures TrimStart(lead + rest) == TrimStart(rest)
    decreases |lead|
  {
    if lead != [] {
      assert (lead + rest)[1..] == lead[1..] + rest;
      TrimStartSkipsBlank(lead[1..], rest);
    } else {
      assert lead + rest == rest;
    }
  }

  /** A blank suffix is invisible to `TrimEnd`. */
  lemma {:induction false} TrimEndSkipsBlank(rest: string, trail: string)
    requires Blank(trail)
    ensures TrimEnd(rest + trail) == TrimEnd(rest)
    decreases |trail|
  {
    if trail != [] {
      var shorter := trail[..|trail| - 1];
      assert (rest + trail)[..|rest + trail| - 1] == rest + shorter;
      TrimEndSkipsBlank(rest, shorter);
    } else {
      assert rest + trail == rest;
    }
  }

  /**
   * Trimming `lead + core + trail` gives `core` exactly when the padding is
   * blank and `core` neither starts nor ends with a trimmable char.
   */
  lemma TrimPadded(lead: string, core: string, trail: string)
    requires Blank(lead) && Blank(trail)
    requires core != [] && !IsTrimmable(core[0]) && !IsTrimmable(core[|core| - 1])
    ensures Trim(lead + core + trail) == core
  {
    assert lead + core + trail == lead + (core + trail);
    TrimStartSkipsBlank(lead, core + trail);
    assert TrimStart(core + trail) == core + trail;
    TrimEndSkipsBlank(core, trail);
  }

  /** The blank run that `trim` removes at the front. */
  function LeadingBlank(s: string): string
  {
    s[..|s| - |TrimStart(s)|]
  }

  /** The blank run that `trim` removes at the back. */
  function TrailingBlank(s: string): string
  {
    TrimStart(s)[|Trim(s)|..]
  }

  /**
   * Every string is its trimmed form with the two removed runs around it:
   * the converse of `TrimPadded`.
   */
  lemma TrimRejoins(s: string)
    ensures s == LeadingBlank(s) + Trim(s) + TrailingBlank(s)
  {
    var middle := TrimStart(s);
    var t := TrimEnd(middle);
    var lead := s[..|s| - |middle|];
    var trail := middle[|t|..];
    TrimStartIsSuffix(s);
    TrimEndIsPrefix(middle);
    Rejoin(s, lead, middle, t, trail);
  }

  /** A prefix cut off a string and a split of the rest put back together. */
  lemma Rejoin(s: string, lead: string, middle: string, t: string, trail: string)
    requires |middle| <= |s| && |t| <= |middle|
    requires s[..|s| - |middle|] == lead && middle == s[|s| - |middle|..]
    requires t == middle[..|t|] && trail == middle[|t|..]
    ensures s == lead + t + trail
  {
    assert s == lead + middle;
    assert middle == t + trail;
  }

  /** The sequence equation of `TrimStartSpec` alone. */
  lemma TrimStartIsSuffix(s: string)
    ensures TrimStart(s) == s[|s| - |TrimStart(s)|..]
  {
    TrimStartSpec(s);
  }

  /** The sequence equation of `TrimEndSpec` alone. */
  lemma TrimEndIsPrefix(s: string)
    ensures TrimEnd(s) == s[..|TrimEnd(s)|]
  {
    TrimEndSpec(s);
  }

  /** What `trim` removes is blank. */
  lemma TrimRemovesBlank(s: string)
    ensures Blank(LeadingBlank(s)) && Blank(TrailingBlank(s))
  {
    TrimStartSpec(s);
    TrimEndSpec(TrimStart(s));
  }

  /**
   * Lowering of ASCII capitals, the part of `String.toLowerCase` that can
   * matter here. Java lowers more than this, and depends on the default
   * locale, but whatever it does beyond ASCII capitals yields no `b`, `o`,
   * `d`, `y`, `h`, `t`, `m` or `l`: the Kelvin sign U+212A lowers to `k`;
   * U+0130 lowers to `i` followed by U+0307 (two chars), or to `i` alone in
   * a Turkish locale, where `I` lowers to U+0131 instead of `i`. Since
   * neither "body" nor "html" holds an `i` or a `k`, comparing the lowered
   * text with those words comes out the same as with this model.
   */
  function LowerChar(c: char): (r: char)
    ensures !('A' <= r <= 'Z')
    ensures r == c <==> !('A' <= c <= 'Z')
    ensures 'A' <= c <= 'Z' ==> r as int == c as int - 'A' as int + 'a' as int
  {
    if 'A' <= c <= 'Z' then (c as int - 'A' as int + 'a' as int) as char else c
  }

  /** `String.toLowerCase` on the ASCII model, char by char. */
  function ToLower(s: string): (r: string)
    ensures |r| == |s|
  {
    if s == [] then [] else [LowerChar(s[0])] + ToLower(s[1..])
  }

  /** Each char of the lowered string is the lowered char at the same index. */
  lemma {:induction false} ToLowerAt(s: string)
    ensures forall k :: 0 <= k < |s| ==> ToLower(s)[k] == LowerChar(s[k])
    decreases |s|
  {
    if s != [] {
      ToLowerAt(s[1..]);
    }
  }

  /** Two strings that are equal once ASCII capitals are lowered. */
  ghost predicate SameIgnoringCase(a: string, b: string)
  {
    |a| == |b| && forall k :: 0 <= k < |a| ==> LowerChar(a[k]) == LowerChar(b[k])
  }

  /** Lowering gives a lower-case word exactly when the string is that word in any case. */
  lemma ToLowerMatches(s: string, word: string)
    requires ToLower(word) == word
    ensures ToLower(s) == word <==> SameIgnoringCase(s, word)
  {
    ToLowerAt(s);
    ToLowerAt(word);
    if SameIgnoringCase(s, word) {
      forall k | 0 <= k < |s| ensures ToLower(s)[k] == word[k] {
        assert LowerChar(word[k]) == ToLower(word)[k];
      }
    }
    if ToLower(s) == word {
      forall k | 0 <= k < |s| ensures LowerChar(s[k]) == LowerChar(word[k]) {
        assert LowerChar(word[k]) == ToLower(word)[k];
      }
    }
  }

  // ---------------------------------------------------------------------
  // String.replaceAll with a regular expression that matches one literal
  // text `pat` (".css" written as the regex "\\.css") and a replacement that
  // holds neither '$' nor '\\', so it is inserted literally. The matcher
  // scans from the left, takes the leftmost match, and resumes after it.

  /** `pat` occurs in `s` starting at index `i`. */
  predicate MatchesAt(s: string, pat: string, i: nat)
  {
    i + |pat| <= |s| && s[i..i + |pat|] == pat
  }

  ghost predicate Occurs(s: string, pat: string)
  {
    exists i: nat :: MatchesAt(s, pat, i)
  }

  /**
   * `s.replaceAll(pat, rep)`: every leftmost, non-overlapping occurrence of
   * `pat` is replaced by `rep`. A replacement no shorter than the pattern
   * never shortens the text, and one of equal length keeps its length.
   */
  function ReplaceAll(s: string, pat: string, rep: string): (r: string)
    requires pat != []
    ensures |rep| >= |pat| ==> |r| >= |s|
    ensures |rep| == |pat| ==> |r| == |s|
    decreases |s|
  {
    if |s| < |pat| then s
    else if MatchesAt(s, pat, 0) then rep + ReplaceAll(s[|pat|..], pat, rep)
    else [s[0]] + ReplaceAll(s[1..], pat, rep)
  }

  /** No proper suffix of `pat` is also a prefix of it, so two matches never overlap. */
  ghost predicate Borderless(pat: string)
  {
    forall k :: 0 < k < |pat| ==> pat[k..] != pat[..|pat| - k]
  }

  /** Two texts that differ at some index both of them have. */
  ghost predicate Diverge(a: string, b: string)
  {
    exists k: nat :: k < |a| && k < |b| && a[k] != b[k]
  }

  lemma MatchShift(s: string, pat: string, i: nat)
    requires s != []
    ensures MatchesAt(s[1..], pat, i) <==> MatchesAt(s, pat, i + 1)
  {
    if i + 1 + |pat| <= |s| {
      assert s[1..][i..i + |pat|] == s[i + 1..i + 1 + |pat|];
    }
  }

  /** An occurrence that does not start at index 0 is an occurrence in the tail. */
  lemma OccursInTail(s: string, pat: string)
    requires Occurs(s, pat) && !MatchesAt(s, pat, 0)
    ensures s != [] && Occurs(s[1..], pat)
  {
    var i: nat :| MatchesAt(s, pat, i);
    assert i > 0;
    MatchShift(s, pat, i - 1);
  }

  /** A string in which `pat` does not occur is returned unchanged. */
  lemma {:induction false} ReplaceAllWithoutMatch(s: string, pat: string, rep: string)
    requires pat != []
    requires !Occurs(s, pat)
    ensures ReplaceAll(s, pat, rep) == s
    decreases |s|
  {
    if |s| >= |pat| {
      assert !MatchesAt(s, pat, 0);
      forall i: nat ensures !MatchesAt(s[1..], pat, i) {
        MatchShift(s, pat, i);
      }
      ReplaceAllWithoutMatch(s[1..], pat, rep);
      assert [s[0]] + s[1..] == s;
    }
  }

  lemma DivergeConcat(a: string, x: string, b: string, y: string)
    requires Diverge(a, b)
    ensures a + x != b + y
  {
    var k: nat :| k < |a| && k < |b| && a[k] != b[k];
    assert (a + x)[k] == a[k] && (b + y)[k] == b[k];
  }

  /**
   * The leftmost occurrence is replaced and scanning resumes after it: when
   * `pat` does not occur in `p`, `p + pat + q` becomes `p + rep` followed by
   * the rewritten `q`. Applied repeatedly, every occurrence is replaced, left
   * to right and without overlap.
   */
  lemma {:induction false} ReplaceAllFirstMatch(p: string, pat: string, q: string, rep: string)
    requires pat != [] && Borderless(pat)
    requires !Occurs(p, pat)
    ensures ReplaceAll(p + pat + q, pat, rep) == p + rep + ReplaceAll(q, pat, rep)
    decreases |p|
  {
    if p == [] {
      assert p + pat + q == pat + q && p + rep == rep;
      ReplaceAllAtMatch(pat, q, rep);
    } else {
      var s, t := p + pat + q, p[1..];
      var rest := ReplaceAll(q, pat, rep);
      assert ReplaceAll(s, pat, rep) == [p[0]] + ReplaceAll(t + pat + q, pat, rep) by {
        NoMatchBeforeFirst(p, pat, q);
        ConcatTail(p, pat + q);
        assert s[1..] == t + pat + q;
        ReplaceAllSkip(s, pat, rep);
      }
      assert ReplaceAll(t + pat + q, pat, rep) == t + rep + rest by {
        NoMatchInTail(p, pat);
        ReplaceAllFirstMatch(t, pat, q, rep);
      }
      assert p + rep + rest == [p[0]] + (t + rep + rest);
    }
  }

  /** A match at index 0 is replaced and scanning resumes right after it. */
  lemma ReplaceAllAtMatch(pat: string, q: string, rep: string)
    requires pat != []
    ensures ReplaceAll(pat + q, pat, rep) == rep + ReplaceAll(q, pat, rep)
  {
    var s := pat + q;
    assert s[..|pat|] == pat;
    assert s[|pat|..] == q;
  }

  /** Dropping the first char of a concatenation drops it from the left part. */
  lemma ConcatTail(a: string, b: string)
    requires a != []
    ensures (a + b)[1..] == a[1..] + b
  {
  }

  /** Where no match starts at index 0, the first char is copied and scanning goes on at 1. */
  lemma ReplaceAllSkip(s: string, pat: string, rep: string)
    requires pat != [] && |s| >= |pat| && !MatchesAt(s, pat, 0)
    ensures ReplaceAll(s, pat, rep) == [s[0]] + ReplaceAll(s[1..], pat, rep)
  {
  }

  /** A text in which `pat` does not occur has a tail in which it does not occur. */
  lemma NoMatchInTail(p: string, pat: string)
    requires p != [] && !Occurs(p, pat)
    ensures !Occurs(p[1..], pat)
  {
    forall i: nat ensures !MatchesAt(p[1..], pat, i) {
      MatchShift(p, pat, i);
    }
  }

  /** No match of a borderless `pat` starts inside a prefix `p` in which it does not occur. */
  lemma NoMatchBeforeFirst(p: string, pat: string, q: string)
    requires p != [] && Borderless(pat) && !Occurs(p, pat)
    ensures !MatchesAt(p + pat + q, pat, 0)
  {
    var s := p + pat + q;
    if |p| >= |pat| {
      assert s[..|pat|] == p[..|pat|];
      assert !MatchesAt(p, pat, 0);
    } else {
      var k := |p|;
      assert s[k..|pat|] == pat[..|pat| - k];
      assert pat[k..] != pat[..|pat| - k];
    }
  }

  /** The pieces `parts`, with `sep` between each two neighbours. */
  function Join(parts: seq<string>, sep: string): (r: string)
    ensures |parts| == 1 ==> r == parts[0]
    decreases |parts|
  {
    if |parts| == 0 then []
    else if |parts| == 1 then parts[0]
    else parts[0] + sep + Join(parts[1..], sep)
  }

  /**
   * Pieces without `pat`, joined by a borderless `pat`: every joint, and
   * nothing else, is replaced, so the result is the same pieces joined by `rep`.
   */
  lemma {:induction false} ReplaceAllJoin(parts: seq<string>, pat: string, rep: string)
    requires pat != [] && Borderless(pat)
    requires forall i :: 0 <= i < |parts| ==> !Occurs(parts[i], pat)
    ensures ReplaceAll(Join(parts, pat), pat, rep) == Join(parts, rep)
    decreases |parts|
  {
    if |parts| == 0 {
      ReplaceAllWithoutMatch([], pat, rep);
    } else if |parts| == 1 {
      ReplaceAllWithoutMatch(parts[0], pat, rep);
    } else {
      var rest := parts[1..];
      assert forall i :: 0 <= i < |rest| ==> rest[i] == parts[i + 1];
      ReplaceAllJoin(rest, pat, rep);
      ReplaceAllFirstMatch(parts[0], pat, Join(rest, pat), rep);
    }
  }

  /** Replacing with two texts that diverge gives two different results once `pat` occurs. */
  lemma {:induction false} ReplaceAllSeparates(s: string, pat: string, rep1: string, rep2: string)
    requires pat != []
    requires Occurs(s, pat) && Diverge(rep1, rep2)
    ensures ReplaceAll(s, pat, rep1) != ReplaceAll(s, pat, rep2)
    decreases |s|
  {
    var i: nat :| MatchesAt(s, pat, i);
    if MatchesAt(s, pat, 0) {
      DivergeConcat(rep1, ReplaceAll(s[|pat|..], pat, rep1), rep2, ReplaceAll(s[|pat|..], pat, rep2));
    } else {
      OccursInTail(s, pat);
      ReplaceAllSeparates(s[1..], pat, rep1, rep2);
      var x, y := ReplaceAll(s[1..], pat, rep1), ReplaceAll(s[1..], pat, rep2);
      assert ([s[0]] + x)[1..] == x && ([s[0]] + y)[1..] == y;
    }
  }

  /** A replacement that diverges from `pat` changes every string in which `pat` occurs. */
  lemma {:induction false} ReplaceAllChanges(s: string, pat: string, rep: string)
    requires pat != []
    requires Occurs(s, pat) && Diverge(rep, pat)
    ensures ReplaceAll(s, pat, rep) != s
    decreases |s|
  {
    var i: nat :| MatchesAt(s, pat, i);
    if MatchesAt(s, pat, 0) {
      assert s == pat + s[|pat|..];
      DivergeConcat(rep, ReplaceAll(s[|pat|..], pat, rep), pat, s[|pat|..]);
    } else {
      OccursInTail(s, pat);
      ReplaceAllChanges(s[1..], pat, rep);
      var x := ReplaceAll(s[1..], pat, rep);
      assert ([s[0]] + x)[1..] == x && s == [s[0]] + s[1..];
    }
  }
}
