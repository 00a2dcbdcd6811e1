/** The functions of Go's `strings` package that the modelled code calls. */
module Strings {

  /** `strings.HasPrefix` at offset `i`. */
  predicate OccursAt(s: string, pat: string, i: nat) {
    i + |pat| <= |s| && s[i..i + |pat|] == pat
  }

  predicate Contains(s: string, pat: string) {
    exists i: nat | i <= |s| :: OccursAt(s, pat, i)
  }

  lemma ContainsIff(s: string, pat: string)
    ensures Contains(s, pat) <==> exists a, b :: s == a + pat + b
  {
    if i: nat :| i <= |s| && OccursAt(s, pat, i) {
      assert s == s[..i] + pat + s[i + |pat|..];
    }
    if a, b :| s == a + pat + b {
      assert OccursAt(s, pat, |a|);
    }
  }

  /** `strings.ReplaceAll` for a nonempty pattern: leftmost, non-overlapping occurrences. */
  function ReplaceAll(s: string, pat: string, rep: string): string
    requires pat != ""
    decreases |s|
  {
    if s == "" then ""
    else if OccursAt(s, pat, 0) then rep + ReplaceAll(s[|pat|..], pat, rep)
    else [s[0]] + ReplaceAll(s[1..], pat, rep)
  }

  lemma Assoc(a: string, b: string, c: string)
    ensures a + b + c == a + (b + c)
  {}

  lemma OccursSplits(s: string, pat: string)
    requires OccursAt(s, pat, 0)
    ensures s == pat + s[|pat|..]
  {
    assert s[0..|pat|] == s[..|pat|];
  }

  /** Text without the pattern's first character passes through. */
  lemma {:induction false} ReplaceAllPlain(a: string, tail: string, pat: string, rep: string)
    requires pat != "" && pat[0] !in a
    ensures ReplaceAll(a + tail, pat, rep) == a + ReplaceAll(tail, pat, rep)
  {
    if a == "" {
      assert a + tail == tail;
    } else {
      var s := a + tail;
      assert s[1..] == a[1..] + tail;
      assert |pat| <= |s| ==> s[0..|pat|][0] == a[0];
      ReplaceAllPlain(a[1..], tail, pat, rep);
    }
  }

  /** Replacement works separately on the two sides of a character the pattern does not contain. */
  lemma {:induction false} ReplaceAllAround(a: string, c: char, tail: string, pat: string, rep: string)
    requires pat != "" && c !in pat
    ensures ReplaceAll(a + ([c] + tail), pat, rep) == ReplaceAll(a, pat, rep) + ([c] + ReplaceAll(tail, pat, rep))
    decreases |a|
  {
    var s := a + ([c] + tail);
    if a == "" {
      assert s == [c] + tail;
      assert |pat| <= |s| ==> s[0..|pat|][0] == c;
      assert s[1..] == tail;
    } else {
      OccursAround(a, c, tail, pat);
      if OccursAt(s, pat, 0) {
        assert s[|pat|..] == a[|pat|..] + ([c] + tail);
        ReplaceAllAround(a[|pat|..], c, tail, pat, rep);
        Assoc(rep, ReplaceAll(a[|pat|..], pat, rep), [c] + ReplaceAll(tail, pat, rep));
      } else {
        assert s[1..] == a[1..] + ([c] + tail);
        ReplaceAllAround(a[1..], c, tail, pat, rep);
      }
    }
  }

  lemma OccursAround(a: string, c: char, tail: string, pat: string)
    requires c !in pat
    ensures OccursAt(a + ([c] + tail), pat, 0) <==> OccursAt(a, pat, 0)
  {
    var s := a + ([c] + tail);
    if |pat| <= |a| {
      assert s[0..|pat|] == a[0..|pat|];
    } else {
      assert |pat| <= |s| ==> s[0..|pat|][|a|] == c;
    }
  }

  // ----- White space and case -----------------------------------------------------------------

  /** `unicode.IsSpace`. */
  predicate IsWhite(c: char) {
    || '\t' <= c <= '\r' || c == ' ' || c == '\U{0085}' || c == '\U{00A0}' || c == '\U{1680}'
    || '\U{2000}' <= c <= '\U{200A}' || c == '\U{2028}' || c == '\U{2029}' || c == '\U{202F}'
    || c == '\U{205F}' || c == '\U{3000}'
  }

  function TrimLeft(s: string): string {
    if s != "" && IsWhite(s[0]) then TrimLeft(s[1..]) else s
  }

  function TrimRight(s: string): string {
    if s != "" && IsWhite(s[|s| - 1]) then TrimRight(s[..|s| - 1]) else s
  }

  function TrimSpace(s: string): string {
    TrimRight(TrimLeft(s))
  }

  /** Neither end is white space. */
  predicate Trimmed(s: string) {
    s != "" ==> !IsWhite(s[0]) && !IsWhite(s[|s| - 1])
  }

  predicate AllWhite(s: string) {
    forall i | 0 <= i < |s| :: IsWhite(s[i])
  }

  lemma {:induction false} TrimLeftPad(a: string, s: string)
    requires AllWhite(a) && (s != "" ==> !IsWhite(s[0]))
    ensures TrimLeft(a + s) == s
  {
    if a == "" {
      assert a + s == s;
    } else {
      assert (a + s)[1..] == a[1..] + s;
      TrimLeftPad(a[1..], s);
    }
  }

  lemma {:induction false} TrimRightPad(s: string, b: string)
    requires AllWhite(b) && (s != "" ==> !IsWhite(s[|s| - 1]))
    ensures TrimRight(s + b) == s
  {
    if b == "" {
      assert s + b == s;
    } else {
      assert (s + b)[..|s + b| - 1] == s + b[..|b| - 1];
      TrimRightPad(s, b[..|b| - 1]);
    }
  }

  lemma TrimSpacePad(a: string, s: string, b: string)
    requires AllWhite(a) && AllWhite(b) && Trimmed(s)
    ensures TrimSpace(a + s + b) == s
  {
    if s == "" {
      assert a + s + b == (a + b) + "";
      TrimLeftPad(a + b, "");
    } else {
      assert a + s + b == a + (s + b);
      TrimLeftPad(a, s + b);
      TrimRightPad(s, b);
    }
  }

  /** The characters of Go's `unicode.White_Space`. */
  const WHITE_SPACE :=
    "\t\n\U{000B}\U{000C}\r \U{0085}\U{00A0}\U{1680}\U{2000}\U{2001}\U{2002}\U{2003}\U{2004}\U{2005}\U{2006}"
    + "\U{2007}\U{2008}\U{2009}\U{200A}\U{2028}\U{2029}\U{202F}\U{205F}\U{3000}"

  lemma {:induction false} SpaceTrimmed(a: string, s: string, b: string)
    requires forall c | c in a + b :: c in WHITE_SPACE
    requires s != "" ==> s[0] !in WHITE_SPACE && s[|s| - 1] !in WHITE_SPACE
    ensures TrimSpace(a + s + b) == s
  {
    forall i | 0 <= i < |a|
      ensures IsWhite(a[i])
    {
      WhiteSpaceIff(a[i]);
      assert a[i] in a + b;
    }
    forall i | 0 <= i < |b|
      ensures IsWhite(b[i])
    {
      WhiteSpaceIff(b[i]);
      assert b[i] in a + b;
    }
    if s != "" {
      WhiteSpaceIff(s[0]);
      WhiteSpaceIff(s[|s| - 1]);
    }
    TrimSpacePad(a, s, b);
  }

  lemma WhiteSpaceIff(c: char)
    ensures IsWhite(c) <==> c in WHITE_SPACE
  {}

  const UPPER := "ABCDEFGHIJKLMNOPQRSTUVWXYZ"
  const LOWER := "abcdefghijklmnopqrstuvwxyz"

  function Lower(c: char): char {
    if 'A' <= c <= 'Z' then c - 'A' + 'a' else c
  }

  function ToLower(s: string): (t: string)
    ensures |t| == |s|
  {
    seq(|s|, i requires 0 <= i < |s| => Lower(s[i]))
  }

  /** Capital letters become small ones, letter by letter, and nothing else changes. */
  lemma LowerLetters(s: string, i: nat, k: nat)
    requires i < |s| && k < 26
    ensures s[i] == UPPER[k] ==> ToLower(s)[i] == LOWER[k]
    ensures s[i] !in UPPER ==> ToLower(s)[i] == s[i]
  {
    LowerLetter(s[i], k);
  }

  lemma LowerLetter(c: char, k: nat)
    requires k < 26
    ensures c == UPPER[k] ==> Lower(c) == LOWER[k]
    ensures c !in UPPER ==> Lower(c) == c
  {
    UpperAt(k);
    if 'A' <= c <= 'Z' {
      UpperAt(c as int - 'A' as int);
    }
  }

  lemma UpperAt(k: nat)
    requires k < 26
    ensures UPPER[k] as int == 'A' as int + k && LOWER[k] as int == 'a' as int + k
  {}

  predicate EqualFold(a: string, b: string) {
    ToLower(a) == ToLower(b)
  }

  // ----- Searching and joining ----------------------------------------------------------------

  /** `strings.Index`: the first occurrence, or -1. */
  function Index(s: string, pat: string): (i: int)
    ensures -1 <= i && (i >= 0 ==> OccursAt(s, pat, i))
    ensures forall k: nat | k < i :: !OccursAt(s, pat, k)
    ensures i == -1 <==> !Contains(s, pat)
  {
    IndexFrom(s, pat, 0)
  }

  function IndexFrom(s: string, pat: string, from: nat): (i: int)
    requires from <= |s| + 1
    ensures i == -1 || (from <= i <= |s| && OccursAt(s, pat, i))
    ensures i == -1 ==> forall k: nat | from <= k <= |s| :: !OccursAt(s, pat, k)
    ensures forall k: nat | from <= k < i :: !OccursAt(s, pat, k)
    decreases |s| + 1 - from
  {
    if from == |s| + 1 then -1
    else if OccursAt(s, pat, from) then from
    else IndexFrom(s, pat, from + 1)
  }

  /** `strings.Join`. */
  function Join(parts: seq<string>, sep: string): string {
    if parts == [] then "" else if |parts| == 1 then parts[0] else parts[0] + sep + Join(parts[1..], sep)
  }

  lemma IndexIs(s: string, pat: string, i: nat)
    requires OccursAt(s, pat, i) && forall k: nat | k < i :: !OccursAt(s, pat, k)
    ensures Index(s, pat) == i
  {
    assert Contains(s, pat);
  }

  /** `strings.LastIndex`: the last occurrence, or -1. */
  function LastIndex(s: string, pat: string): (i: int)
    ensures -1 <= i && (i >= 0 ==> OccursAt(s, pat, i))
    ensures forall k: nat | i < k <= |s| :: !OccursAt(s, pat, k)
  {
    LastIndexTo(s, pat, |s|)
  }

  function LastIndexTo(s: string, pat: string, to: nat): (i: int)
    requires to <= |s|
    ensures -1 <= i <= to && (i >= 0 ==> OccursAt(s, pat, i))
    ensures forall k: nat | i < k <= to :: !OccursAt(s, pat, k)
  {
    if OccursAt(s, pat, to) then to else if to == 0 then -1 else LastIndexTo(s, pat, to - 1)
  }

  predicate StartsWith(s: string, pat: string) {
    |pat| <= |s| && s[..|pat|] == pat
  }

  predicate EndsWith(s: string, pat: string) {
    |pat| <= |s| && s[|s| - |pat|..] == pat
  }

  /** Some text is longer than finitely many. */
  lemma {:induction false} LongerThan(s: set<string>) returns (w: string)
    ensures forall k | k in s :: |k| < |w|
    decreases |s|
  {
    if s == {} {
      w := "";
    } else {
      var k :| k in s;
      var v := LongerThan(s - {k});
      w := v + k + "x";
    }
  }
}
