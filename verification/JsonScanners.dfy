/** The two repair scanners of pkg/llm/client.go, `fixJSON`'s rewrite loop and `removeTrailingCommas`,
    with what they do on arbitrary input. A text is a sequence of bytes, one `char` each. */
module JsonScanners {
  import opened Strings

  // ----- The rewrite loop ---------------------------------------------------------------------

  /** The two flags of the rewrite loop; they are never both set. */
  datatype Quote = Outside | InDouble | InSingle

  function Mode(inDouble: bool, inSingle: bool): Quote {
    if inDouble then InDouble else if inSingle then InSingle else Outside
  }

  /** What the rewrite loop appends from a given state on. */
  function Requote(s: string, q: Quote): string
    decreases |s|
  {
    if s == "" then ""
    else if s[0] == '\\' && |s| > 1 && q != Outside then s[..2] + Requote(s[2..], q)
    else if s[0] == '"' && q != InSingle then
      "\"" + Requote(s[1..], if q == InDouble then Outside else InDouble)
    else if s[0] == '\'' && q != InDouble then
      "\"" + Requote(s[1..], if q == InSingle then Outside else InSingle)
    else if s[0] == '"' then "\\\"" + Requote(s[1..], q)
    else [s[0]] + Requote(s[1..], q)
  }

  /** What the rewrite loop ends with, at position `i` with `b` already written. */
  function RewriteEnds(b: string, s: string, i: nat, q: Quote): string
    requires i <= |s|
  {
    b + Requote(s[i..], q)
  }

  lemma RequoteStep(b: string, s: string, i: nat, q: Quote)
    requires i < |s|
    ensures s[i] == '\\' && i + 1 < |s| && q != Outside ==>
              RewriteEnds(b, s, i, q) == RewriteEnds(b + [s[i]] + [s[i + 1]], s, i + 2, q)
    ensures s[i] == '"' && q == Outside ==> RewriteEnds(b, s, i, q) == RewriteEnds(b + [s[i]], s, i + 1, InDouble)
    ensures s[i] == '"' && q == InDouble ==> RewriteEnds(b, s, i, q) == RewriteEnds(b + [s[i]], s, i + 1, Outside)
    ensures s[i] == '"' && q == InSingle ==> RewriteEnds(b, s, i, q) == RewriteEnds(b + "\\\"", s, i + 1, q)
    ensures s[i] == '\'' && q == Outside ==> RewriteEnds(b, s, i, q) == RewriteEnds(b + "\"", s, i + 1, InSingle)
    ensures s[i] == '\'' && q == InSingle ==> RewriteEnds(b, s, i, q) == RewriteEnds(b + "\"", s, i + 1, Outside)
    ensures s[i] == '\'' && q == InDouble ==> RewriteEnds(b, s, i, q) == RewriteEnds(b + [s[i]], s, i + 1, q)
    ensures s[i] != '"' && s[i] != '\'' && !(s[i] == '\\' && i + 1 < |s| && q != Outside) ==>
              RewriteEnds(b, s, i, q) == RewriteEnds(b + [s[i]], s, i + 1, q)
  {
    var t := s[i..];
    assert t[1..] == s[i + 1..];
    if |t| > 1 {
      assert t[2..] == s[i + 2..] && t[..2] == [s[i]] + [s[i + 1]];
      Assoc(b, [s[i]], [s[i + 1]]);
      Assoc(b, t[..2], Requote(t[2..], q));
    }
    forall e: string, q'
      ensures b + (e + Requote(t[1..], q')) == b + e + Requote(t[1..], q')
    {
      Assoc(b, e, Requote(t[1..], q'));
    }
  }

  method RewriteQuotes(s: string) returns (b: string)
    ensures b == Requote(s, Outside)
  {
    b := "";
    var inDouble, inSingle := false, false;
    ghost var goal := Requote(s, Outside);
    var i := 0;
    assert s[0..] == s;
    while i < |s|
      invariant 0 <= i <= |s|
      invariant !(inDouble && inSingle)
      invariant goal == RewriteEnds(b, s, i, Mode(inDouble, inSingle))
    {
      RequoteStep(b, s, i, Mode(inDouble, inSingle));
      var ch := s[i];
      if ch == '\\' && i + 1 < |s| && (inDouble || inSingle) {
        b := b + [ch];
        i := i + 1;
        b := b + [s[i]];
      } else if ch == '"' && !inSingle {
        inDouble := !inDouble;
        b := b + [ch];
      } else if ch == '\'' && !inDouble {
        inSingle := !inSingle;
        b := b + "\"";
      } else if ch == '"' && inSingle {
        b := b + "\\\"";
      } else {
        b := b + [ch];
      }
      i := i + 1;
    }
    assert s[i..] == "";
  }

  // ----- removeTrailingCommas -----------------------------------------------------------------

  predicate IsSpace(c: char) {
    c == ' ' || c == '\t' || c == '\n' || c == '\r'
  }

  function SkipSpace(s: string): (t: string)
    ensures |t| <= |s|
    decreases |s|
  {
    if s != "" && IsSpace(s[0]) then SkipSpace(s[1..]) else s
  }

  /** The text after a comma makes that comma redundant. */
  predicate Redundant(rest: string) {
    var t := SkipSpace(rest);
    t != "" && (t[0] == ']' || t[0] == '}' || t[0] == ',')
  }

  /** What `removeTrailingCommas` appends from a given string state on. */
  function DropCommas(s: string, inStr: bool): string
    decreases |s|
  {
    if s == "" then ""
    else if s[0] == '\\' && inStr && |s| > 1 then s[..2] + DropCommas(s[2..], true)
    else if s[0] == '"' then "\"" + DropCommas(s[1..], !inStr)
    else if !inStr && s[0] == ',' && Redundant(s[1..]) then DropCommas(s[1..], false)
    else [s[0]] + DropCommas(s[1..], inStr)
  }

  /** One iteration of the comma loop at position `i`, with `b` already written. */
  lemma DropStep(b: string, s: string, i: nat, inStr: bool)
    requires i < |s|
    ensures s[i] == '\\' && inStr && i + 1 < |s| ==>
              b + DropCommas(s[i..], inStr) == b + [s[i]] + [s[i + 1]] + DropCommas(s[i + 2..], true)
    ensures !(s[i] == '\\' && inStr && i + 1 < |s|) ==>
              b + DropCommas(s[i..], inStr) ==
              if s[i] == '"' then b + [s[i]] + DropCommas(s[i + 1..], !inStr)
              else if !inStr && s[i] == ',' && Redundant(s[i + 1..]) then b + DropCommas(s[i + 1..], false)
              else b + [s[i]] + DropCommas(s[i + 1..], inStr)
  {
    var t := s[i..];
    assert t[1..] == s[i + 1..];
    if |t| > 1 {
      assert t[2..] == s[i + 2..] && t[..2] == [s[i]] + [s[i + 1]];
      Assoc(b, [s[i]], [s[i + 1]]);
      Assoc(b, t[..2], DropCommas(t[2..], true));
    }
    Assoc(b, [s[i]], DropCommas(t[1..], true));
    Assoc(b, [s[i]], DropCommas(t[1..], false));
  }

  method RemoveTrailingCommas(s: string) returns (b: string)
    ensures b == DropCommas(s, false)
  {
    b := "";
    ghost var goal := DropCommas(s, false);
    var inStr := false;
    var i := 0;
    assert s[0..] == s;
    while i < |s|
      invariant 0 <= i <= |s|
      invariant goal == b + DropCommas(s[i..], inStr)
    {
      DropStep(b, s, i, inStr);
      var ch := s[i];
      if ch == '\\' && inStr && i + 1 < |s| {
        b := b + [ch];
        i := i + 1;
        b := b + [s[i]];
        i := i + 1;
        continue;
      }
      if ch == '"' {
        inStr := !inStr;
        b := b + [ch];
        i := i + 1;
        continue;
      }
      if inStr {
        b := b + [ch];
        i := i + 1;
        continue;
      }
      if ch == ',' {
        // what comes next decides about the comma
        var j := i + 1;
        while j < |s| && (s[j] == ' ' || s[j] == '\t' || s[j] == '\n' || s[j] == '\r')
          invariant i < j <= |s|
          invariant SkipSpace(s[i + 1..]) == SkipSpace(s[j..])
        {
          j := j + 1;
        }
        if j < |s| && (s[j] == ']' || s[j] == '}') {
          i := i + 1;
          continue;
        }
        if j < |s| && s[j] == ',' {
          i := i + 1;
          continue;
        }
      }
      b := b + [ch];
      i := i + 1;
    }
    assert s[i..] == "";
  }

  // ----- Which commas go, character by character ----------------------------------------------

  const BLANKS := " \t\n\r"

  predicate Blank(ws: string) {
    forall c | c in ws :: c in BLANKS
  }

  lemma {:induction false} BlanksSkipped(ws: string, tail: string)
    requires Blank(ws)
    ensures SkipSpace(ws + tail) == SkipSpace(tail)
    ensures tail != "" && tail[0] !in BLANKS ==> SkipSpace(tail) == tail
    decreases |ws|
  {
    if ws == "" {
      assert ws + tail == tail;
    } else {
      assert ws[0] in ws && (ws + tail)[1..] == ws[1..] + tail;
      BlanksSkipped(ws[1..], tail);
    }
  }

  /** Outside strings, a comma goes before any blanks and then a closing bracket or another comma; before anything
      else, and at the end of the text, it stays. */
  lemma CommaGoesIff(ws: string, tail: string)
    requires Blank(ws) && (tail != "" ==> tail[0] !in BLANKS)
    ensures DropCommas("," + (ws + tail), false) ==
              (if tail != "" && tail[0] in "]}," then "" else ",") + DropCommas(ws + tail, false)
  {
    BlanksSkipped(ws, tail);
    var s := "," + (ws + tail);
    assert s[1..] == ws + tail;
  }

  // ----- The string mask: which bytes are inside a string literal -----------------------------

  /** For every byte, the value of `inStr` when that byte is consumed: false on an opening quote,
      true on the contents, on both bytes of an escape, and on the closing quote. */
  function StringMask(s: string, inStr: bool): (m: seq<bool>)
    ensures |m| == |s|
    decreases |s|
  {
    if s == "" then []
    else if s[0] == '\\' && inStr && |s| > 1 then [true, true] + StringMask(s[2..], true)
    else [inStr] + StringMask(s[1..], if s[0] == '"' then !inStr else inStr)
  }

  /** For every byte the rewrite loop emits, whether `inDouble || inSingle` held when it was emitted. */
  function RequoteMask(s: string, q: Quote): (m: seq<bool>)
    ensures |m| == |Requote(s, q)|
    decreases |s|
  {
    if s == "" then []
    else if s[0] == '\\' && |s| > 1 && q != Outside then [true, true] + RequoteMask(s[2..], q)
    else if s[0] == '"' && q != InSingle then
      [q != Outside] + RequoteMask(s[1..], if q == InDouble then Outside else InDouble)
    else if s[0] == '\'' && q != InDouble then
      [q != Outside] + RequoteMask(s[1..], if q == InSingle then Outside else InSingle)
    else if s[0] == '"' then [true, true] + RequoteMask(s[1..], q)
    else [q != Outside] + RequoteMask(s[1..], q)
  }

  /** The comma scanner's idea of a string, on the rewrite loop's output, is the rewrite loop's own. */
  lemma {:induction false} ScannersAgree(s: string, q: Quote)
    ensures StringMask(Requote(s, q), q != Outside) == RequoteMask(s, q)
    decreases |s|
  {
    var out := Requote(s, q);
    if s == "" {
    } else if s[0] == '\\' && |s| > 1 && q != Outside {
      ScannersAgree(s[2..], q);
      assert out[2..] == Requote(s[2..], q);
    } else if s[0] == '"' && q != InSingle {
      var q' := if q == InDouble then Outside else InDouble;
      ScannersAgree(s[1..], q');
      assert out[1..] == Requote(s[1..], q');
    } else if s[0] == '\'' && q != InDouble {
      var q' := if q == InSingle then Outside else InSingle;
      ScannersAgree(s[1..], q');
      assert out[1..] == Requote(s[1..], q');
    } else if s[0] == '"' {
      ScannersAgree(s[1..], q);
      assert out[2..] == Requote(s[1..], q);
    } else {
      ScannersAgree(s[1..], q);
      assert out[1..] == Requote(s[1..], q);
    }
  }

  // ----- What removeTrailingCommas deletes, position by position ------------------------------

  function Select(s: string, keep: seq<bool>): string
    requires |s| == |keep|
  {
    if s == "" then ""
    else (if keep[0] then [s[0]] else "") + Select(s[1..], keep[1..])
  }

  predicate KeepAt(s: string, mask: seq<bool>, i: nat)
    requires i < |s| == |mask|
  {
    !(s[i] == ',' && !mask[i] && Redundant(s[i + 1..]))
  }

  /** A byte goes exactly when it is a comma outside every string whose next non-blank is `]`, `}` or `,`. */
  function Kept(s: string, inStr: bool): (keep: seq<bool>)
    ensures |keep| == |s|
  {
    var mask := StringMask(s, inStr);
    seq(|s|, i requires 0 <= i < |s| => KeepAt(s, mask, i))
  }

  lemma KeptTail(s: string, inStr: bool, n: nat, inStr': bool)
    requires n <= |s|
    requires StringMask(s, inStr)[n..] == StringMask(s[n..], inStr')
    ensures Kept(s, inStr)[n..] == Kept(s[n..], inStr')
  {
    var mask := StringMask(s, inStr);
    forall i | 0 <= i < |s| - n
      ensures Kept(s, inStr)[n + i] == Kept(s[n..], inStr')[i]
    {
      assert s[n..][i + 1..] == s[n + i + 1..];
    }
  }

  lemma {:induction false} DropCommasExactly(s: string, inStr: bool)
    ensures DropCommas(s, inStr) == Select(s, Kept(s, inStr))
    decreases |s|
  {
    var keep := Kept(s, inStr);
    if s == "" {
    } else if s[0] == '\\' && inStr && |s| > 1 {
      DropCommasExactly(s[2..], true);
      KeptTail(s, inStr, 2, true);
      assert keep[0] && keep[1];
      assert keep[1..][1..] == keep[2..] && s[1..][1..] == s[2..];
      assert Select(s, keep) == [s[0]] + ([s[1]] + Select(s[2..], keep[2..]));
      assert s[..2] == [s[0]] + [s[1]];
    } else {
      var inStr' := if s[0] == '"' then !inStr else inStr;
      DropCommasExactly(s[1..], inStr');
      ExactlyByte(s, inStr);
    }
  }

  lemma ExactlyByte(s: string, inStr: bool)
    requires s != "" && !(s[0] == '\\' && inStr && |s| > 1)
    requires var inStr' := if s[0] == '"' then !inStr else inStr;
             DropCommas(s[1..], inStr') == Select(s[1..], Kept(s[1..], inStr'))
    ensures DropCommas(s, inStr) == Select(s, Kept(s, inStr))
  {
    var inStr' := if s[0] == '"' then !inStr else inStr;
    KeptTail(s, inStr, 1, inStr');
  }

  // ----- Normal form --------------------------------------------------------------------------

  /** No comma outside strings is followed, past white space, by `]`, `}` or another comma. */
  predicate Normal(s: string, inStr: bool) {
    forall k | 0 <= k < |s| :: Kept(s, inStr)[k]
  }

  lemma {:induction false} NotRedundantKept(rest: string)
    requires !Redundant(rest)
    ensures !Redundant(DropCommas(rest, false))
    decreases |rest|
  {
    if rest != "" && IsSpace(rest[0]) {
      NotRedundantKept(rest[1..]);
      assert DropCommas(rest, false)[1..] == DropCommas(rest[1..], false);
    } else if rest != "" {
      assert DropCommas(rest, false)[0] == rest[0];
    }
  }

  lemma {:induction false} DropCommasNormal(s: string, inStr: bool)
    ensures Normal(DropCommas(s, inStr), inStr)
    decreases |s|
  {
    var out := DropCommas(s, inStr);
    if s == "" {
    } else if s[0] == '\\' && inStr && |s| > 1 {
      DropCommasNormal(s[2..], true);
      assert out[2..] == DropCommas(s[2..], true);
      KeptTail(out, inStr, 2, true);
      assert Kept(out, inStr)[2..] == Kept(out[2..], true);
    } else if !inStr && s[0] == ',' && Redundant(s[1..]) {
      DropCommasNormal(s[1..], false);
    } else {
      var inStr' := if s[0] == '"' then !inStr else inStr;
      DropCommasNormal(s[1..], inStr');
      assert out[1..] == DropCommas(s[1..], inStr');
      assert !(out[0] == '\\' && inStr && |out| > 1) || |s| == 1;
      KeptTail(out, inStr, 1, inStr');
      assert Kept(out, inStr)[1..] == Kept(out[1..], inStr');
      if s[0] == ',' && !inStr {
        NotRedundantKept(s[1..]);
      }
    }
  }

  lemma {:induction false} NormalIsFixed(s: string, inStr: bool)
    requires Normal(s, inStr)
    ensures DropCommas(s, inStr) == s
  {
    DropCommasExactly(s, inStr);
    SelectAll(s, Kept(s, inStr));
  }

  lemma {:induction false} SelectAll(s: string, keep: seq<bool>)
    requires |s| == |keep| && forall k | 0 <= k < |s| :: keep[k]
    ensures Select(s, keep) == s
  {
    if s != "" {
      SelectAll(s[1..], keep[1..]);
    }
  }

  /** A second application of `removeTrailingCommas` changes nothing. */
  lemma {:induction false} DropCommasIdempotent(s: string)
    ensures DropCommas(DropCommas(s, false), false) == DropCommas(s, false)
  {
    DropCommasNormal(s, false);
    NormalIsFixed(DropCommas(s, false), false);
  }

  // ----- String contents are never touched ----------------------------------------------------

  lemma {:induction false} StringsUntouched(s: string, inStr: bool)
    ensures var out := DropCommas(s, inStr);
            Select(out, StringMask(out, inStr)) == Select(s, StringMask(s, inStr))
    decreases |s|
  {
    var out := DropCommas(s, inStr);
    if s == "" {
    } else if s[0] == '\\' && inStr && |s| > 1 {
      StringsUntouched(s[2..], true);
      assert out[2..] == DropCommas(s[2..], true);
    } else if !inStr && s[0] == ',' && Redundant(s[1..]) {
      StringsUntouched(s[1..], false);
    } else {
      var inStr' := if s[0] == '"' then !inStr else inStr;
      StringsUntouched(s[1..], inStr');
      assert out[1..] == DropCommas(s[1..], inStr');
      assert !(out[0] == '\\' && inStr && |out| > 1);
    }
  }

  // ----- The Python words ---------------------------------------------------------------------

  /** A byte that no scanner treats specially. */
  predicate Inert(c: char) {
    !IsSpace(c) && c !in "\"'\\,[]{}"
  }

  /** Same length, and every changed byte is inert before and after. */
  predicate SameShape(a: string, b: string) {
    |a| == |b| && forall i | 0 <= i < |a| :: a[i] == b[i] || (Inert(a[i]) && Inert(b[i]))
  }

  datatype Word = True | False | None

  function PythonText(w: Word): string {
    match w case True => "True" case False => "False" case None => "None"
  }

  function JsonText(w: Word): string {
    match w case True => "true" case False => "false" case None => "null"
  }

  function PythonPattern(w: Word): (p: string)
    ensures p == ": " + PythonText(w)
  {
    match w case True => ": True" case False => ": False" case None => ": None"
  }

  function JsonPattern(w: Word): (p: string)
    ensures p == ": " + JsonText(w)
  {
    match w case True => ": true" case False => ": false" case None => ": null"
  }

  function FixWord(s: string, w: Word): string {
    ReplaceAll(s, PythonPattern(w), JsonPattern(w))
  }

  function FixWords(s: string): string {
    FixWord(FixWord(FixWord(s, True), False), None)
  }

  lemma {:induction false} ReplaceSameShape(s: string, pat: string, rep: string)
    requires pat != "" && SameShape(pat, rep)
    ensures SameShape(s, ReplaceAll(s, pat, rep))
    decreases |s|
  {
    if s == "" {
    } else if OccursAt(s, pat, 0) {
      ReplaceSameShape(s[|pat|..], pat, rep);
      OccursSplits(s, pat);
    } else {
      ReplaceSameShape(s[1..], pat, rep);
    }
  }

  lemma {:induction false} FixWordSameShape(s: string, w: Word)
    ensures SameShape(s, FixWord(s, w))
  {
    ReplaceSameShape(s, PythonPattern(w), JsonPattern(w));
  }

  lemma {:induction false} FixWordsSameShape(s: string)
    ensures SameShape(s, FixWords(s))
  {
    var t := FixWord(s, True);
    var u := FixWord(t, False);
    FixWordSameShape(s, True);
    FixWordSameShape(t, False);
    FixWordSameShape(u, None);
  }

  lemma {:induction false} SameShapeMask(a: string, b: string, inStr: bool)
    requires SameShape(a, b)
    ensures StringMask(a, inStr) == StringMask(b, inStr)
    decreases |a|
  {
    if a == "" {
    } else if a[0] == '\\' && inStr && |a| > 1 {
      SameShapeMask(a[2..], b[2..], true);
    } else {
      SameShapeMask(a[1..], b[1..], if a[0] == '"' then !inStr else inStr);
    }
  }

  lemma {:induction false} SameShapeRedundant(a: string, b: string)
    requires SameShape(a, b)
    ensures Redundant(a) == Redundant(b)
    decreases |a|
  {
    if a != "" && IsSpace(a[0]) {
      SameShapeRedundant(a[1..], b[1..]);
    }
  }

  lemma SameShapeKept(a: string, b: string, inStr: bool)
    requires SameShape(a, b)
    ensures Kept(a, inStr) == Kept(b, inStr)
  {
    SameShapeMask(a, b, inStr);
    forall i | 0 <= i < |a|
      ensures Kept(a, inStr)[i] == Kept(b, inStr)[i]
    {
      SameShapeRedundant(a[i + 1..], b[i + 1..]);
    }
  }

  /** The word replacements change neither the string state nor the choice of commas to delete. */
  lemma FixWordsKeepsScan(s: string)
    ensures |FixWords(s)| == |s|
    ensures StringMask(FixWords(s), false) == StringMask(s, false)
    ensures Kept(FixWords(s), false) == Kept(s, false)
  {
    var t := FixWords(s);
    FixWordsSameShape(s);
    SameShapeMask(s, t, false);
    SameShapeKept(s, t, false);
  }

  // ----- fixJSON ------------------------------------------------------------------------------

  function FixText(s: string): string {
    DropCommas(FixWords(Requote(s, Outside)), false)
  }

  /** `valid` stands for `json.Valid`. */
  method FixJSON(s: string, valid: string -> bool) returns (r: string)
    ensures r == if valid(s) then s else FixText(s)
  {
    if valid(s) {
      return s;
    }
    var result := RewriteQuotes(s);
    result := ReplaceAll(result, ": True", ": true");
    result := ReplaceAll(result, ": False", ": false");
    result := ReplaceAll(result, ": None", ": null");
    r := RemoveTrailingCommas(result);
  }

  lemma {:induction false} SelectSameShape(a: string, b: string, keep: seq<bool>)
    requires SameShape(a, b) && |keep| == |a|
    ensures SameShape(Select(a, keep), Select(b, keep))
  {
    if a != "" {
      SelectSameShape(a[1..], b[1..], keep[1..]);
    }
  }

  /** Whatever the rewrite loop emitted inside quotes of either kind is still inside the strings of the
      final text: only inert bytes of it can have changed, so in particular no comma is lost. */
  lemma {:induction false} FixTextKeepsQuoted(s: string)
    ensures SameShape(Select(Requote(s, Outside), RequoteMask(s, Outside)),
                      Select(FixText(s), StringMask(FixText(s), false)))
  {
    var r := Requote(s, Outside);
    ScannersAgree(s, Outside);
    FixWordsKeepsScan(r);
    FixWordsSameShape(r);
    StringsUntouched(FixWords(r), false);
    SelectSameShape(r, FixWords(r), RequoteMask(s, Outside));
  }
}
