/** `extractJSONObjects` of pkg/llm/client.go: brace matching over arbitrary text. */
module JsonObjects {
  import opened Strings
  import opened JsonScanners
  import opened JsonTrees

  datatype Found = Absent | At(end: nat)

  function Shift(f: Found, n: nat): Found {
    match f case Absent => Absent case At(end) => At(end + n)
  }

  /** The inner loop from a given state: the length up to and including the brace that brings `depth` to 0. */
  function CloseAt(s: string, depth: int, inStr: bool): (f: Found)
    ensures f.At? ==> 0 < f.end <= |s|
    decreases |s|
  {
    if s == "" then Absent
    else if s[0] == '\\' && inStr then
      if |s| == 1 then Absent else Shift(CloseAt(s[2..], depth, inStr), 2)
    else if s[0] == '"' then Shift(CloseAt(s[1..], depth, !inStr), 1)
    else if inStr then Shift(CloseAt(s[1..], depth, inStr), 1)
    else if s[0] == '{' then Shift(CloseAt(s[1..], depth + 1, inStr), 1)
    else if s[0] == '}' && depth == 1 then At(1)
    else Shift(CloseAt(s[1..], if s[0] == '}' then depth - 1 else depth, inStr), 1)
  }

  datatype Span = Span(start: nat, end: nat)

  predicate SpanIn(span: Span, s: string) {
    span.start < span.end <= |s|
  }

  /** The candidates found from position `i` on. */
  function Spans(s: string, i: nat): (spans: seq<Span>)
    requires i <= |s|
    ensures forall k | 0 <= k < |spans| :: SpanIn(spans[k], s)
    decreases |s| - i
  {
    if i == |s| then []
    else if s[i] != '{' then Spans(s, i + 1)
    else match CloseAt(s[i..], 0, false)
      case At(n) => [Span(i, i + n)] + Spans(s, i + n)
      case Absent => Spans(s, i + 1)
  }

  datatype Decoded<T> = Invalid | Object(value: T)

  function Prepended<T>(d: Decoded<T>, rest: seq<T>): seq<T> {
    match d case Object(v) => [v] + rest case Invalid => rest
  }

  /** The candidates the decoder accepts, in order. `decode` stands for `json.Unmarshal` into a map. */
  function DecodeSpans<T>(s: string, spans: seq<Span>, decode: string -> Decoded<T>): seq<T>
    requires forall k | 0 <= k < |spans| :: SpanIn(spans[k], s)
  {
    if spans == [] then []
    else
      assert SpanIn(spans[0], s);
      var rest := DecodeSpans(s, spans[1..], decode);
      Prepended(decode(s[spans[0].start..spans[0].end]), rest)
  }

  /** Every candidate contributes what it decodes to, or nothing, whatever the others do. */
  lemma {:induction false} EachContributes<T>(s: string, a: seq<Span>, b: seq<Span>, span: Span,
                                              decode: string -> Decoded<T>)
    requires forall k | 0 <= k < |a| :: SpanIn(a[k], s)
    requires forall k | 0 <= k < |b| :: SpanIn(b[k], s)
    requires SpanIn(span, s)
    ensures forall k | 0 <= k < |a + [span] + b| :: SpanIn((a + [span] + b)[k], s)
    ensures DecodeSpans(s, a + [span] + b, decode)
         == DecodeSpans(s, a, decode)
            + (match decode(s[span.start..span.end]) case Object(v) => [v] case Invalid => [])
            + DecodeSpans(s, b, decode)
    decreases |a|
  {
    var all := a + [span] + b;
    if a == [] {
      assert all[1..] == b;
    } else {
      assert all[1..] == a[1..] + [span] + b;
      EachContributes(s, a[1..], b, span, decode);
    }
  }

  /** What the candidates from position `i` on contribute. */
  function Results<T>(s: string, i: nat, decode: string -> Decoded<T>): seq<T>
    requires i <= |s|
  {
    DecodeSpans(s, Spans(s, i), decode)
  }

  /** One step of the outer loop. */
  lemma ResultsOnce<T>(s: string, i: nat, decode: string -> Decoded<T>)
    requires i < |s|
    ensures var found := CloseAt(s[i..], 0, false);
            Results(s, i, decode) ==
            if s[i] != '{' || found.Absent? then Results(s, i + 1, decode)
            else Prepended(decode(s[i..i + found.end]), Results(s, i + found.end, decode))
  {
    var found := CloseAt(s[i..], 0, false);
    if s[i] == '{' && found.At? {
      var spans := Spans(s, i);
      assert spans[0] == Span(i, i + found.end) && spans[1..] == Spans(s, i + found.end);
    }
  }

  /** What is collected in the end, with `acc` collected before position `i`. */
  function Collected<T>(acc: seq<T>, s: string, i: nat, decode: string -> Decoded<T>): seq<T>
    requires i <= |s|
  {
    acc + Results(s, i, decode)
  }

  lemma CollectStep<T>(acc: seq<T>, s: string, i: nat, found: Found, decode: string -> Decoded<T>)
    requires i < |s| && found == CloseAt(s[i..], 0, false)
    ensures s[i] != '{' || found.Absent? ==> Collected(acc, s, i, decode) == Collected(acc, s, i + 1, decode)
    ensures s[i] == '{' && found.At? && decode(s[i..i + found.end]).Invalid? ==>
              Collected(acc, s, i, decode) == Collected(acc, s, i + found.end, decode)
    ensures s[i] == '{' && found.At? && decode(s[i..i + found.end]).Object? ==>
              Collected(acc, s, i, decode)
              == Collected(acc + [decode(s[i..i + found.end]).value], s, i + found.end, decode)
  {
    ResultsOnce(s, i, decode);
    if s[i] == '{' && found.At? {
      var rest := Results(s, i + found.end, decode);
      match decode(s[i..i + found.end])
      case Object(v) => assert acc + [v] + rest == acc + ([v] + rest);
      case Invalid =>
    }
  }

  /** What the inner loop that started at `i` is still going to find, `j` being its index. */
  function Pending(s: string, i: nat, j: nat, depth: int, inStr: bool): Found
    requires i <= j <= |s| + 1
  {
    if j > |s| then Absent else Shift(CloseAt(s[j..], depth, inStr), j - i)
  }

  lemma PendingStep(s: string, i: nat, j: nat, depth: int, inStr: bool)
    requires i <= j < |s|
    ensures inStr && s[j] == '\\' ==> Pending(s, i, j, depth, inStr) == Pending(s, i, j + 2, depth, inStr)
    ensures inStr && s[j] != '\\' && s[j] != '"' ==>
              Pending(s, i, j, depth, inStr) == Pending(s, i, j + 1, depth, inStr)
    ensures s[j] == '"' ==> Pending(s, i, j, depth, inStr) == Pending(s, i, j + 1, depth, !inStr)
    ensures !inStr && s[j] == '{' ==> Pending(s, i, j, depth, inStr) == Pending(s, i, j + 1, depth + 1, inStr)
    ensures !inStr && s[j] == '}' && depth == 1 ==> Pending(s, i, j, depth, inStr) == At(j + 1 - i)
    ensures !inStr && s[j] == '}' && depth != 1 ==>
              Pending(s, i, j, depth, inStr) == Pending(s, i, j + 1, depth - 1, inStr)
    ensures !inStr && s[j] !in "\"{}" ==> Pending(s, i, j, depth, inStr) == Pending(s, i, j + 1, depth, inStr)
  {
    assert s[j..][1..] == s[j + 1..];
    if j + 1 < |s| {
      assert s[j..][2..] == s[j + 2..];
    }
  }

  /** The inner loop, from an opening brace at `i`. */
  method MatchBrace(s: string, i: nat) returns (found: Found)
    requires i < |s| && s[i] == '{'
    ensures found == CloseAt(s[i..], 0, false)
  {
    ghost var goal := CloseAt(s[i..], 0, false);
    var depth, inStr := 0, false;
    var j := i;
    while j < |s|
      invariant i <= j <= |s| + 1
      invariant goal == Pending(s, i, j, depth, inStr)
      decreases |s| - j
    {
      PendingStep(s, i, j, depth, inStr);
      var ch := s[j];
      if ch == '\\' && inStr {
        j := j + 2;
        continue;
      }
      if ch == '"' {
        inStr := !inStr;
        j := j + 1;
        continue;
      }
      if inStr {
        j := j + 1;
        continue;
      }
      if ch == '{' {
        depth := depth + 1;
      } else if ch == '}' {
        depth := depth - 1;
        if depth == 0 {
          return At(j + 1 - i);
        }
      }
      j := j + 1;
    }
    return Absent;
  }

  /** The outer loop; a match moves its index to the closing brace. */
  method ExtractJSONObjects<T>(s: string, decode: string -> Decoded<T>) returns (results: seq<T>)
    ensures results == DecodeSpans(s, Spans(s, 0), decode)
  {
    results := [];
    ghost var goal := Results(s, 0, decode);
    assert [] + goal == goal;
    var i := 0;
    while i < |s|
      invariant 0 <= i <= |s|
      invariant goal == Collected(results, s, i, decode)
    {
      CollectStep(results, s, i, CloseAt(s[i..], 0, false), decode);
      if s[i] != '{' {
        i := i + 1;
        continue;
      }
      var found := MatchBrace(s, i);
      if found.At? {
        var j := i + found.end - 1;
        var candidate := s[i..j + 1];
        match decode(candidate) {
          case Object(obj) => results := results + [obj];
          case Invalid =>
        }
        i := j;
      }
      i := i + 1;
    }
  }

  // ----- Which candidates are found in arbitrary text -----------------------------------------

  function Weight(c: char, inStr: bool): int {
    if inStr then 0 else if c == '{' then 1 else if c == '}' then -1 else 0
  }

  /** Opening minus closing braces outside strings among the first `k` bytes. */
  function Net(s: string, mask: seq<bool>, k: nat): int
    requires k <= |s| == |mask|
  {
    if k == 0 then 0 else Weight(s[0], mask[0]) + Net(s[1..], mask[1..], k - 1)
  }

  /** The first `n` bytes bring `depth` to 0, and no fewer do. */
  predicate Closes(s: string, inStr: bool, depth: int, n: nat) {
    && 0 < n <= |s|
    && depth + Net(s, StringMask(s, inStr), n) == 0
    && StaysOpen(s, inStr, depth, n - 1)
  }

  predicate StaysOpen(s: string, inStr: bool, depth: int, n: nat)
    requires n <= |s|
  {
    forall k | 0 < k <= n :: depth + Net(s, StringMask(s, inStr), k) > 0
  }

  lemma {:induction false} NetSplit(s: string, mask: seq<bool>, n: nat, k: nat)
    requires n <= k <= |s| == |mask|
    ensures Net(s, mask, k) == Net(s, mask, n) + Net(s[n..], mask[n..], k - n)
  {
    if n > 0 {
      NetSplit(s[1..], mask[1..], n - 1, k - 1);
      assert s[1..][n - 1..] == s[n..] && mask[1..][n - 1..] == mask[n..];
    } else {
      assert s[0..] == s && mask[0..] == mask;
    }
  }

  /** What is known of the rest after `n` bytes, said of the whole. */
  lemma ClosesTail(s: string, inStr: bool, depth: int, n: nat, inStr': bool)
    requires n <= |s|
    requires StringMask(s, inStr)[n..] == StringMask(s[n..], inStr')
    requires StaysOpen(s, inStr, depth, n)
    ensures var depth' := depth + Net(s, StringMask(s, inStr), n);
            && (forall m: nat | Closes(s[n..], inStr', depth', m) :: Closes(s, inStr, depth, m + n))
            && (StaysOpen(s[n..], inStr', depth', |s| - n) ==> StaysOpen(s, inStr, depth, |s|))
  {
    var mask := StringMask(s, inStr);
    var depth' := depth + Net(s, mask, n);
    forall k | n <= k <= |s|
      ensures Net(s, mask, k) == Net(s, mask, n) + Net(s[n..], mask[n..], k - n)
    {
      NetSplit(s, mask, n, k);
    }
    forall m: nat | Closes(s[n..], inStr', depth', m)
      ensures Closes(s, inStr, depth, m + n)
    {
      forall k | 0 < k <= m + n - 1
        ensures depth + Net(s, mask, k) > 0
      {
        if k > n {
          assert depth' + Net(s[n..], StringMask(s[n..], inStr'), k - n) > 0;
        }
      }
    }
    if StaysOpen(s[n..], inStr', depth', |s| - n) {
      forall k | 0 < k <= |s|
        ensures depth + Net(s, mask, k) > 0
      {
        if k > n {
          assert depth' + Net(s[n..], StringMask(s[n..], inStr'), k - n) > 0;
        }
      }
    }
  }

  predicate Exact(s: string, depth: int, inStr: bool) {
    match CloseAt(s, depth, inStr)
    case At(n) => Closes(s, inStr, depth, n)
    case Absent => StaysOpen(s, inStr, depth, |s|)
  }

  lemma ExactEscape(s: string, depth: int)
    requires |s| > 1 && s[0] == '\\' && depth >= 1 && Exact(s[2..], depth, true)
    ensures Exact(s, depth, true)
  {
    NetTwo(s, true);
    ClosesTail(s, true, depth, 2, true);
  }

  lemma ExactByte(s: string, depth: int, inStr: bool)
    requires s != "" && !(s[0] == '\\' && inStr && |s| > 1)
    requires depth >= 1 || (depth == 0 && !inStr && s[0] == '{')
    requires var depth' := depth + Weight(s[0], inStr);
             depth' > 0 ==> Exact(s[1..], depth', if s[0] == '"' then !inStr else inStr)
    ensures Exact(s, depth, inStr)
  {
    var inStr' := if s[0] == '"' then !inStr else inStr;
    assert Net(s, StringMask(s, inStr), 1) == Weight(s[0], inStr);
    if depth + Weight(s[0], inStr) > 0 {
      ClosesTail(s, inStr, depth, 1, inStr');
    }
  }

  /** The inner loop finds the first closing brace that balances, and fails only if none does. */
  lemma {:induction false} CloseAtExact(s: string, depth: int, inStr: bool)
    requires depth >= 1 || (depth == 0 && !inStr && s != "" && s[0] == '{')
    ensures Exact(s, depth, inStr)
    decreases |s|
  {
    if s == "" {
    } else if s[0] == '\\' && inStr && |s| > 1 {
      CloseAtExact(s[2..], depth, true);
      ExactEscape(s, depth);
    } else {
      var depth' := depth + Weight(s[0], inStr);
      if depth' > 0 {
        CloseAtExact(s[1..], depth', if s[0] == '"' then !inStr else inStr);
      }
      ExactByte(s, depth, inStr);
    }
  }

  lemma NetTwo(s: string, inStr: bool)
    requires |s| > 1 && inStr && s[0] == '\\'
    ensures Net(s, StringMask(s, inStr), 1) == 0 && Net(s, StringMask(s, inStr), 2) == 0
  {
    var mask := StringMask(s, inStr);
    assert mask[0] && mask[1];
    assert Net(s, mask, 2) == Weight(s[0], true) + Net(s[1..], mask[1..], 1);
    assert Net(s[1..], mask[1..], 1) == Weight(s[1], true) + Net(s[1..][1..], mask[1..][1..], 0);
  }

  /** `s[start..end]` is a brace-balanced piece of text, string literals being read from its first byte. */
  predicate Balanced(s: string, start: nat, end: nat) {
    start < end <= |s| && s[start] == '{' && Closes(s[start..], false, 0, end - start)
  }

  predicate Covered(spans: seq<Span>, p: nat) {
    exists k | 0 <= k < |spans| :: spans[k].start <= p < spans[k].end
  }

  predicate Increasing(spans: seq<Span>, from: nat) {
    && (spans != [] ==> from <= spans[0].start)
    && forall k | 0 < k < |spans| :: spans[k - 1].end <= spans[k].start
  }

  lemma {:induction false} SpansIncrease(s: string, i: nat)
    requires i <= |s|
    ensures Increasing(Spans(s, i), i)
    decreases |s| - i
  {
    if i < |s| {
      var found := CloseAt(s[i..], 0, false);
      SpansIncrease(s, if s[i] == '{' && found.At? then i + found.end else i + 1);
    }
  }

  /** What one opening brace contributes, seen as a fact about balance. */
  lemma BraceDecides(s: string, i: nat)
    requires i < |s| && s[i] == '{'
    ensures match CloseAt(s[i..], 0, false)
            case At(n) => Balanced(s, i, i + n)
            case Absent => forall end: nat :: !Balanced(s, i, end)
  {
    CloseAtExact(s[i..], 0, false);
  }

  lemma {:induction false} SpansBalanced(s: string, i: nat, k: nat)
    requires i <= |s| && k < |Spans(s, i)|
    ensures Balanced(s, Spans(s, i)[k].start, Spans(s, i)[k].end)
    decreases |s| - i
  {
    if s[i] != '{' {
      SpansBalanced(s, i + 1, k);
    } else {
      BraceDecides(s, i);
      match CloseAt(s[i..], 0, false)
      case At(n) =>
        if k > 0 {
          SpansBalanced(s, i + n, k - 1);
        }
      case Absent => SpansBalanced(s, i + 1, k);
    }
  }

  lemma CoveredCons(span: Span, rest: seq<Span>, p: nat)
    ensures Covered([span] + rest, p) <==> span.start <= p < span.end || Covered(rest, p)
  {
    var all := [span] + rest;
    if k :| 0 <= k < |rest| && rest[k].start <= p < rest[k].end {
      assert all[k + 1] == rest[k];
    }
    if span.start <= p < span.end {
      assert all[0] == span;
    }
  }

  lemma UncoveredAfter(s: string, i: nat, n: nat, p: nat)
    requires i <= p && i < |s| && s[i] == '{' && CloseAt(s[i..], 0, false) == At(n) && !Covered(Spans(s, i), p)
    ensures i + n <= |s| && i + n <= p && !Covered(Spans(s, i + n), p)
  {
    CoveredCons(Span(i, i + n), Spans(s, i + n), p);
  }

  lemma {:induction false} UncoveredUnbalanced(s: string, i: nat, p: nat, end: nat)
    requires i <= p < |s| && !Covered(Spans(s, i), p)
    ensures !Balanced(s, p, end)
    decreases |s| - i
  {
    if s[i] != '{' {
      if p > i {
        UncoveredUnbalanced(s, i + 1, p, end);
      }
    } else {
      match CloseAt(s[i..], 0, false)
      case At(n) =>
        UncoveredAfter(s, i, n, p);
        UncoveredUnbalanced(s, i + n, p, end);
      case Absent =>
        BraceDecides(s, i);
        if p > i {
          UncoveredUnbalanced(s, i + 1, p, end);
        }
    }
  }

  /** Arbitrary text: the candidates are balanced, disjoint and in order, and an opening brace outside all
      of them has no balancing brace anywhere to its right. */
  lemma SpansExact(s: string)
    ensures Increasing(Spans(s, 0), 0)
    ensures forall k | 0 <= k < |Spans(s, 0)| :: Balanced(s, Spans(s, 0)[k].start, Spans(s, 0)[k].end)
    ensures forall p: nat, end: nat | p < |s| && !Covered(Spans(s, 0), p) :: !Balanced(s, p, end)
  {
    SpansIncrease(s, 0);
    forall k | 0 <= k < |Spans(s, 0)|
      ensures Balanced(s, Spans(s, 0)[k].start, Spans(s, 0)[k].end)
    {
      SpansBalanced(s, 0, k);
    }
    forall p: nat, end: nat | p < |s| && !Covered(Spans(s, 0), p)
      ensures !Balanced(s, p, end)
    {
      UncoveredUnbalanced(s, 0, p, end);
    }
  }

  // ----- Printed objects between arbitrary filler ---------------------------------------------

  /** Scanning `s`, which ends in `tail`, comes down to scanning `tail` at the same depth. */
  predicate Passes(s: string, tail: string, depth: int) {
    |s| >= |tail| && CloseAt(s, depth, false) == Shift(CloseAt(tail, depth, false), |s| - |tail|)
  }

  /** Bytes that are neither quotes nor braces change nothing. */
  lemma {:induction false} ClosePlain(a: string, tail: string, depth: int)
    requires forall i | 0 <= i < |a| :: a[i] !in "\"{}"
    ensures Passes(a + tail, tail, depth)
  {
    if a == "" {
      assert a + tail == tail;
    } else {
      assert (a + tail)[1..] == a[1..] + tail;
      ClosePlain(a[1..], tail, depth);
    }
  }

  lemma {:induction false} CloseInside(body: string, tail: string, depth: int)
    requires BodyOk(body, '"')
    ensures CloseAt(body + ("\"" + tail), depth, true) == Shift(CloseAt(tail, depth, false), |body| + 1)
    decreases |body|
  {
    var s := body + ("\"" + tail);
    if body == "" {
      assert s[1..] == tail;
    } else if body[0] == '\\' {
      assert s[2..] == body[2..] + ("\"" + tail);
      CloseInside(body[2..], tail, depth);
    } else {
      assert s[1..] == body[1..] + ("\"" + tail);
      CloseInside(body[1..], tail, depth);
    }
  }

  lemma CloseQuoted(body: string, tail: string, depth: int)
    requires BodyOk(body, '"')
    ensures Passes(QuotedTo(false, body, tail), tail, depth)
  {
    CloseInside(body, tail, depth);
    assert QuotedTo(false, body, tail)[1..] == body + ("\"" + tail);
  }

  lemma {:induction false} CloseCommas(commas: seq<string>, tail: string, depth: int)
    requires forall i | 0 <= i < |commas| :: AllSpace(commas[i])
    ensures Passes(CommasTo(commas, tail), tail, depth)
  {
    if commas != [] {
      var more := CommasTo(commas[1..], tail);
      CloseCommas(commas[1..], tail, depth);
      ClosePlain(commas[0], more, depth);
      ClosePlain(",", commas[0] + more, depth);
    }
  }

  lemma CloseGap(gap: Gap, tail: string, depth: int)
    requires GapOk(gap)
    ensures Passes(GapTo(gap, tail), tail, depth)
  {
    CloseCommas(gap.commas, tail, depth);
    ClosePlain(gap.lead, CommasTo(gap.commas, tail), depth);
  }

  lemma CloseKey(key: Key, tail: string, depth: int)
    requires KeyOk(key) && (key.Key? ==> !key.single)
    ensures Passes(KeyTo(key, tail), tail, depth)
  {
    if key.Key? {
      var colon := ":" + (key.after + tail);
      ClosePlain(key.after, tail, depth);
      ClosePlain(":", key.after + tail, depth);
      ClosePlain(key.before, colon, depth);
      CloseQuoted(key.name, key.before + colon, depth);
    }
  }

  /** A printed value is passed over, whatever braces its strings hold. */
  lemma {:induction false} ClosePrint(t: Json, tail: string, depth: int)
    requires WellFormed(t) && DoubleQuoted(t) && depth >= 1
    ensures Passes(PrintTo(t, tail), tail, depth)
    decreases t
  {
    match t
    case Number(n) =>
      NumChars(n);
      ClosePlain(PrintNum(n), tail, depth);
    case Lit(w, python) =>
      ClosePlain(if python then PythonText(w) else JsonText(w), tail, depth);
    case Text(_, body) =>
      CloseQuoted(body, tail, depth);
    case Node(kind, items) =>
      var inner := ItemsTo(items, kind, tail);
      CloseItems(items, kind, tail, if kind == Kind.Object then depth + 1 else depth);
      assert PrintTo(t, tail)[1..] == inner;
  }

  /** Scanning a container's inside: its bracket closes an object opened at depth 1. */
  predicate PassesBracket(s: string, kind: Kind, tail: string, depth: int) {
    if kind == Kind.Array then Passes(s, tail, depth)
    else
      |s| >= |tail| && CloseAt(s, depth, false) ==
                       if depth == 1 then At(|s| - |tail|) else Shift(CloseAt(tail, depth - 1, false), |s| - |tail|)
  }

  lemma PassesThenBracket(s: string, middle: string, kind: Kind, tail: string, depth: int)
    requires Passes(s, middle, depth) && PassesBracket(middle, kind, tail, depth)
    ensures PassesBracket(s, kind, tail, depth)
  {}

  lemma {:induction false} CloseItems(items: Items, kind: Kind, tail: string, depth: int)
    requires ItemsOk(items) && ItemsDoubleQuoted(items) && depth >= 1
    ensures PassesBracket(ItemsTo(items, kind, tail), kind, tail, depth)
    decreases items
  {
    match items
    case Close(gap) =>
      var s := [CloseChar(kind)] + tail;
      assert s[1..] == tail;
      assert PassesBracket(s, kind, tail, depth);
      CloseGap(gap, s, depth);
      PassesThenBracket(GapTo(gap, s), s, kind, tail, depth);
    case Item(gap, key, value, rest) =>
      var s1 := ItemsTo(rest, kind, tail);
      var s2 := PrintTo(value, s1);
      var s3 := KeyTo(key, s2);
      CloseItems(rest, kind, tail, depth);
      ClosePrint(value, s1, depth);
      CloseKey(key, s2, depth);
      CloseGap(gap, s3, depth);
      PassesThenBracket(s2, s1, kind, tail, depth);
      PassesThenBracket(s3, s2, kind, tail, depth);
      PassesThenBracket(GapTo(gap, s3), s3, kind, tail, depth);
  }

  /** Printing before a tail is printing, then the tail. */
  lemma {:induction false} PrintAppend(t: Json, tail: string)
    ensures PrintTo(t, tail) == Print(t) + tail
    decreases t
  {
    if t.Node? {
      ItemsAppend(t.items, t.kind, tail);
    }
  }

  lemma {:induction false} ItemsAppend(items: Items, kind: Kind, tail: string)
    ensures ItemsTo(items, kind, tail) == ItemsTo(items, kind, "") + tail
    decreases items
  {
    match items
    case Close(gap) =>
      var c := [CloseChar(kind)];
      assert c + "" == c;
      GapAppend(gap, c, tail);
    case Item(gap, key, value, rest) =>
      var r := ItemsTo(rest, kind, "");
      ItemsAppend(rest, kind, tail);
      PrintAppend(value, r);
      PrintAppend(value, r + tail);
      Assoc(Print(value), r, tail);
      var v := PrintTo(value, r);
      KeyAppend(key, v, tail);
      GapAppend(gap, KeyTo(key, v), tail);
  }

  lemma QuotedAppend(single: bool, body: string, a: string, b: string)
    ensures QuotedTo(single, body, a + b) == QuotedTo(single, body, a) + b
  {
    var q := [QuoteChar(single)];
    Assoc(q, a, b);
    Assoc(body, q + a, b);
    Assoc(q, body + (q + a), b);
  }

  lemma KeyAppend(key: Key, a: string, b: string)
    ensures KeyTo(key, a + b) == KeyTo(key, a) + b
  {
    if key.Key? {
      Assoc(key.after, a, b);
      Assoc(":", key.after + a, b);
      Assoc(key.before, ":" + (key.after + a), b);
      QuotedAppend(key.single, key.name, key.before + (":" + (key.after + a)), b);
    }
  }

  lemma {:induction false} CommasAppend(commas: seq<string>, a: string, b: string)
    ensures CommasTo(commas, a + b) == CommasTo(commas, a) + b
  {
    if commas != [] {
      CommasAppend(commas[1..], a, b);
      Assoc(commas[0], CommasTo(commas[1..], a), b);
      Assoc(",", commas[0] + CommasTo(commas[1..], a), b);
    }
  }

  lemma GapAppend(gap: Gap, a: string, b: string)
    ensures GapTo(gap, a + b) == GapTo(gap, a) + b
  {
    CommasAppend(gap.commas, a, b);
    Assoc(gap.lead, CommasTo(gap.commas, a), b);
  }

  /** The text of some well-formed object whose strings are all double-quoted. */
  ghost predicate PrintedObject(text: string) {
    exists members :: ItemsOk(members) && ItemsDoubleQuoted(members) && text == Print(Node(Kind.Object, members))
  }

  /** Objects with filler before, between and after them. */
  datatype Mixed = Rest(filler: string) | Chunk(filler: string, text: string, rest: Mixed)

  ghost predicate MixedOk(m: Mixed) {
    '{' !in m.filler && (m.Chunk? ==> PrintedObject(m.text) && MixedOk(m.rest))
  }

  function MixedText(m: Mixed): string {
    match m
    case Rest(filler) => filler
    case Chunk(filler, text, rest) => filler + (text + MixedText(rest))
  }

  function DecodeObjects<T>(m: Mixed, decode: string -> Decoded<T>): seq<T> {
    match m
    case Rest(_) => []
    case Chunk(_, text, rest) =>
      Prepended(decode(text), DecodeObjects(rest, decode))
  }

  /** What the candidates contribute from position `i` on, given what they contribute from later ones on. */
  predicate StepsAt<T(==)>(s: string, i: nat, from: nat -> seq<T>, decode: string -> Decoded<T>)
    requires i < |s|
  {
    var found := CloseAt(s[i..], 0, false);
    from(i) == if s[i] != '{' || found.Absent? then from(i + 1)
               else Prepended(decode(s[i..i + found.end]), from(i + found.end))
  }

  ghost predicate Steps<T>(s: string, from: nat -> seq<T>, decode: string -> Decoded<T>) {
    from(|s|) == [] && forall i: nat | i < |s| :: StepsAt(s, i, from, decode)
  }

  function ResultsFrom<T>(s: string, decode: string -> Decoded<T>): nat -> seq<T> {
    (i: nat) => if i <= |s| then Results(s, i, decode) else []
  }

  lemma ResultsSteps<T>(s: string, decode: string -> Decoded<T>)
    ensures Steps(s, ResultsFrom(s, decode), decode)
  {
    forall i: nat | i < |s|
      ensures StepsAt(s, i, ResultsFrom(s, decode), decode)
    {
      ResultsOnce(s, i, decode);
    }
  }

  lemma {:induction false} SkipFiller<T>(s: string, i: nat, n: nat, from: nat -> seq<T>, decode: string -> Decoded<T>)
    requires Steps(s, from, decode) && i + n <= |s| && '{' !in s[i..i + n]
    ensures from(i) == from(i + n)
    decreases n
  {
    if n > 0 {
      assert StepsAt(s, i, from, decode);
      assert s[i..i + n][0] == s[i];
      assert s[i..i + n][1..] == s[i + 1..i + 1 + (n - 1)];
      SkipFiller(s, i + 1, n - 1, from, decode);
    }
  }

  lemma CutFiller(s: string, i: nat, filler: string, tail: string)
    requires i <= |s| && s[i..] == filler + tail
    ensures i + |filler| <= |s| && s[i..i + |filler|] == filler && s[i + |filler|..] == tail
  {
    var n := |filler|;
    assert s[i..i + n] == s[i..][..n];
    assert s[i + n..] == s[i..][n..];
  }

  /** The brace that opens `text` is closed by its last byte. */
  predicate ClosesBefore(text: string, tail: string) {
    text != "" && text[0] == '{' && CloseAt(text + tail, 0, false) == At(|text|)
  }

  lemma ObjectHere<T>(s: string, i: nat, text: string, tail: string, from: nat -> seq<T>,
                      decode: string -> Decoded<T>)
    requires Steps(s, from, decode) && i <= |s| && ClosesBefore(text, tail) && s[i..] == text + tail
    ensures i + |text| <= |s| && s[i + |text|..] == tail
    ensures from(i) == Prepended(decode(text), from(i + |text|))
  {
    CutFiller(s, i, text, tail);
    assert s[i] == s[i..][0];
    assert StepsAt(s, i, from, decode);
  }

  lemma ObjectFound(text: string, tail: string)
    requires PrintedObject(text)
    ensures ClosesBefore(text, tail)
  {
    var members :| ItemsOk(members) && ItemsDoubleQuoted(members) && text == Print(Node(Kind.Object, members));
    var t := Node(Kind.Object, members);
    PrintAppend(t, tail);
    CloseItems(members, Kind.Object, tail, 1);
    assert PrintTo(t, tail)[1..] == ItemsTo(members, Kind.Object, tail);
  }

  lemma {:induction false} MixedFrom<T>(s: string, i: nat, m: Mixed, from: nat -> seq<T>,
                                        decode: string -> Decoded<T>)
    requires Steps(s, from, decode) && i <= |s| && MixedOk(m) && s[i..] == MixedText(m)
    ensures from(i) == DecodeObjects(m, decode)
    decreases m
  {
    match m
    case Rest(filler) =>
      assert s[i..i + |filler|] == s[i..];
      SkipFiller(s, i, |filler|, from, decode);
    case Chunk(filler, text, rest) =>
      var k := i + |filler|;
      CutFiller(s, i, filler, text + MixedText(rest));
      SkipFiller(s, i, |filler|, from, decode);
      ObjectFound(text, MixedText(rest));
      ObjectHere(s, k, text, MixedText(rest), from, decode);
      MixedFrom(s, k + |text|, rest, from, decode);
  }

  /** Main result: objects printed between pieces of filler free of `{` are found exactly, in order. */
  lemma PrintedObjectsFound<T>(m: Mixed, decode: string -> Decoded<T>)
    requires MixedOk(m)
    ensures DecodeSpans(MixedText(m), Spans(MixedText(m), 0), decode) == DecodeObjects(m, decode)
  {
    var s := MixedText(m);
    var from := ResultsFrom(s, decode);
    ResultsSteps(s, decode);
    assert s[0..] == s;
    MixedFrom(s, 0, m, from, decode);
  }
}
