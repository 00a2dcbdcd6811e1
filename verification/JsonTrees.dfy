/** JSON texts as an LLM writes them (pkg/llm/client.go:626-712), as trees that record their own layout:
    white space, the quotes of every string, Python words, and any number of commas in every gap. */
module JsonTrees {
  import opened Strings
  import opened JsonScanners

  // ----- Trees and their print ----------------------------------------------------------------

  datatype Json =
    | Number(num: Num)
    | Lit(word: Word, python: bool)
    | Text(single: bool, body: string)
    | Node(kind: Kind, items: Items)

  datatype Kind = Array | Object

  /** The inside of a container: each item with the gap before it, then the gap before the bracket. */
  datatype Items =
    | Close(gap: Gap)
    | Item(gap: Gap, key: Key, value: Json, rest: Items)

  datatype Key = NoKey | Key(single: bool, name: string, before: string, after: string)

  /** White space, then any number of commas, each followed by white space. */
  datatype Gap = Gap(lead: string, commas: seq<string>)

  /** RFC 8259, section 6; an empty `frac` or `exp` is an absent one, `exp` starts with its letter. */
  datatype Num = Num(minus: bool, whole: string, frac: string, exp: string)

  function QuoteChar(single: bool): char {
    if single then '\'' else '"'
  }

  function OpenChar(kind: Kind): char {
    if kind == Array then '[' else '{'
  }

  function CloseChar(kind: Kind): char {
    if kind == Array then ']' else '}'
  }

  function PrintNum(n: Num): string {
    (if n.minus then "-" else "") + n.whole + (if n.frac == "" then "" else "." + n.frac) + n.exp
  }

  /** The text of the tree followed by `tail`. */
  function PrintTo(t: Json, tail: string): string {
    match t
    case Number(n) => PrintNum(n) + tail
    case Lit(w, python) => (if python then PythonText(w) else JsonText(w)) + tail
    case Text(single, body) => QuotedTo(single, body, tail)
    case Node(kind, items) => [OpenChar(kind)] + ItemsTo(items, kind, tail)
  }

  function ItemsTo(items: Items, kind: Kind, tail: string): string {
    match items
    case Close(gap) => GapTo(gap, [CloseChar(kind)] + tail)
    case Item(gap, key, value, rest) =>
      GapTo(gap, KeyTo(key, PrintTo(value, ItemsTo(rest, kind, tail))))
  }

  function QuotedTo(single: bool, body: string, tail: string): string {
    [QuoteChar(single)] + (body + ([QuoteChar(single)] + tail))
  }

  function KeyTo(key: Key, tail: string): string {
    match key
    case NoKey => tail
    case Key(single, name, before, after) => QuotedTo(single, name, before + (":" + (after + tail)))
  }

  function GapTo(gap: Gap, tail: string): string {
    gap.lead + CommasTo(gap.commas, tail)
  }

  function CommasTo(commas: seq<string>, tail: string): string {
    if commas == [] then tail else "," + (commas[0] + CommasTo(commas[1..], tail))
  }

  function Print(t: Json): string {
    PrintTo(t, "")
  }

  // ----- The trees in scope -------------------------------------------------------------------

  predicate AllSpace(s: string) {
    forall i | 0 <= i < |s| :: IsSpace(s[i])
  }

  predicate Digits(s: string) {
    s != "" && forall i | 0 <= i < |s| :: '0' <= s[i] <= '9'
  }

  predicate NumOk(n: Num) {
    && (n.whole == "0" || (Digits(n.whole) && n.whole[0] != '0'))
    && (n.frac == "" || Digits(n.frac))
    && (n.exp == "" || (n.exp[0] in "eE" && |n.exp| > 1 &&
                        Digits(if n.exp[1] in "+-" then n.exp[2..] else n.exp[1..])))
  }

  /** The bytes a string literal with this quote can hold: no bare quote, no bare final backslash. */
  predicate BodyOk(body: string, quote: char)
    decreases |body|
  {
    body == "" ||
    if body[0] == '\\' then |body| > 1 && BodyOk(body[2..], quote)
    else body[0] != quote && BodyOk(body[1..], quote)
  }

  predicate GapOk(gap: Gap) {
    AllSpace(gap.lead) && forall i | 0 <= i < |gap.commas| :: AllSpace(gap.commas[i])
  }

  predicate KeyOk(key: Key) {
    key.Key? ==> BodyOk(key.name, QuoteChar(key.single)) && AllSpace(key.before) && AllSpace(key.after)
  }

  predicate WellFormed(t: Json) {
    match t
    case Number(n) => NumOk(n)
    case Lit(_, _) => true
    case Text(single, body) => BodyOk(body, QuoteChar(single))
    case Node(_, items) => ItemsOk(items)
  }

  predicate ItemsOk(items: Items) {
    match items
    case Close(gap) => GapOk(gap)
    case Item(gap, key, value, rest) => GapOk(gap) && KeyOk(key) && WellFormed(value) && ItemsOk(rest)
  }

  // ----- Stage 1: the rewrite loop ------------------------------------------------------------

  /** The body of a single-quoted string once it is double-quoted. */
  function RequoteBody(body: string): string
    decreases |body|
  {
    if body == "" then ""
    else if body[0] == '\\' && |body| > 1 then body[..2] + RequoteBody(body[2..])
    else if body[0] == '"' then "\\\"" + RequoteBody(body[1..])
    else [body[0]] + RequoteBody(body[1..])
  }

  function NewBody(single: bool, body: string): string {
    if single then RequoteBody(body) else body
  }

  function Requoted(t: Json): Json {
    match t
    case Number(_) => t
    case Lit(_, _) => t
    case Text(single, body) => Text(false, NewBody(single, body))
    case Node(kind, items) => Node(kind, RequotedItems(items))
  }

  function RequotedItems(items: Items): Items {
    match items
    case Close(_) => items
    case Item(gap, key, value, rest) => Item(gap, RequotedKey(key), Requoted(value), RequotedItems(rest))
  }

  function RequotedKey(key: Key): Key {
    match key
    case NoKey => NoKey
    case Key(single, name, before, after) => Key(false, NewBody(single, name), before, after)
  }

  /** Bytes that are not quotes pass through the rewrite loop outside strings. */
  lemma {:induction false} RequotePlain(a: string, tail: string)
    requires '"' !in a && '\'' !in a
    ensures Requote(a + tail, Outside) == a + Requote(tail, Outside)
  {
    if a == "" {
      assert a + tail == tail;
    } else {
      assert (a + tail)[1..] == a[1..] + tail;
      RequotePlain(a[1..], tail);
    }
  }

  lemma {:induction false} RequoteInside(single: bool, body: string, tail: string)
    requires BodyOk(body, QuoteChar(single))
    ensures Requote(body + ([QuoteChar(single)] + tail), if single then InSingle else InDouble)
         == NewBody(single, body) + ("\"" + Requote(tail, Outside))
    decreases |body|
  {
    var close := [QuoteChar(single)] + tail;
    var out := "\"" + Requote(tail, Outside);
    if body == "" {
      assert body + close == close && close[1..] == tail;
    } else if body[0] == '\\' {
      assert body + close == body[..2] + (body[2..] + close);
      assert (body + close)[2..] == body[2..] + close;
      RequoteInside(single, body[2..], tail);
      Assoc(body[..2], NewBody(single, body[2..]), out);
      assert NewBody(single, body) == body[..2] + NewBody(single, body[2..]);
    } else {
      assert (body + close)[1..] == body[1..] + close;
      RequoteInside(single, body[1..], tail);
      var piece := if body[0] == '"' then "\\\"" else [body[0]];
      Assoc(piece, NewBody(single, body[1..]), out);
      assert NewBody(single, body) == piece + NewBody(single, body[1..]);
    }
  }

  lemma RequoteQuoted(single: bool, body: string, tail: string)
    requires BodyOk(body, QuoteChar(single))
    ensures Requote(QuotedTo(single, body, tail), Outside)
         == QuotedTo(false, NewBody(single, body), Requote(tail, Outside))
  {
    RequoteInside(single, body, tail);
    assert QuotedTo(single, body, tail)[1..] == body + ([QuoteChar(single)] + tail);
  }

  lemma {:induction false} RequoteCommas(commas: seq<string>, tail: string)
    requires forall i | 0 <= i < |commas| :: AllSpace(commas[i])
    ensures Requote(CommasTo(commas, tail), Outside) == CommasTo(commas, Requote(tail, Outside))
  {
    if commas != [] {
      RequoteCommas(commas[1..], tail);
      RequotePlain(commas[0], CommasTo(commas[1..], tail));
      RequotePlain(",", commas[0] + CommasTo(commas[1..], tail));
    }
  }

  lemma RequoteGap(gap: Gap, tail: string)
    requires GapOk(gap)
    ensures Requote(GapTo(gap, tail), Outside) == GapTo(gap, Requote(tail, Outside))
  {
    RequoteCommas(gap.commas, tail);
    RequotePlain(gap.lead, CommasTo(gap.commas, tail));
  }

  lemma RequoteKey(key: Key, tail: string)
    requires KeyOk(key)
    ensures Requote(KeyTo(key, tail), Outside) == KeyTo(RequotedKey(key), Requote(tail, Outside))
  {
    if key.Key? {
      RequotePlain(key.after, tail);
      RequotePlain(":", key.after + tail);
      RequotePlain(key.before, ":" + (key.after + tail));
      RequoteQuoted(key.single, key.name, key.before + (":" + (key.after + tail)));
    }
  }

  predicate NumChar(c: char) {
    '0' <= c <= '9' || c == '-' || c == '+' || c == '.' || c == 'e' || c == 'E'
  }

  predicate NumText(s: string) {
    forall i | 0 <= i < |s| :: NumChar(s[i])
  }

  lemma ExpChars(n: Num)
    requires NumOk(n)
    ensures NumText(n.exp)
  {
    if n.exp != "" {
      var k := if n.exp[1] in "+-" then 2 else 1;
      forall i | 0 <= i < |n.exp|
        ensures NumChar(n.exp[i])
      {
        if i >= k {
          assert n.exp[i] == n.exp[k..][i - k];
        }
      }
    }
  }

  lemma NumChars(n: Num)
    requires NumOk(n)
    ensures PrintNum(n) != "" && ('0' <= PrintNum(n)[0] <= '9' || PrintNum(n)[0] == '-')
    ensures NumText(PrintNum(n))
  {
    var sign := if n.minus then "-" else "";
    var frac := if n.frac == "" then "" else "." + n.frac;
    ExpChars(n);
    assert PrintNum(n) == sign + n.whole + frac + n.exp;
  }

  lemma {:induction false} RequotePrint(t: Json, tail: string)
    requires WellFormed(t)
    ensures Requote(PrintTo(t, tail), Outside) == PrintTo(Requoted(t), Requote(tail, Outside))
    decreases t
  {
    match t
    case Number(n) =>
      NumChars(n);
      RequotePlain(PrintNum(n), tail);
    case Lit(w, python) =>
      RequotePlain(if python then PythonText(w) else JsonText(w), tail);
    case Text(single, body) =>
      RequoteQuoted(single, body, tail);
    case Node(kind, items) =>
      RequoteItems(items, kind, tail);
      RequotePlain([OpenChar(kind)], ItemsTo(items, kind, tail));
  }

  lemma {:induction false} RequoteItems(items: Items, kind: Kind, tail: string)
    requires ItemsOk(items)
    ensures Requote(ItemsTo(items, kind, tail), Outside) == ItemsTo(RequotedItems(items), kind, Requote(tail, Outside))
    decreases items
  {
    match items
    case Close(gap) =>
      RequotePlain([CloseChar(kind)], tail);
      RequoteGap(gap, [CloseChar(kind)] + tail);
    case Item(gap, key, value, rest) =>
      RequoteItems(rest, kind, tail);
      RequotePrint(value, ItemsTo(rest, kind, tail));
      RequoteKey(key, PrintTo(value, ItemsTo(rest, kind, tail)));
      RequoteGap(gap, KeyTo(key, PrintTo(value, ItemsTo(rest, kind, tail))));
  }

  // ----- Stage 2: the word replacements -------------------------------------------------------

  /** One replacement pass: inside every string, and for a Python word right after `": "`. */
  function Worded(t: Json, w: Word): Json
    decreases t, 0
  {
    match t
    case Number(_) => t
    case Lit(_, _) => t
    case Text(single, body) => Text(single, FixWord(body, w))
    case Node(kind, items) => Node(kind, WordedItems(items, w))
  }

  function WordedItems(items: Items, w: Word): Items
    decreases items, 0
  {
    match items
    case Close(_) => items
    case Item(gap, key, value, rest) =>
      Item(gap, WordedKey(key, w), WordedValue(key, value, w), WordedItems(rest, w))
  }

  function WordedValue(key: Key, value: Json, w: Word): Json
    decreases value, 1
  {
    if AfterColonSpace(key) && value == Lit(w, true) then Lit(w, false) else Worded(value, w)
  }

  function WordedKey(key: Key, w: Word): Key {
    match key
    case NoKey => NoKey
    case Key(single, name, before, after) => Key(single, FixWord(name, w), before, after)
  }

  predicate AfterColonSpace(key: Key) {
    key.Key? && key.after == " "
  }

  /** All strings double-quoted. */
  predicate DoubleQuoted(t: Json) {
    match t
    case Number(_) => true
    case Lit(_, _) => true
    case Text(single, _) => !single
    case Node(_, items) => ItemsDoubleQuoted(items)
  }

  predicate ItemsDoubleQuoted(items: Items) {
    match items
    case Close(_) => true
    case Item(_, key, value, rest) => (key.Key? ==> !key.single) && DoubleQuoted(value) && ItemsDoubleQuoted(rest)
  }

  lemma FixWordPlain(a: string, tail: string, w: Word)
    requires ':' !in a
    ensures FixWord(a + tail, w) == a + FixWord(tail, w)
  {
    ReplaceAllPlain(a, tail, PythonPattern(w), JsonPattern(w));
  }

  lemma FixWordInside(body: string, tail: string, w: Word)
    ensures FixWord(body + ("\"" + tail), w) == FixWord(body, w) + ("\"" + FixWord(tail, w))
  {
    ReplaceAllAround(body, '"', tail, PythonPattern(w), JsonPattern(w));
  }

  lemma FixWordQuoted(body: string, tail: string, w: Word)
    ensures FixWord(QuotedTo(false, body, tail), w) == QuotedTo(false, FixWord(body, w), FixWord(tail, w))
  {
    FixWordInside(body, tail, w);
    FixWordPlain("\"", body + ("\"" + tail), w);
  }

  lemma {:induction false} FixWordCommas(commas: seq<string>, tail: string, w: Word)
    requires forall i | 0 <= i < |commas| :: AllSpace(commas[i])
    ensures FixWord(CommasTo(commas, tail), w) == CommasTo(commas, FixWord(tail, w))
  {
    if commas != [] {
      FixWordCommas(commas[1..], tail, w);
      FixWordPlain(commas[0], CommasTo(commas[1..], tail), w);
      FixWordPlain(",", commas[0] + CommasTo(commas[1..], tail), w);
    }
  }

  lemma FixWordGap(gap: Gap, tail: string, w: Word)
    requires GapOk(gap)
    ensures FixWord(GapTo(gap, tail), w) == GapTo(gap, FixWord(tail, w))
  {
    FixWordCommas(gap.commas, tail, w);
    FixWordPlain(gap.lead, CommasTo(gap.commas, tail), w);
  }

  /** The first byte of a value: never white space, a comma, a colon or a closing bracket. */
  lemma FirstByte(t: Json, tail: string)
    requires WellFormed(t)
    ensures var p := PrintTo(t, tail);
            p != "" && !IsSpace(p[0]) && p[0] !in ",:]}"
    ensures forall w | t != Lit(w, true) :: PrintTo(t, tail)[0] != PythonText(w)[0]
  {
    if t.Number? {
      NumChars(t.num);
    }
  }

  lemma NoPatternAfterColon(after: string, v: Json, tail: string, w: Word)
    requires AllSpace(after) && WellFormed(v)
    requires !(after == " " && v == Lit(w, true))
    ensures !OccursAt(":" + (after + PrintTo(v, tail)), PythonPattern(w), 0)
  {
    var s := ":" + (after + PrintTo(v, tail));
    FirstByte(v, tail);
    if |after| == 0 {
      assert s[1] == PrintTo(v, tail)[0];
    } else if |after| == 1 {
      assert s[1] == after[0] && s[2] == PrintTo(v, tail)[0];
      assert after[0] == ' ' ==> after == " ";
    } else {
      assert s[2] == after[1];
    }
  }

  /** The colon, the white space after it, and the value, in one replacement pass. */
  lemma FixWordAfterColon(after: string, v: Json, tail: string, w: Word)
    requires AllSpace(after) && WellFormed(v)
    ensures FixWord(":" + (after + PrintTo(v, tail)), w) ==
            ":" + (after + if after == " " && v == Lit(w, true) then PrintTo(Lit(w, false), FixWord(tail, w))
                           else FixWord(PrintTo(v, tail), w))
  {
    if after == " " && v == Lit(w, true) {
      WordAfterColon(tail, w);
      assert ":" + (after + PrintTo(v, tail)) == ":" + (" " + (PythonText(w) + tail));
    } else {
      NoPatternAfterColon(after, v, tail, w);
      assert (":" + (after + PrintTo(v, tail)))[1..] == after + PrintTo(v, tail);
      FixWordPlain(after, PrintTo(v, tail), w);
    }
  }

  lemma WordAfterColon(tail: string, w: Word)
    ensures FixWord(":" + (" " + (PythonText(w) + tail)), w) == ":" + (" " + (JsonText(w) + FixWord(tail, w)))
  {
    var pat, rep := PythonPattern(w), JsonPattern(w);
    var s := ":" + (" " + (PythonText(w) + tail));
    assert s == pat + tail;
    assert s[0..|pat|] == pat && s[|pat|..] == tail;
    assert rep + FixWord(tail, w) == ":" + (" " + (JsonText(w) + FixWord(tail, w)));
  }

  lemma {:induction false} FixWordPrint(t: Json, tail: string, w: Word)
    requires WellFormed(t) && DoubleQuoted(t)
    ensures FixWord(PrintTo(t, tail), w) == PrintTo(Worded(t, w), FixWord(tail, w))
    decreases t
  {
    match t
    case Number(n) =>
      NumChars(n);
      FixWordPlain(PrintNum(n), tail, w);
    case Lit(w', python) =>
      FixWordPlain(if python then PythonText(w') else JsonText(w'), tail, w);
    case Text(_, body) =>
      FixWordQuoted(body, tail, w);
    case Node(kind, items) =>
      FixWordItems(items, kind, tail, w);
      FixWordPlain([OpenChar(kind)], ItemsTo(items, kind, tail), w);
  }

  lemma {:induction false} FixWordItems(items: Items, kind: Kind, tail: string, w: Word)
    requires ItemsOk(items) && ItemsDoubleQuoted(items)
    ensures FixWord(ItemsTo(items, kind, tail), w) == ItemsTo(WordedItems(items, w), kind, FixWord(tail, w))
    decreases items
  {
    match items
    case Close(gap) =>
      FixWordPlain([CloseChar(kind)], tail, w);
      FixWordGap(gap, [CloseChar(kind)] + tail, w);
    case Item(gap, key, value, rest) =>
      var tail' := ItemsTo(rest, kind, tail);
      FixWordItems(rest, kind, tail, w);
      FixWordPrint(value, tail', w);
      FixWordGap(gap, KeyTo(key, PrintTo(value, tail')), w);
      if key.Key? {
        var colon := ":" + (key.after + PrintTo(value, tail'));
        FixWordAfterColon(key.after, value, tail', w);
        FixWordPlain(key.before, colon, w);
        FixWordQuoted(key.name, key.before + colon, w);
      }
  }

  // ----- Stage 3: the comma scanner -----------------------------------------------------------

  /** Before a bracket every comma goes. */
  function TidyClose(gap: Gap): Gap
    decreases |gap.commas|
  {
    if gap.commas == [] then gap else TidyClose(Gap(gap.lead + gap.commas[0], gap.commas[1..]))
  }

  /** Before an item every comma but the last goes. */
  function TidyItem(gap: Gap): Gap
    decreases |gap.commas|
  {
    if |gap.commas| <= 1 then gap else TidyItem(Gap(gap.lead + gap.commas[0], gap.commas[1..]))
  }

  function Tidied(t: Json): Json {
    match t
    case Number(_) => t
    case Lit(_, _) => t
    case Text(_, _) => t
    case Node(kind, items) => Node(kind, TidiedItems(items))
  }

  function TidiedItems(items: Items): Items {
    match items
    case Close(gap) => Close(TidyClose(gap))
    case Item(gap, key, value, rest) => Item(TidyItem(gap), key, Tidied(value), TidiedItems(rest))
  }

  lemma {:induction false} DropPlain(a: string, tail: string)
    requires '"' !in a && ',' !in a
    ensures DropCommas(a + tail, false) == a + DropCommas(tail, false)
  {
    if a == "" {
      assert a + tail == tail;
    } else {
      assert (a + tail)[1..] == a[1..] + tail;
      DropPlain(a[1..], tail);
    }
  }

  lemma {:induction false} DropInside(body: string, tail: string)
    requires BodyOk(body, '"')
    ensures DropCommas(body + ("\"" + tail), true) == body + ("\"" + DropCommas(tail, false))
    decreases |body|
  {
    var s := body + ("\"" + tail);
    if body == "" {
      assert s[1..] == tail;
    } else if body[0] == '\\' {
      assert s[2..] == body[2..] + ("\"" + tail) && s[..2] == body[..2];
      DropInside(body[2..], tail);
    } else {
      assert s[1..] == body[1..] + ("\"" + tail);
      DropInside(body[1..], tail);
    }
  }

  lemma DropQuoted(body: string, tail: string)
    requires BodyOk(body, '"')
    ensures DropCommas(QuotedTo(false, body, tail), false) == QuotedTo(false, body, DropCommas(tail, false))
  {
    DropInside(body, tail);
    assert QuotedTo(false, body, tail)[1..] == body + ("\"" + tail);
  }

  lemma {:induction false} SkipSpaces(a: string, tail: string)
    requires AllSpace(a)
    ensures SkipSpace(a + tail) == SkipSpace(tail)
  {
    if a == "" {
      assert a + tail == tail;
    } else {
      assert (a + tail)[1..] == a[1..] + tail;
      SkipSpaces(a[1..], tail);
    }
  }

  /** A gap before `tail`, whose first byte says whether an item or the bracket follows. */
  lemma {:induction false} DropGap(gap: Gap, tail: string)
    requires GapOk(gap)
    requires tail != "" && !IsSpace(tail[0]) && tail[0] != ','
    ensures DropCommas(GapTo(gap, tail), false) ==
            GapTo(if tail[0] in "]}" then TidyClose(gap) else TidyItem(gap), DropCommas(tail, false))
    decreases |gap.commas|
  {
    DropPlain(gap.lead, CommasTo(gap.commas, tail));
    if gap.commas != [] {
      var ws, more := gap.commas[0], gap.commas[1..];
      var after := ws + CommasTo(more, tail);
      assert CommasTo(gap.commas, tail)[1..] == after;
      SkipSpaces(ws, CommasTo(more, tail));
      var merged := Gap(gap.lead + ws, more);
      Assoc(gap.lead, ws, CommasTo(more, tail));
      if more != [] || tail[0] in "]}" {
        assert Redundant(after);
        DropPlain(gap.lead, after);
        DropGap(merged, tail);
      } else {
        assert after == ws + tail;
        assert !Redundant(after);
        DropPlain(ws, tail);
        var out := DropCommas(tail, false);
        assert DropCommas(CommasTo(gap.commas, tail), false) == "," + (ws + out);
        assert gap.commas == [ws];
        assert CommasTo(gap.commas, out) == "," + (ws + CommasTo([], out));
      }
    }
  }

  lemma DropKey(key: Key, tail: string)
    requires KeyOk(key) && (key.Key? ==> !key.single)
    ensures DropCommas(KeyTo(key, tail), false) == KeyTo(key, DropCommas(tail, false))
  {
    if key.Key? {
      DropPlain(key.after, tail);
      DropPlain(":", key.after + tail);
      DropPlain(key.before, ":" + (key.after + tail));
      DropQuoted(key.name, key.before + (":" + (key.after + tail)));
    }
  }

  lemma {:induction false} DropPrint(t: Json, tail: string)
    requires WellFormed(t) && DoubleQuoted(t)
    ensures DropCommas(PrintTo(t, tail), false) == PrintTo(Tidied(t), DropCommas(tail, false))
    decreases t
  {
    match t
    case Number(n) =>
      NumChars(n);
      DropPlain(PrintNum(n), tail);
    case Lit(w, python) =>
      DropPlain(if python then PythonText(w) else JsonText(w), tail);
    case Text(_, body) =>
      DropQuoted(body, tail);
    case Node(kind, items) =>
      DropItems(items, kind, tail);
      DropPlain([OpenChar(kind)], ItemsTo(items, kind, tail));
  }

  lemma {:induction false} DropItems(items: Items, kind: Kind, tail: string)
    requires ItemsOk(items) && ItemsDoubleQuoted(items)
    ensures DropCommas(ItemsTo(items, kind, tail), false) == ItemsTo(TidiedItems(items), kind, DropCommas(tail, false))
    decreases items
  {
    match items
    case Close(gap) =>
      DropPlain([CloseChar(kind)], tail);
      DropGap(gap, [CloseChar(kind)] + tail);
    case Item(gap, key, value, rest) =>
      var tail' := ItemsTo(rest, kind, tail);
      DropItems(rest, kind, tail);
      DropPrint(value, tail');
      DropKey(key, PrintTo(value, tail'));
      FirstByte(value, tail');
      DropGap(gap, KeyTo(key, PrintTo(value, tail')));
  }
}
