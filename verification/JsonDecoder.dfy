/** A decoder for JSON texts (RFC 8259), written from the grammar and not from any printer: what the repaired
    texts of pkg/llm/client.go have to satisfy. */
module JsonDecoder {
  import opened Strings
  import opened JsonScanners
  import opened JsonTrees
  import opened JsonRepair

  datatype Parsed<T> = Fail | Done(value: T, rest: string)

  // ----- Numbers (section 6) ------------------------------------------------------------------

  function DigitRun(s: string): (n: nat)
    ensures n <= |s|
  {
    if s != "" && '0' <= s[0] <= '9' then 1 + DigitRun(s[1..]) else 0
  }

  function ParseWhole(s: string): (r: Parsed<string>)
    ensures r.Done? ==> |r.rest| < |s|
  {
    if s == "" then Fail
    else if s[0] == '0' then Done("0", s[1..])
    else if DigitRun(s) == 0 then Fail
    else Done(s[..DigitRun(s)], s[DigitRun(s)..])
  }

  function ParseFrac(s: string): (r: Parsed<string>)
    ensures r.Done? ==> |r.rest| <= |s|
  {
    if s == "" || s[0] != '.' then Done("", s)
    else
      var n := DigitRun(s[1..]);
      if n == 0 then Fail else Done(s[1..1 + n], s[1 + n..])
  }

  function ParseExp(s: string): (r: Parsed<string>)
    ensures r.Done? ==> |r.rest| <= |s|
  {
    if s == "" || s[0] !in "eE" then Done("", s)
    else
      var k := if |s| > 1 && s[1] in "+-" then 2 else 1;
      var n := DigitRun(s[k..]);
      if n == 0 then Fail else Done(s[..k + n], s[k + n..])
  }

  function ParseUnsigned(s: string, minus: bool): (r: Parsed<Num>)
    ensures r.Done? ==> |r.rest| < |s|
  {
    match ParseWhole(s)
    case Fail => Fail
    case Done(whole, s1) =>
      match ParseFrac(s1)
      case Fail => Fail
      case Done(frac, s2) =>
        match ParseExp(s2)
        case Fail => Fail
        case Done(exp, rest) => Done(Num(minus, whole, frac, exp), rest)
  }

  function ParseNumber(s: string): (r: Parsed<Num>)
    ensures r.Done? ==> |r.rest| < |s|
  {
    if s != "" && s[0] == '-' then ParseUnsigned(s[1..], true) else ParseUnsigned(s, false)
  }

  // ----- Strings (section 7) ------------------------------------------------------------------

  /** Up to the closing quote, which no backslash escapes. */
  function TakeBody(s: string): (r: Parsed<string>)
    ensures r.Done? ==> |r.rest| < |s|
    decreases |s|
  {
    if s == "" then Fail
    else if s[0] == '"' then Done("", s[1..])
    else
      var k := if s[0] == '\\' then 2 else 1;
      if k > |s| then Fail
      else match TakeBody(s[k..])
        case Fail => Fail
        case Done(body, rest) => Done(s[..k] + body, rest)
  }

  function ParseString(s: string): (r: Parsed<seq<Glyph>>)
    ensures r.Done? ==> |r.rest| < |s|
  {
    if s == "" || s[0] != '"' then Fail
    else match TakeBody(s[1..])
      case Fail => Fail
      case Done(body, rest) => if Legal(body, 0) then Done(Glyphs(body), rest) else Fail
  }

  // ----- Values, arrays, objects (sections 3 to 5) --------------------------------------------

  function ParseWord(s: string): (r: Parsed<Word>)
    ensures r.Done? ==> |r.rest| < |s|
  {
    if StartsWith(s, "true") then Done(True, s[4..])
    else if StartsWith(s, "false") then Done(False, s[5..])
    else if StartsWith(s, "null") then Done(None, s[4..])
    else Fail
  }

  /** A member's name and its colon, or nothing at all in an array. */
  function ParseName(s: string, kind: Kind): (r: Parsed<VName>)
    ensures r.Done? ==> |r.rest| <= |s|
  {
    if kind == Array then Done(VNoName, s)
    else match ParseString(s)
      case Fail => Fail
      case Done(name, rest) =>
        var t := SkipSpace(rest);
        if t == "" || t[0] != ':' then Fail else Done(VName(name), SkipSpace(t[1..]))
  }

  function ParseValue(s: string): (r: Parsed<Value>)
    ensures r.Done? ==> |r.rest| < |s|
    decreases |s|, 0
  {
    if s == "" then Fail
    else if s[0] == '"' then
      match ParseString(s) case Fail => Fail case Done(glyphs, rest) => Done(VText(glyphs), rest)
    else if s[0] == '[' then
      match ParseItems(s[1..], Array, true)
      case Fail => Fail
      case Done(items, rest) => Done(VNode(Array, items), rest)
    else if s[0] == '{' then
      match ParseItems(s[1..], Object, true)
      case Fail => Fail
      case Done(items, rest) => Done(VNode(Object, items), rest)
    else if s[0] == '-' || '0' <= s[0] <= '9' then
      match ParseNumber(s) case Fail => Fail case Done(n, rest) => Done(VNumber(n), rest)
    else match ParseWord(s) case Fail => Fail case Done(w, rest) => Done(VWord(w), rest)
  }

  datatype Member = Member(name: VName, value: Value)

  function ParseMember(s: string, kind: Kind): (r: Parsed<Member>)
    ensures r.Done? ==> |r.rest| < |s|
    decreases |s|, 1
  {
    match ParseName(s, kind)
    case Fail => Fail
    case Done(name, s1) =>
      match ParseValue(s1)
      case Fail => Fail
      case Done(value, rest) => Done(Member(name, value), rest)
  }

  /** The inside of a container from its start, or from the end of an item, to its bracket. */
  function ParseItems(s: string, kind: Kind, first: bool): (r: Parsed<VItems>)
    ensures r.Done? ==> |r.rest| < |s|
    decreases |s|, 2
  {
    var t := SkipSpace(s);
    if t == "" then Fail
    else if t[0] == CloseChar(kind) then Done(VEnd, t[1..])
    else if !first && t[0] != ',' then Fail
    else
      match ParseMember(if first then t else SkipSpace(t[1..]), kind)
      case Fail => Fail
      case Done(member, s1) =>
        match ParseItems(s1, kind, false)
        case Fail => Fail
        case Done(items, rest) => Done(VItem(member.name, member.value, items), rest)
  }

  datatype Result = Malformed | Decoded(value: Value)

  /** A text is one value between white space. */
  function Decode(s: string): Result {
    match ParseValue(SkipSpace(s))
    case Fail => Malformed
    case Done(value, rest) => if SkipSpace(rest) == "" then Decoded(value) else Malformed
  }

  /** Blanks around a text are no part of it. */
  lemma BlanksAround(ws: string, text: string)
    requires Blank(ws)
    ensures Decode(ws + text) == Decode(text)
  {
    BlanksSkipped(ws, text);
  }

  // ----- Numbers decode -----------------------------------------------------------------------

  predicate IsDigit(c: char) {
    '0' <= c <= '9'
  }

  predicate NoDigitFirst(s: string) {
    s == "" || !IsDigit(s[0])
  }

  /** The text ends a number before it. */
  predicate NumEnds(s: string) {
    s == "" || !NumChar(s[0])
  }

  lemma {:induction false} DigitRunAll(a: string, tail: string)
    requires (forall i | 0 <= i < |a| :: IsDigit(a[i])) && NoDigitFirst(tail)
    ensures DigitRun(a + tail) == |a|
  {
    if a == "" {
      assert a + tail == tail;
    } else {
      assert (a + tail)[1..] == a[1..] + tail;
      DigitRunAll(a[1..], tail);
    }
  }

  lemma WholeDecodes(n: Num, tail: string)
    requires NumOk(n) && NoDigitFirst(tail)
    ensures ParseWhole(n.whole + tail) == Done(n.whole, tail)
  {
    var s := n.whole + tail;
    assert s[..|n.whole|] == n.whole && s[|n.whole|..] == tail;
    if n.whole != "0" {
      DigitRunAll(n.whole, tail);
    }
  }

  function FracText(n: Num): string {
    if n.frac == "" then "" else "." + n.frac
  }

  lemma FracDecodes(n: Num, tail: string)
    requires NumOk(n) && NoDigitFirst(tail) && (tail != "" ==> tail[0] != '.')
    ensures ParseFrac(FracText(n) + tail) == Done(n.frac, tail)
  {
    if n.frac == "" {
      assert FracText(n) + tail == tail;
    } else {
      var s := FracText(n) + tail;
      assert s[1..] == n.frac + tail;
      DigitRunAll(n.frac, tail);
      assert s[1..1 + |n.frac|] == n.frac && s[1 + |n.frac|..] == tail;
    }
  }

  lemma ExpDecodes(n: Num, tail: string)
    requires NumOk(n) && NumEnds(tail)
    ensures ParseExp(n.exp + tail) == Done(n.exp, tail)
  {
    if n.exp == "" {
      assert n.exp + tail == tail;
    } else {
      var k := if n.exp[1] in "+-" then 2 else 1;
      var mark, digits := n.exp[..k], n.exp[k..];
      assert n.exp == mark + digits;
      Assoc(mark, digits, tail);
      DigitRunAll(digits, tail);
    }
  }

  function UnsignedTo(n: Num, tail: string): string {
    n.whole + (FracText(n) + (n.exp + tail))
  }

  lemma UnsignedDecodes(n: Num, tail: string)
    requires NumOk(n) && NumEnds(tail)
    ensures ParseUnsigned(UnsignedTo(n, tail), n.minus) == Done(n, tail)
  {
    ExpDecodes(n, tail);
    FracDecodes(n, n.exp + tail);
    WholeDecodes(n, FracText(n) + (n.exp + tail));
  }

  lemma NumberText(n: Num, tail: string)
    ensures PrintNum(n) + tail == (if n.minus then "-" else "") + UnsignedTo(n, tail)
  {
    var sign := if n.minus then "-" else "";
    Assoc(sign + n.whole + FracText(n), n.exp, tail);
    Assoc(sign + n.whole, FracText(n), n.exp + tail);
    Assoc(sign, n.whole, FracText(n) + (n.exp + tail));
  }

  lemma NumberDecodes(n: Num, tail: string)
    requires NumOk(n) && NumEnds(tail)
    ensures ParseNumber(PrintNum(n) + tail) == Done(n, tail)
  {
    UnsignedDecodes(n, tail);
    NumberText(n, tail);
    assert n.whole != "" && IsDigit(n.whole[0]);
    SignDecodes(n, tail);
  }

  lemma SignDecodes(n: Num, tail: string)
    requires n.whole != "" && IsDigit(n.whole[0])
    ensures ParseNumber((if n.minus then "-" else "") + UnsignedTo(n, tail)) ==
            ParseUnsigned(UnsignedTo(n, tail), n.minus)
  {
    var s := UnsignedTo(n, tail);
    assert s[0] == n.whole[0];
    assert ("-" + s)[1..] == s && "" + s == s;
  }

  // ----- Strings and names decode -------------------------------------------------------------

  lemma {:induction false} BodyTaken(body: string, tail: string)
    requires BodyOk(body, '"')
    ensures TakeBody(body + ("\"" + tail)) == Done(body, tail)
    decreases |body|
  {
    var s := body + ("\"" + tail);
    if body == "" {
      assert s[1..] == tail;
    } else {
      var k := if body[0] == '\\' then 2 else 1;
      assert s[k..] == body[k..] + ("\"" + tail) && s[..k] == body[..k];
      BodyTaken(body[k..], tail);
      assert body == body[..k] + body[k..];
    }
  }

  lemma StringVerdict(body: string, tail: string)
    requires BodyOk(body, '"')
    ensures ParseString(QuotedTo(false, body, tail)) == if Legal(body, 0) then Done(Glyphs(body), tail) else Fail
  {
    BodyTaken(body, tail);
    assert QuotedTo(false, body, tail)[1..] == body + ("\"" + tail);
  }

  predicate StartsSolid(s: string) {
    s != "" && !IsSpace(s[0])
  }

  /** A name in an object. */
  lemma NameVerdict(key: Key, tail: string)
    requires key.Key? && !key.single && KeyOk(key) && StartsSolid(tail)
    ensures ParseName(KeyTo(key, tail), Object) == if Legal(key.name, 0) then Done(KeyMeaning(key), tail) else Fail
  {
    var colon := ":" + (key.after + tail);
    StringVerdict(key.name, key.before + colon);
    SkipSpaces(key.before, colon);
    assert colon[1..] == key.after + tail;
    SkipSpaces(key.after, tail);
  }

  // ----- Values that are no containers --------------------------------------------------------

  lemma NumberValue(s: string, n: Num, tail: string)
    requires s != "" && (s[0] == '-' || IsDigit(s[0])) && ParseNumber(s) == Done(n, tail)
    ensures ParseValue(s) == Done(VNumber(n), tail)
  {}

  lemma NumberVerdict(n: Num, tail: string)
    requires NumOk(n) && NumEnds(tail)
    ensures ParseValue(PrintNum(n) + tail) == Done(VNumber(n), tail)
  {
    NumChars(n);
    NumberDecodes(n, tail);
    var s := PrintNum(n) + tail;
    assert s[0] == PrintNum(n)[0];
    NumberValue(s, n, tail);
  }

  lemma TextVerdict(single: bool, body: string, tail: string)
    requires BodyOk(body, QuoteChar(single))
    ensures ParseValue(QuotedTo(single, body, tail)) ==
            if StrictText(single, body) then Done(VText(Glyphs(body)), tail) else Fail
  {
    if !single {
      StringVerdict(body, tail);
    }
  }

  // ----- Numbers apart ------------------------------------------------------------------------

  /** No number stands right after another with nothing at all between them. */
  predicate Apart(t: Json) {
    t.Node? ==> ItemsApart(t.items, false)
  }

  predicate ItemsApart(items: Items, afterNumber: bool) {
    match items
    case Close(_) => true
    case Item(gap, key, value, rest) =>
      && !(afterNumber && gap == Gap("", []) && key.NoKey? && value.Number?)
      && Apart(value) && ItemsApart(rest, value.Number?)
  }

  lemma {:induction false} FixedApart(t: Json)
    requires WellFormed(t)
    ensures WellFormed(Fixed(t)) && (Apart(Fixed(t)) <==> Apart(t))
    decreases t
  {
    match t
    case Number(_) =>
    case Lit(_, _) =>
    case Text(single, body) => FixedBodyStrict(single, body);
    case Node(_, items) => FixedItemsApart(items, false);
  }

  lemma {:induction false} FixedItemsApart(items: Items, afterNumber: bool)
    requires ItemsOk(items)
    ensures var fixed := FixedItems(items);
            ItemsOk(fixed) && (ItemsApart(fixed, afterNumber) <==> ItemsApart(items, afterNumber))
    decreases items
  {
    TidyGaps(items.gap);
    if items.Item? {
      if items.key.Key? {
        FixedBodyStrict(items.key.single, items.key.name);
      }
      FixedApart(items.value);
      FixedItemsApart(items.rest, items.value.Number?);
    }
  }

  // ----- The decoder's verdict on a tree ------------------------------------------------------

  /** A gap, then something solid: at the first comma, or at the end of a gap without any. */
  lemma GapSkipped(gap: Gap, tail: string)
    requires GapOk(gap) && StartsSolid(tail)
    ensures gap.commas == [] ==> SkipSpace(GapTo(gap, tail)) == tail
    ensures gap.commas != [] ==>
              var t := SkipSpace(GapTo(gap, tail));
              && t != "" && t[0] == ','
              && SkipSpace(t[1..]) == CommasTo(gap.commas[1..], tail)
  {
    SkipSpaces(gap.lead, CommasTo(gap.commas, tail));
    if gap.commas != [] {
      var more := CommasTo(gap.commas[1..], tail);
      var t := "," + (gap.commas[0] + more);
      assert t[1..] == gap.commas[0] + more;
      SkipSpaces(gap.commas[0], more);
    }
  }

  /** The start of an item without its gap. */
  lemma ItemStarts(key: Key, value: Json, tail: string)
    requires WellFormed(value)
    ensures var s := KeyTo(key, PrintTo(value, tail)); StartsSolid(s) && s[0] !in ",:]}"
    ensures StartsSolid(PrintTo(value, tail))
    ensures key.Key? || !value.Number? ==> NumEnds(KeyTo(key, PrintTo(value, tail)))
  {
    FirstByte(value, tail);
  }

  /** What follows an item is neither a colon nor, after a number, part of that number. */
  lemma ItemsStart(items: Items, kind: Kind, tail: string, afterNumber: bool)
    requires ItemsOk(items) && ItemsApart(items, afterNumber)
    ensures var t := SkipSpace(ItemsTo(items, kind, tail)); t != "" && t[0] != ':'
    ensures afterNumber ==> NumEnds(ItemsTo(items, kind, tail))
  {
    var next: string;
    match items {
      case Close(_) =>
        next := [CloseChar(kind)] + tail;
      case Item(_, key, value, rest) =>
        next := KeyTo(key, PrintTo(value, ItemsTo(rest, kind, tail)));
        ItemStarts(key, value, ItemsTo(rest, kind, tail));
    }
    assert ItemsTo(items, kind, tail) == GapTo(items.gap, next);
    GapSkipped(items.gap, next);
  }

  /** A name in an array: the string is taken for the item, and the colon is in the way. */
  lemma NamedInArray(key: Key, tail: string)
    requires key.Key? && KeyOk(key)
    ensures match ParseValue(KeyTo(key, tail))
            case Fail => true
            case Done(_, rest) => ParseItems(rest, Array, false) == Fail
  {
    var colon := ":" + (key.after + tail);
    TextVerdict(key.single, key.name, key.before + colon);
    SkipSpaces(key.before, colon);
    assert SkipSpace(colon) == colon;
  }

  lemma NotQuoted(value: Json, tail: string)
    requires WellFormed(value) && !(value.Text? && !value.single)
    ensures PrintTo(value, tail) == "" || PrintTo(value, tail)[0] != '"'
  {
    if value.Number? {
      NumChars(value.num);
    }
  }

  /** No name in an object: no string, or no colon after it. */
  lemma UnnamedInObject(value: Json, tail: string)
    requires WellFormed(value)
    requires var t := SkipSpace(tail); t != "" && t[0] != ':'
    ensures ParseName(PrintTo(value, tail), Object) == Fail
  {
    if value.Text? && !value.single {
      StringVerdict(value.body, tail);
    } else {
      NotQuoted(value, tail);
    }
  }

  predicate ProperMember(key: Key, value: Json, kind: Kind) {
    (key.Key? <==> kind == Object) && (key.Key? ==> StrictText(key.single, key.name)) && Strict(value)
  }

  /** An item that does not belong here is refused, at the latest by what follows its string. */
  lemma MemberVerdict(key: Key, value: Json, kind: Kind, after: string)
    requires WellFormed(value) && KeyOk(key)
    requires ParseValue(PrintTo(value, after)) == if Strict(value) then Done(Meaning(value), after) else Fail
    requires var t := SkipSpace(after); t != "" && t[0] != ':'
    ensures var r := ParseMember(KeyTo(key, PrintTo(value, after)), kind);
            if ProperMember(key, value, kind) then r == Done(Member(KeyMeaning(key), Meaning(value)), after)
            else r.Done? ==> ParseItems(r.rest, kind, false) == Fail
  {
    var v := PrintTo(value, after);
    ItemStarts(key, value, after);
    if kind == Object {
      if key.NoKey? {
        UnnamedInObject(value, after);
      } else if !key.single {
        NameVerdict(key, v);
      }
    } else if key.Key? {
      NamedInArray(key, v);
    }
  }

  lemma NoMember(s: string, kind: Kind)
    requires s != "" && s[0] in ",]}"
    ensures ParseMember(s, kind) == Fail
  {}

  /** A comma too many, or one before a bracket. */
  lemma MisplacedComma(gap: Gap, tail: string, kind: Kind, first: bool)
    requires GapOk(gap) && StartsSolid(tail)
    requires |gap.commas| > (if first then 0 else 1) || (gap.commas != [] && tail[0] in "]}")
    ensures ParseItems(GapTo(gap, tail), kind, first) == Fail
  {
    GapSkipped(gap, tail);
    var t := SkipSpace(GapTo(gap, tail));
    NoMember(if first then t else SkipSpace(t[1..]), kind);
  }

  lemma CloseVerdict(gap: Gap, kind: Kind, first: bool, tail: string)
    requires GapOk(gap)
    ensures ParseItems(GapTo(gap, [CloseChar(kind)] + tail), kind, first) ==
            if gap.commas == [] then Done(VEnd, tail) else Fail
  {
    var close := [CloseChar(kind)] + tail;
    assert close[1..] == tail;
    if gap.commas == [] {
      GapSkipped(gap, close);
    } else {
      MisplacedComma(gap, close, kind, first);
    }
  }

  /** One item with its gap: one comma if the item is not the first, none if it is. */
  lemma ItemVerdict(gap: Gap, key: Key, value: Json, kind: Kind, first: bool, after: string)
    requires GapOk(gap) && WellFormed(value) && KeyOk(key)
    requires ParseValue(PrintTo(value, after)) == if Strict(value) then Done(Meaning(value), after) else Fail
    requires var t := SkipSpace(after); t != "" && t[0] != ':'
    ensures ParseItems(GapTo(gap, KeyTo(key, PrintTo(value, after))), kind, first) ==
            if !(|gap.commas| == (if first then 0 else 1) && ProperMember(key, value, kind)) then Fail
            else match ParseItems(after, kind, false)
              case Fail => Fail
              case Done(items, rest) => Done(VItem(KeyMeaning(key), Meaning(value), items), rest)
  {
    var u := KeyTo(key, PrintTo(value, after));
    ItemStarts(key, value, after);
    if |gap.commas| > (if first then 0 else 1) {
      MisplacedComma(gap, u, kind, first);
    } else {
      GapSkipped(gap, u);
      MemberVerdict(key, value, kind, after);
    }
  }

  lemma {:induction false} ValueVerdict(t: Json, tail: string)
    requires WellFormed(t) && Apart(t) && (t.Number? ==> NumEnds(tail))
    ensures ParseValue(PrintTo(t, tail)) == if Strict(t) then Done(Meaning(t), tail) else Fail
    decreases t
  {
    match t
    case Number(n) => NumberVerdict(n, tail);
    case Lit(w, _) =>
    case Text(single, body) => TextVerdict(single, body, tail);
    case Node(kind, items) =>
      ItemsVerdict(items, kind, true, false, tail);
  }

  lemma {:induction false} ItemsVerdict(items: Items, kind: Kind, first: bool, afterNumber: bool, tail: string)
    requires ItemsOk(items) && ItemsApart(items, afterNumber)
    ensures ParseItems(ItemsTo(items, kind, tail), kind, first) ==
            if StrictItems(items, kind, first) then Done(ItemsMeaning(items), tail) else Fail
    decreases items
  {
    match items
    case Close(gap) =>
      CloseVerdict(gap, kind, first, tail);
    case Item(gap, key, value, rest) =>
      var after := ItemsTo(rest, kind, tail);
      ItemsStart(rest, kind, tail, value.Number?);
      ValueVerdict(value, after);
      ItemVerdict(gap, key, value, kind, first, after);
      ItemsVerdict(rest, kind, false, value.Number?, tail);
  }

  // ----- Main results -------------------------------------------------------------------------

  /** The decoder, on the print of any tree whose numbers are apart: strict JSON decodes to what it means, and
      nothing else decodes. */
  lemma DecodeVerdict(t: Json)
    requires WellFormed(t) && Apart(t)
    ensures Decode(Print(t)) == if Strict(t) then Decoded(Meaning(t)) else Malformed
  {
    ItemStarts(NoKey, t, "");
    ValueVerdict(t, "");
  }

  /** `fixJSON` with this decoder as its validity test. */
  function FixedText(s: string): string {
    if Decode(s).Decoded? then s else FixText(s)
  }

  /** Main result: for a tree printed as sloppily as one likes, what `fixJSON` returns decodes exactly if the tree
      is repairable, and to what was meant exactly if moreover the text was strict already or no string holds a
      Python word after a colon and a blank. */
  lemma RepairDecodes(t: Json)
    requires WellFormed(t) && Apart(t)
    ensures Decode(FixedText(Print(t))).Decoded? <==> Repairable(t)
    ensures Decode(FixedText(Print(t))) == Decoded(Meaning(t)) <==>
              Repairable(t) && (Strict(t) || StringsWordFree(t))
  {
    DecodeVerdict(t);
    RepairPrints(t);
    StrictIffRepairable(t);
    FixedApart(t);
    DecodeVerdict(Fixed(t));
    MeaningIffWordFree(t);
    if Strict(t) {
      StrictIsClean(t);
    }
  }
}
