/** The whole of `fixJSON` on trees: what it returns, when that is strict JSON, and when it means the same. */
module JsonRepair {
  import opened Strings
  import opened JsonScanners
  import opened JsonTrees

  // ----- The repaired tree --------------------------------------------------------------------

  function FixedBody(single: bool, body: string): string {
    FixWords(NewBody(single, body))
  }

  function FixedKey(key: Key): Key {
    match key
    case NoKey => NoKey
    case Key(single, name, before, after) => Key(false, FixedBody(single, name), before, after)
  }

  function Fixed(t: Json): Json
    decreases t, 0
  {
    match t
    case Number(_) => t
    case Lit(_, _) => t
    case Text(single, body) => Text(false, FixedBody(single, body))
    case Node(kind, items) => Node(kind, FixedItems(items))
  }

  function FixedItems(items: Items): Items
    decreases items, 0
  {
    match items
    case Close(gap) => Close(TidyClose(gap))
    case Item(gap, key, value, rest) =>
      Item(TidyItem(gap), FixedKey(key), FixedValue(key, value), FixedItems(rest))
  }

  function FixedValue(key: Key, value: Json): Json
    decreases value, 1
  {
    if AfterColonSpace(key) && value.Lit? then Lit(value.word, false) else Fixed(value)
  }

  function WordedAll(t: Json): Json {
    Worded(Worded(Worded(t, True), False), None)
  }

  lemma FixedKeyByStages(key: Key)
    ensures FixedKey(key) == WordedKey(WordedKey(WordedKey(RequotedKey(key), True), False), None)
  {}

  lemma FixedValueByStages(key: Key, value: Json)
    requires Fixed(value) == Tidied(WordedAll(Requoted(value)))
    ensures FixedValue(key, value) ==
            Tidied(WordedValue(key, WordedValue(key, WordedValue(key, Requoted(value), True), False), None))
  {
    if value.Lit? {
      var v1 := WordedValue(key, value, True);
      var v2 := WordedValue(key, v1, False);
      match value.word case True => case False => case None =>
    }
  }

  function WordedAllItems(items: Items): Items {
    WordedItems(WordedItems(WordedItems(items, True), False), None)
  }

  lemma {:induction false} FixedByStages(t: Json)
    ensures Fixed(t) == Tidied(WordedAll(Requoted(t)))
    decreases t
  {
    if t.Node? {
      FixedItemsByStages(t.items);
    }
  }

  lemma {:induction false} FixedItemsByStages(items: Items)
    ensures FixedItems(items) == TidiedItems(WordedAllItems(RequotedItems(items)))
    decreases items
  {
    if items.Item? {
      FixedItemsByStages(items.rest);
      FixedByStages(items.value);
      FixedKeyByStages(items.key);
      FixedValueByStages(items.key, items.value);
      var key, value := RequotedKey(items.key), Requoted(items.value);
      var key1, value1 := WordedKey(key, True), WordedValue(key, value, True);
      var key2, value2 := WordedKey(key1, False), WordedValue(key1, value1, False);
      assert value2 == WordedValue(items.key, WordedValue(items.key, value, True), False);
      assert WordedValue(key2, value2, None) == WordedValue(items.key, value2, None);
    }
  }

  // ----- Every stage keeps trees well formed --------------------------------------------------

  lemma {:induction false} NewBodyOk(single: bool, body: string)
    requires BodyOk(body, QuoteChar(single))
    ensures BodyOk(NewBody(single, body), '"')
    decreases |body|
  {
    if single && body != "" {
      if body[0] == '\\' {
        NewBodyOk(single, body[2..]);
        assert RequoteBody(body)[2..] == RequoteBody(body[2..]);
      } else {
        NewBodyOk(single, body[1..]);
        var n := if body[0] == '"' then 2 else 1;
        assert RequoteBody(body)[n..] == RequoteBody(body[1..]);
      }
    }
  }

  lemma {:induction false} RequotedOk(t: Json)
    requires WellFormed(t)
    ensures WellFormed(Requoted(t)) && DoubleQuoted(Requoted(t))
    decreases t
  {
    match t
    case Number(_) =>
    case Lit(_, _) =>
    case Text(single, body) => NewBodyOk(single, body);
    case Node(_, items) => RequotedItemsOk(items);
  }

  lemma {:induction false} RequotedItemsOk(items: Items)
    requires ItemsOk(items)
    ensures ItemsOk(RequotedItems(items)) && ItemsDoubleQuoted(RequotedItems(items))
    decreases items
  {
    match items
    case Close(_) =>
    case Item(_, key, value, rest) =>
      if key.Key? {
        NewBodyOk(key.single, key.name);
      }
      RequotedOk(value);
      RequotedItemsOk(rest);
  }

  lemma {:induction false} SameShapeBody(a: string, b: string)
    requires SameShape(a, b)
    ensures BodyOk(a, '"') == BodyOk(b, '"')
    decreases |a|
  {
    if a != "" {
      if a[0] == '\\' && |a| > 1 {
        SameShapeBody(a[2..], b[2..]);
      } else {
        SameShapeBody(a[1..], b[1..]);
      }
    }
  }

  lemma {:induction false} WordedOk(t: Json, w: Word)
    requires WellFormed(t) && DoubleQuoted(t)
    ensures WellFormed(Worded(t, w)) && DoubleQuoted(Worded(t, w))
    decreases t
  {
    match t
    case Number(_) =>
    case Lit(_, _) =>
    case Text(_, body) =>
      FixWordSameShape(body, w);
      SameShapeBody(body, FixWord(body, w));
    case Node(_, items) => WordedItemsOk(items, w);
  }

  lemma {:induction false} WordedItemsOk(items: Items, w: Word)
    requires ItemsOk(items) && ItemsDoubleQuoted(items)
    ensures ItemsOk(WordedItems(items, w)) && ItemsDoubleQuoted(WordedItems(items, w))
    decreases items
  {
    match items
    case Close(_) =>
    case Item(_, key, value, rest) =>
      if key.Key? {
        FixWordSameShape(key.name, w);
        SameShapeBody(key.name, FixWord(key.name, w));
      }
      WordedOk(value, w);
      WordedItemsOk(rest, w);
  }

  // ----- Main result: what the repair returns -------------------------------------------------

  /** On the print of any tree, however sloppy, the repair returns the print of the repaired tree. */
  lemma {:induction false} RepairPrints(t: Json)
    requires WellFormed(t)
    ensures FixText(Print(t)) == Print(Fixed(t))
  {
    var t1 := Requoted(t);
    var t2 := Worded(t1, True);
    var t3 := Worded(t2, False);
    var t4 := Worded(t3, None);
    RequotePrint(t, "");
    RequotedOk(t);
    FixWordPrint(t1, "", True);
    WordedOk(t1, True);
    FixWordPrint(t2, "", False);
    WordedOk(t2, False);
    FixWordPrint(t3, "", None);
    WordedOk(t3, None);
    DropPrint(t4, "");
    FixedByStages(t);
  }

  // ----- Strict JSON (RFC 8259) ---------------------------------------------------------------

  predicate IsHex(c: char) {
    '0' <= c <= '9' || 'a' <= c <= 'f' || 'A' <= c <= 'F'
  }

  /** String contents allowed by section 7: no control characters, known escapes only; `hex` digits of a
      `\u` escape are still to come. */
  predicate Legal(body: string, hex: nat)
    decreases |body|
  {
    if hex > 0 then body != "" && IsHex(body[0]) && Legal(body[1..], hex - 1)
    else if body == "" then true
    else if body[0] == '\\' then
      |body| > 1 && if body[1] == 'u' then Legal(body[2..], 4) else body[1] in "\"\\/bfnrt" && Legal(body[2..], 0)
    else body[0] >= ' ' && Legal(body[1..], 0)
  }

  predicate StrictText(single: bool, body: string) {
    !single && BodyOk(body, '"') && Legal(body, 0)
  }

  predicate Strict(t: Json) {
    match t
    case Number(n) => NumOk(n)
    case Lit(_, python) => !python
    case Text(single, body) => StrictText(single, body)
    case Node(kind, items) => StrictItems(items, kind, true)
  }

  /** One comma between items and no other; names in objects and only there. */
  predicate StrictItems(items: Items, kind: Kind, first: bool) {
    match items
    case Close(gap) => AllSpace(gap.lead) && gap.commas == []
    case Item(gap, key, value, rest) =>
      && GapOk(gap) && |gap.commas| == (if first then 0 else 1)
      && (key.Key? <==> kind == Object) && KeyOk(key) && (key.Key? ==> StrictText(key.single, key.name))
      && Strict(value) && StrictItems(rest, kind, false)
  }

  // ----- Which trees the repair makes strict --------------------------------------------------

  /** No comma before a first item, at least one before every later item, legal string contents, names
      exactly in objects, and Python words only right after a colon and one space. */
  predicate Repairable(t: Json) {
    match t
    case Number(_) => true
    case Lit(_, python) => !python
    case Text(_, body) => Legal(body, 0)
    case Node(kind, items) => RepairableItems(items, kind, true)
  }

  predicate RepairableItems(items: Items, kind: Kind, first: bool) {
    match items
    case Close(_) => true
    case Item(gap, key, value, rest) =>
      && (first <==> gap.commas == [])
      && (key.Key? <==> kind == Object) && (key.Key? ==> Legal(key.name, 0))
      && ((AfterColonSpace(key) && value.Lit?) || Repairable(value))
      && RepairableItems(rest, kind, false)
  }

  lemma {:induction false} LegalRequote(body: string, hex: nat)
    ensures Legal(RequoteBody(body), hex) == Legal(body, hex)
    decreases |body|
  {
    var out := RequoteBody(body);
    if body == "" {
    } else if hex > 0 {
      if IsHex(body[0]) {
        assert out[1..] == RequoteBody(body[1..]);
        LegalRequote(body[1..], hex - 1);
      }
    } else if body[0] == '\\' && |body| > 1 {
      assert out[2..] == RequoteBody(body[2..]);
      LegalRequote(body[2..], if body[1] == 'u' then 4 else 0);
    } else {
      var n := if body[0] == '"' then 2 else 1;
      assert out[n..] == RequoteBody(body[1..]);
      LegalRequote(body[1..], 0);
    }
  }

  // ----- A word replacement never touches an escape -------------------------------------------

  /** The two bytes before a changed byte. */
  predicate Window(x: char, y: char) {
    (x == ':' && y == ' ') || (x == ' ' && y == 'N') || (x == 'N' && y == 'o') || (x == 'o' && y == 'n')
  }

  predicate Letter(c: char) {
    'a' <= c <= 'z' || 'A' <= c <= 'Z'
  }

  predicate Edited(a: string, b: string, i: nat)
    requires i < |a| == |b|
  {
    a[i] == b[i] || (i >= 2 && Window(a[i - 2], a[i - 1]) && Letter(a[i]) && Letter(b[i]))
  }

  predicate WordEdit(a: string, b: string) {
    |a| == |b| && forall i | 0 <= i < |a| :: Edited(a, b, i)
  }

  lemma {:induction false} FixWordEdit(s: string, w: Word)
    ensures WordEdit(s, FixWord(s, w))
    decreases |s|
  {
    var out := FixWord(s, w);
    var pat, rep := PythonPattern(w), JsonPattern(w);
    if s == "" {
    } else if OccursAt(s, pat, 0) {
      var n := |pat|;
      OccursSplits(s, pat);
      FixWordEdit(s[n..], w);
      assert |rep| == n && out == rep + FixWord(s[n..], w);
      PatternEdit(w);
      forall i | 0 <= i < |s|
        ensures Edited(s, out, i)
      {
        if i < n {
          assert Edited(pat, rep, i);
        } else {
          assert Edited(s[n..], out[n..], i - n);
        }
      }
    } else {
      FixWordEdit(s[1..], w);
      forall i | 0 <= i < |s|
        ensures Edited(s, out, i)
      {
        if i > 0 {
          assert Edited(s[1..], out[1..], i - 1);
        }
      }
    }
  }

  lemma PatternEdit(w: Word)
    ensures WordEdit(PythonPattern(w), JsonPattern(w))
  {}

  lemma {:induction false} LegalEdit(a: string, b: string, i: nat, hex: nat)
    requires WordEdit(a, b) && i <= |a| && hex <= 4
    requires hex == 4 ==> i >= 2 && a[i - 1] == 'u' && a[i - 2] == '\\'
    requires hex == 3 ==> i >= 2 && a[i - 2] == 'u'
    requires 0 < hex < 4 ==> i >= 1 && IsHex(a[i - 1])
    ensures Legal(a[i..], hex) == Legal(b[i..], hex)
    decreases |a| - i
  {
    if i < |a| {
      assert Edited(a, b, i);
      assert a[i..][1..] == a[i + 1..] && b[i..][1..] == b[i + 1..];
      if hex > 0 {
        assert a[i] == b[i];
        if IsHex(a[i]) {
          LegalEdit(a, b, i + 1, hex - 1);
        }
      } else if a[i] == '\\' {
        if i + 1 < |a| {
          assert Edited(a, b, i + 1);
          assert a[i..][2..] == a[i + 2..] && b[i..][2..] == b[i + 2..];
          LegalEdit(a, b, i + 2, if a[i + 1] == 'u' then 4 else 0);
        }
      } else {
        LegalEdit(a, b, i + 1, 0);
      }
    }
  }

  lemma LegalFixWord(s: string, w: Word)
    ensures Legal(FixWord(s, w), 0) == Legal(s, 0)
  {
    FixWordEdit(s, w);
    LegalEdit(s, FixWord(s, w), 0, 0);
    assert s[0..] == s && FixWord(s, w)[0..] == FixWord(s, w);
  }

  lemma FixedBodyStrict(single: bool, body: string)
    requires BodyOk(body, QuoteChar(single))
    ensures BodyOk(FixedBody(single, body), '"')
    ensures Legal(FixedBody(single, body), 0) == Legal(body, 0)
  {
    var b := NewBody(single, body);
    NewBodyOk(single, body);
    FixWordsSameShape(b);
    SameShapeBody(b, FixWords(b));
    LegalRequote(body, 0);
    LegalFixWord(b, True);
    LegalFixWord(FixWord(b, True), False);
    LegalFixWord(FixWord(FixWord(b, True), False), None);
  }

  lemma {:induction false} TidyGaps(gap: Gap)
    requires GapOk(gap)
    ensures GapOk(TidyItem(gap)) && GapOk(TidyClose(gap)) && TidyClose(gap).commas == []
    ensures |TidyItem(gap).commas| == if gap.commas == [] then 0 else 1
    decreases |gap.commas|
  {
    if gap.commas != [] {
      TidyGaps(Gap(gap.lead + gap.commas[0], gap.commas[1..]));
    }
  }

  /** The repaired tree is strict JSON exactly when the tree is repairable. */
  lemma {:induction false} StrictIffRepairable(t: Json)
    requires WellFormed(t)
    ensures Strict(Fixed(t)) <==> Repairable(t)
    decreases t
  {
    match t
    case Number(_) =>
    case Lit(_, _) =>
    case Text(single, body) => FixedBodyStrict(single, body);
    case Node(kind, items) => StrictItemsIffRepairable(items, kind, true);
  }

  lemma {:induction false} StrictItemsIffRepairable(items: Items, kind: Kind, first: bool)
    requires ItemsOk(items)
    ensures StrictItems(FixedItems(items), kind, first) <==> RepairableItems(items, kind, first)
    decreases items
  {
    TidyGaps(items.gap);
    if items.Item? {
      if items.key.Key? {
        FixedBodyStrict(items.key.single, items.key.name);
      }
      StrictIffRepairable(items.value);
      StrictItemsIffRepairable(items.rest, kind, false);
    }
  }

  // ----- What a text means --------------------------------------------------------------------

  /** One character of a string value; `\b`, `\u` and the like are kept as they are written. */
  datatype Glyph = Plain(c: char) | Escaped(c: char)

  datatype Value =
    | VNumber(num: Num)
    | VWord(word: Word)
    | VText(glyphs: seq<Glyph>)
    | VNode(kind: Kind, items: VItems)

  datatype VItems = VEnd | VItem(name: VName, value: Value, rest: VItems)

  datatype VName = VNoName | VName(glyphs: seq<Glyph>)

  function Unescape(c: char): Glyph {
    if c == '"' || c == '\\' || c == '/' || c == '\'' then Plain(c) else Escaped(c)
  }

  function Glyphs(body: string): seq<Glyph>
    decreases |body|
  {
    if body == "" then []
    else if body[0] == '\\' && |body| > 1 then [Unescape(body[1])] + Glyphs(body[2..])
    else [Plain(body[0])] + Glyphs(body[1..])
  }

  function Meaning(t: Json): Value {
    match t
    case Number(n) => VNumber(n)
    case Lit(w, _) => VWord(w)
    case Text(_, body) => VText(Glyphs(body))
    case Node(kind, items) => VNode(kind, ItemsMeaning(items))
  }

  function ItemsMeaning(items: Items): VItems {
    match items
    case Close(_) => VEnd
    case Item(_, key, value, rest) => VItem(KeyMeaning(key), Meaning(value), ItemsMeaning(rest))
  }

  function KeyMeaning(key: Key): VName {
    match key case NoKey => VNoName case Key(_, name, _, _) => VName(Glyphs(name))
  }

  lemma {:induction false} RequoteGlyphs(body: string)
    ensures Glyphs(RequoteBody(body)) == Glyphs(body)
    decreases |body|
  {
    var out := RequoteBody(body);
    if body == "" {
    } else if body[0] == '\\' && |body| > 1 {
      assert out[2..] == RequoteBody(body[2..]);
      RequoteGlyphs(body[2..]);
    } else {
      var n := if body[0] == '"' then 2 else 1;
      assert out[n..] == RequoteBody(body[1..]);
      RequoteGlyphs(body[1..]);
    }
  }

  lemma {:induction false} GlyphsInjective(a: string, b: string)
    requires SameShape(a, b) && Glyphs(a) == Glyphs(b)
    ensures a == b
    decreases |a|
  {
    if a != "" {
      if a[0] == '\\' && |a| > 1 {
        assert Glyphs(a)[0] == Unescape(a[1]) && Glyphs(b)[0] == Unescape(b[1]);
        assert Glyphs(a)[1..] == Glyphs(a[2..]) && Glyphs(b)[1..] == Glyphs(b[2..]);
        GlyphsInjective(a[2..], b[2..]);
        assert a == [a[0]] + [a[1]] + a[2..] && b == [b[0]] + [b[1]] + b[2..];
      } else {
        assert Glyphs(a)[0] == Plain(a[0]) && Glyphs(b)[0] == Plain(b[0]);
        assert Glyphs(a)[1..] == Glyphs(a[1..]) && Glyphs(b)[1..] == Glyphs(b[1..]);
        GlyphsInjective(a[1..], b[1..]);
      }
    }
  }

  // ----- When the repair keeps the meaning ----------------------------------------------------

  /** No Python word pattern inside the string. */
  predicate WordFree(body: string) {
    forall w :: !Contains(body, PythonPattern(w))
  }

  predicate StringsWordFree(t: Json) {
    match t
    case Number(_) => true
    case Lit(_, _) => true
    case Text(_, body) => WordFree(body)
    case Node(_, items) => ItemsWordFree(items)
  }

  predicate ItemsWordFree(items: Items) {
    match items
    case Close(_) => true
    case Item(_, key, value, rest) =>
      (key.Key? ==> WordFree(key.name)) && StringsWordFree(value) && ItemsWordFree(rest)
  }

  lemma ContainsStep(s: string, pat: string)
    requires s != "" && pat != ""
    ensures Contains(s, pat) <==> OccursAt(s, pat, 0) || Contains(s[1..], pat)
  {
    if Contains(s, pat) && !OccursAt(s, pat, 0) {
      var i: nat :| i <= |s| && OccursAt(s, pat, i);
      assert s[1..][i - 1..i - 1 + |pat|] == s[i..i + |pat|];
      assert OccursAt(s[1..], pat, i - 1);
    }
    if Contains(s[1..], pat) {
      var i: nat :| i <= |s| - 1 && OccursAt(s[1..], pat, i);
      assert s[1..][i..i + |pat|] == s[i + 1..i + 1 + |pat|];
      assert OccursAt(s, pat, i + 1);
    }
  }

  function Uppers(s: string): nat {
    if s == "" then 0 else (if 'A' <= s[0] <= 'Z' then 1 else 0) + Uppers(s[1..])
  }

  lemma {:induction false} UppersConcat(a: string, b: string)
    ensures Uppers(a + b) == Uppers(a) + Uppers(b)
  {
    if a == "" {
      assert a + b == b;
    } else {
      assert (a + b)[1..] == a[1..] + b;
      UppersConcat(a[1..], b);
    }
  }

  lemma {:induction false} NoUppers(s: string)
    requires forall i | 0 <= i < |s| :: !('A' <= s[i] <= 'Z')
    ensures Uppers(s) == 0
  {
    if s != "" {
      NoUppers(s[1..]);
    }
  }

  lemma PatternUppers(w: Word)
    ensures Uppers(PythonPattern(w)) == 1 && Uppers(JsonPattern(w)) == 0
  {
    var pat := PythonPattern(w);
    NoUppers(JsonPattern(w));
    NoUppers(pat[..2]);
    NoUppers(pat[3..]);
    UppersConcat(pat[..2], pat[2..]);
    assert pat[2..][1..] == pat[3..] && pat == pat[..2] + pat[2..];
  }

  /** A replacement pass either finds nothing or lowers the number of capitals. */
  lemma {:induction false} FixWordUppers(s: string, w: Word)
    ensures Uppers(FixWord(s, w)) <= Uppers(s)
    ensures if Contains(s, PythonPattern(w)) then Uppers(FixWord(s, w)) < Uppers(s) else FixWord(s, w) == s
    decreases |s|
  {
    var pat := PythonPattern(w);
    if s != "" {
      ContainsStep(s, pat);
      if OccursAt(s, pat, 0) {
        var rest := s[|pat|..];
        OccursSplits(s, pat);
        FixWordUppers(rest, w);
        UppersConcat(pat, rest);
        UppersConcat(JsonPattern(w), FixWord(rest, w));
        PatternUppers(w);
      } else {
        FixWordUppers(s[1..], w);
        assert FixWord(s, w)[1..] == FixWord(s[1..], w);
      }
    }
  }

  lemma FixWordsFixpoint(s: string)
    ensures FixWords(s) == s <==> WordFree(s)
  {
    var t := FixWord(s, True);
    var u := FixWord(t, False);
    FixWordUppers(s, True);
    FixWordUppers(t, False);
    FixWordUppers(u, None);
    if FixWords(s) == s {
      forall w
        ensures !Contains(s, PythonPattern(w))
      {
        match w case True => case False => case None =>
      }
    }
  }

  /** Requoting neither makes nor breaks an occurrence of a text free of backslashes and double quotes. */
  lemma {:induction false} RequotePrefix(body: string, pat: string)
    requires '\\' !in pat && '"' !in pat
    ensures OccursAt(RequoteBody(body), pat, 0) <==> OccursAt(body, pat, 0)
    decreases |pat|
  {
    var out := RequoteBody(body);
    if pat != "" && body != "" {
      PrefixStep(body, pat);
      PrefixStep(out, pat);
      if out[0] == pat[0] {
        assert out[1..] == RequoteBody(body[1..]);
        RequotePrefix(body[1..], pat[1..]);
      }
    }
  }

  lemma PrefixStep(s: string, pat: string)
    requires s != "" && pat != ""
    ensures OccursAt(s, pat, 0) <==> s[0] == pat[0] && OccursAt(s[1..], pat[1..], 0)
  {
    if |pat| <= |s| {
      assert s[0..|pat|] == [s[0]] + s[1..][0..|pat| - 1];
      assert pat == [pat[0]] + pat[1..];
    }
  }

  lemma {:induction false} RequoteContains(body: string, pat: string)
    requires pat != "" && '\\' !in pat && '"' !in pat
    ensures Contains(RequoteBody(body), pat) <==> Contains(body, pat)
    decreases |body|
  {
    var out := RequoteBody(body);
    if body != "" {
      ContainsStep(body, pat);
      ContainsStep(out, pat);
      RequotePrefix(body, pat);
      if body[0] == '\\' && |body| > 1 {
        var out1 := out[1..];
        assert out1 == [body[1]] + RequoteBody(body[2..]) && out1[1..] == RequoteBody(body[2..]);
        ContainsStep(body[1..], pat);
        ContainsStep(out1, pat);
        assert body[1..][1..] == body[2..];
        RequoteContains(body[2..], pat);
        PrefixStep(body[1..], pat);
        PrefixStep(out1, pat);
        RequotePrefix(body[2..], pat[1..]);
      } else if body[0] == '"' {
        assert out[1..][1..] == RequoteBody(body[1..]);
        ContainsStep(out[1..], pat);
        RequoteContains(body[1..], pat);
        PrefixStep(out[1..], pat);
      } else {
        assert out[1..] == RequoteBody(body[1..]);
        RequoteContains(body[1..], pat);
      }
    }
  }

  lemma FixedBodyMeaning(single: bool, body: string)
    ensures Glyphs(FixedBody(single, body)) == Glyphs(body) <==> WordFree(body)
  {
    var b := NewBody(single, body);
    RequoteGlyphs(body);
    FixWordsGlyphs(b);
    RequoteWordFree(body);
  }

  lemma FixWordsGlyphs(b: string)
    ensures Glyphs(FixWords(b)) == Glyphs(b) <==> WordFree(b)
  {
    var out := FixWords(b);
    FixWordsSameShape(b);
    FixWordsFixpoint(b);
    if Glyphs(out) == Glyphs(b) {
      GlyphsInjective(b, out);
    }
  }

  lemma RequoteWordFree(body: string)
    ensures WordFree(RequoteBody(body)) <==> WordFree(body)
  {
    forall w
      ensures Contains(RequoteBody(body), PythonPattern(w)) <==> Contains(body, PythonPattern(w))
    {
      PatternPlain(w);
      RequoteContains(body, PythonPattern(w));
    }
  }

  lemma PatternPlain(w: Word)
    ensures '\\' !in PythonPattern(w) && '"' !in PythonPattern(w) && PythonPattern(w) != ""
  {}

  /** Main result: the repair keeps the meaning exactly when no string holds a Python word after `": "`. */
  lemma {:induction false} MeaningIffWordFree(t: Json)
    ensures Meaning(Fixed(t)) == Meaning(t) <==> StringsWordFree(t)
    decreases t
  {
    match t
    case Number(_) =>
    case Lit(_, _) =>
    case Text(single, body) => FixedBodyMeaning(single, body);
    case Node(_, items) => ItemsMeaningIffWordFree(items);
  }

  lemma {:induction false} ItemsMeaningIffWordFree(items: Items)
    ensures ItemsMeaning(FixedItems(items)) == ItemsMeaning(items) <==> ItemsWordFree(items)
    decreases items
  {
    if items.Item? {
      if items.key.Key? {
        FixedBodyMeaning(items.key.single, items.key.name);
      }
      MeaningIffWordFree(items.value);
      ItemsMeaningIffWordFree(items.rest);
    }
  }

  // ----- On strict JSON -----------------------------------------------------------------------

  lemma {:induction false} StrictIsClean(t: Json)
    requires Strict(t)
    ensures Tidied(t) == t && WellFormed(t) && DoubleQuoted(t) && Repairable(t)
    decreases t
  {
    if t.Node? {
      StrictItemsClean(t.items, t.kind, true);
    }
  }

  lemma {:induction false} StrictItemsClean(items: Items, kind: Kind, first: bool)
    requires StrictItems(items, kind, first)
    ensures TidiedItems(items) == items && ItemsOk(items) && ItemsDoubleQuoted(items)
    ensures RepairableItems(items, kind, first)
    decreases items
  {
    if items.Item? {
      StrictIsClean(items.value);
      StrictItemsClean(items.rest, kind, false);
    }
  }

  /** `removeTrailingCommas` is the identity on strict JSON. */
  lemma StrictIsFixed(t: Json)
    requires Strict(t)
    ensures DropCommas(Print(t), false) == Print(t)
  {
    StrictIsClean(t);
    DropPrint(t, "");
  }
}
