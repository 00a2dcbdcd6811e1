/** The CREATE TABLE layout and identifier quoting of pkg/schema/dump.go. */
module Ddl {
  import opened Strings
  import opened Schema

  // ----- quoteIdent ---------------------------------------------------------------------------

  predicate StartChar(c: char) {
    'a' <= c <= 'z' || c == '_'
  }

  predicate NeedsQuoting(s: string) {
    exists i | 0 <= i < |s| :: !StartChar(s[i]) && (i == 0 || !('0' <= s[i] <= '9'))
  }

  function QuoteIdent(s: string): string {
    if NeedsQuoting(s) then "\"" + ReplaceAll(s, "\"", "\"\"") + "\"" else s
  }

  /** Left without quotes are exactly the names of small letters, underscores and, but for the first character,
      digits. */
  lemma QuotedIff(s: string)
    ensures QuoteIdent(s) == s <==>
              forall i | 0 <= i < |s| ::
                s[i] in LOWER || s[i] == '_' || (i > 0 && s[i] in "0123456789")
  {
    forall i | 0 <= i < |s|
      ensures s[i] in LOWER <==> 'a' <= s[i] <= 'z'
      ensures s[i] in "0123456789" <==> '0' <= s[i] <= '9'
    {
      LetterOrDigit(s[i]);
    }
    assert |QuoteIdent(s)| > |s| <==> NeedsQuoting(s) by {
      DoublingGrows(s);
    }
  }

  lemma LetterOrDigit(c: char)
    ensures c in LOWER <==> 'a' <= c <= 'z'
    ensures c in "0123456789" <==> '0' <= c <= '9'
  {
    if 'a' <= c <= 'z' {
      UpperAt(c as int - 'a' as int);
    }
    if k :| 0 <= k < 26 && LOWER[k] == c {
      UpperAt(k);
    }
  }

  lemma {:induction false} DoublingGrows(s: string)
    ensures |ReplaceAll(s, "\"", "\"\"")| >= |s|
  {
    if s != "" {
      DoublingGrows(s[1..]);
      assert s[0..1] == [s[0]];
    }
  }

  // ----- Reading identifiers: section 4.1.1 of the PostgreSQL 16 documentation ----------------

  datatype Ident = Ident(name: string) | NotIdent

  /** The inside of a quoted identifier after its opening quote: a doubled quote is one quote, a single one
      closes and must be the last character; no character with code zero. */
  function Quoted(s: string): Ident
    decreases |s|
  {
    if s == "" || s[0] == '\0' then NotIdent
    else if s[0] != '"' then Cons(s[0], Quoted(s[1..]))
    else if |s| > 1 && s[1] == '"' then Cons('"', Quoted(s[2..]))
    else if |s| == 1 then Ident("")
    else NotIdent
  }

  function Cons(c: char, rest: Ident): Ident {
    match rest case NotIdent => NotIdent case Ident(name) => Ident([c] + name)
  }

  predicate UnquotedChar(c: char, first: bool) {
    'a' <= c <= 'z' || 'A' <= c <= 'Z' || c == '_' || c > '\U{007F}' || (!first && ('0' <= c <= '9' || c == '$'))
  }

  /** Quoted names are taken as they are, unquoted ones folded to lower case; a quoted name is not empty. */
  function Decode(text: string): Ident {
    if text == "" then NotIdent
    else if text[0] == '"' then (if Quoted(text[1..]) == Ident("") then NotIdent else Quoted(text[1..]))
    else if forall i | 0 <= i < |text| :: UnquotedChar(text[i], i == 0) then Ident(ToLower(text))
    else NotIdent
  }

  lemma {:induction false} QuotedReadsBack(s: string)
    ensures Quoted(ReplaceAll(s, "\"", "\"\"") + "\"") == if '\0' in s then NotIdent else Ident(s)
    decreases |s|
  {
    var out := ReplaceAll(s, "\"", "\"\"");
    if s != "" {
      QuotedReadsBack(s[1..]);
      var rest := ReplaceAll(s[1..], "\"", "\"\"");
      assert s == [s[0]] + s[1..] && s[0..1] == [s[0]];
      if s[0] == '"' {
        assert out == "\"\"" + rest;
        assert (out + "\"")[2..] == rest + "\"";
      } else {
        assert out == [s[0]] + rest;
        assert (out + "\"")[1..] == rest + "\"";
      }
    }
  }

  /** An identifier decodes back from its quoted form exactly when it is one: nonempty and without the
      character zero. */
  lemma IdentRoundTrips(s: string)
    ensures Decode(QuoteIdent(s)) == Ident(s) <==> s != "" && '\0' !in s
  {
    if NeedsQuoting(s) {
      var text := QuoteIdent(s);
      assert text[1..] == ReplaceAll(s, "\"", "\"\"") + "\"";
      QuotedReadsBack(s);
    } else if s != "" {
      assert StartChar(s[0]);
      assert forall i | 0 <= i < |s| :: StartChar(s[i]) || '0' <= s[i] <= '9';
      assert ToLower(s) == s;
    }
  }

  // ----- The table body -----------------------------------------------------------------------

  function QuoteAll(names: seq<string>): seq<string> {
    seq(|names|, i requires 0 <= i < |names| => QuoteIdent(names[i]))
  }

  function ColumnText(c: Column): string {
    var isIdentity := Contains(c.defaultValue, "nextval(");
    var defaultVal := if isIdentity then "" else c.defaultValue;
    "    " + QuoteIdent(c.name) + " " + c.dataType
    + (if isIdentity then " GENERATED BY DEFAULT AS IDENTITY" else "")
    + (if !c.isNullable then " NOT NULL" else "")
    + (if defaultVal != "" then " DEFAULT " + defaultVal else "")
  }

  function PrimaryKeyText(pk: seq<string>): string {
    "    PRIMARY KEY (" + Join(QuoteAll(pk), ", ") + ")"
  }

  /** Only as many referenced columns are quoted as there are columns; further ones come out empty. */
  function ForeignKeyText(fk: ForeignKey, schema: string, mapName: string -> string): string {
    var refCols := seq(|fk.referencedCols|, j requires 0 <= j < |fk.referencedCols| =>
                     if j < |fk.columns| then QuoteIdent(fk.referencedCols[j]) else "");
    "    FOREIGN KEY (" + Join(QuoteAll(fk.columns), ", ") + ") REFERENCES "
    + QuoteIdent(schema) + "." + QuoteIdent(mapName(fk.referencedTable)) + " (" + Join(refCols, ", ") + ")"
  }

  function CheckText(ck: CheckConstraint): string {
    "    CONSTRAINT " + QuoteIdent(ck.name) + " CHECK (" + ck.expression + ")"
  }

  function ColumnTexts(cs: seq<Column>): seq<string> {
    if cs == [] then [] else [ColumnText(cs[0])] + ColumnTexts(cs[1..])
  }

  function PrimaryKeyTexts(pk: seq<string>): seq<string> {
    if pk == [] then [] else [PrimaryKeyText(pk)]
  }

  function ForeignKeyTexts(fks: seq<ForeignKey>, schema: string, mapName: string -> string): seq<string> {
    if fks == [] then [] else [ForeignKeyText(fks[0], schema, mapName)] + ForeignKeyTexts(fks[1..], schema, mapName)
  }

  function CheckTexts(cks: seq<CheckConstraint>): seq<string> {
    if cks == [] then [] else [CheckText(cks[0])] + CheckTexts(cks[1..])
  }

  /** All items of the body, in order. */
  function Items(t: Table, schema: string, mapName: string -> string): seq<string> {
    ColumnTexts(t.columns) + PrimaryKeyTexts(t.primaryKey) + ForeignKeyTexts(t.foreignKeys, schema, mapName)
    + CheckTexts(t.checks)
  }

  lemma {:induction false} ColumnTextsAt(cs: seq<Column>, i: nat)
    requires i < |cs|
    ensures |ColumnTexts(cs)| == |cs| && ColumnTexts(cs)[i] == ColumnText(cs[i])
  {
    if |cs| > 1 {
      ColumnTextsAt(cs[1..], if i > 0 then i - 1 else 0);
    }
  }

  lemma {:induction false} ForeignKeyTextsAt(fks: seq<ForeignKey>, schema: string, mapName: string -> string, i: nat)
    requires i < |fks|
    ensures var texts := ForeignKeyTexts(fks, schema, mapName);
            |texts| == |fks| && texts[i] == ForeignKeyText(fks[i], schema, mapName)
  {
    if |fks| > 1 {
      ForeignKeyTextsAt(fks[1..], schema, mapName, if i > 0 then i - 1 else 0);
    }
  }

  lemma {:induction false} CheckTextsAt(cks: seq<CheckConstraint>, i: nat)
    requires i < |cks|
    ensures |CheckTexts(cks)| == |cks| && CheckTexts(cks)[i] == CheckText(cks[i])
  {
    if |cks| > 1 {
      CheckTextsAt(cks[1..], if i > 0 then i - 1 else 0);
    }
  }

  /** The items are one for every column, one for a primary key if there is one, and one for every foreign key and
      every check, in this order. */
  lemma ItemsAt(t: Table, schema: string, mapName: string -> string)
    ensures exists cs, pk, fks, cks ::
              ItemsSplit(t, schema, mapName, cs, pk, fks, cks) && Items(t, schema, mapName) == cs + pk + fks + cks
  {
    var cs, pk := ColumnTexts(t.columns), PrimaryKeyTexts(t.primaryKey);
    var fks, cks := ForeignKeyTexts(t.foreignKeys, schema, mapName), CheckTexts(t.checks);
    forall i | 0 <= i < |t.columns|
      ensures |cs| == |t.columns| && cs[i] == ColumnText(t.columns[i])
    {
      ColumnTextsAt(t.columns, i);
    }
    forall i | 0 <= i < |t.foreignKeys|
      ensures |fks| == |t.foreignKeys| && fks[i] == ForeignKeyText(t.foreignKeys[i], schema, mapName)
    {
      ForeignKeyTextsAt(t.foreignKeys, schema, mapName, i);
    }
    forall i | 0 <= i < |t.checks|
      ensures |cks| == |t.checks| && cks[i] == CheckText(t.checks[i])
    {
      CheckTextsAt(t.checks, i);
    }
    assert ItemsSplit(t, schema, mapName, cs, pk, fks, cks);
  }

  predicate ItemsSplit(t: Table, schema: string, mapName: string -> string, cs: seq<string>, pk: seq<string>,
                       fks: seq<string>, cks: seq<string>)
  {
    && |cs| == |t.columns| && (forall i | 0 <= i < |cs| :: cs[i] == ColumnText(t.columns[i]))
    && pk == (if t.primaryKey == [] then [] else [PrimaryKeyText(t.primaryKey)])
    && |fks| == |t.foreignKeys|
    && (forall i | 0 <= i < |fks| :: fks[i] == ForeignKeyText(t.foreignKeys[i], schema, mapName))
    && |cks| == |t.checks| && (forall i | 0 <= i < |cks| :: cks[i] == CheckText(t.checks[i]))
  }

  /** The body as one would say it: the items with a comma and a newline between them. */
  function Body(items: seq<string>): string {
    if items == [] then "" else Join(items, ",\n") + "\n"
  }

  /** One line an item, a comma after each but the very last; `more` says that other items follow. */
  function Lines(items: seq<string>, more: bool): string {
    if items == [] then ""
    else items[0] + (if |items| > 1 || more then "," else "") + "\n" + Lines(items[1..], more)
  }

  lemma {:induction false} LinesConcat(a: seq<string>, b: seq<string>, more: bool)
    ensures Lines(a + b, more) == Lines(a, more || b != []) + Lines(b, more)
    decreases |a|
  {
    if a == [] {
      assert a + b == b;
    } else {
      assert (a + b)[1..] == a[1..] + b;
      LinesConcat(a[1..], b, more);
      var head := a[0] + (if |a + b| > 1 || more then "," else "") + "\n";
      var rest := Lines(a[1..], more || b != []);
      assert head + (rest + Lines(b, more)) == head + rest + Lines(b, more);
    }
  }

  lemma {:induction false} LinesAreJoined(items: seq<string>)
    ensures Lines(items, false) == Body(items)
    decreases |items|
  {
    if |items| > 1 {
      LinesAreJoined(items[1..]);
      assert items[0] + "," + "\n" == items[0] + ",\n";
      assert items[0] + ",\n" + (Join(items[1..], ",\n") + "\n") == items[0] + ",\n" + Join(items[1..], ",\n") + "\n";
    } else if |items| == 1 {
      assert Lines(items[1..], false) == "" && items[0] + "" + "\n" + "" == items[0] + "\n";
    }
  }

  lemma LinesStep(out: string, items: seq<string>, more: bool)
    requires items != []
    ensures out + Lines(items, more) ==
            (out + items[0] + (if |items| > 1 || more then "," else "") + "\n") + Lines(items[1..], more)
  {
    var comma := if |items| > 1 || more then "," else "";
    assert out + (items[0] + comma + "\n" + Lines(items[1..], more)) ==
           out + items[0] + comma + "\n" + Lines(items[1..], more);
  }

  method ColumnLines(cs: seq<Column>, more: bool) returns (b: string)
    ensures b == Lines(ColumnTexts(cs), more)
  {
    b := "";
    ghost var goal := Lines(ColumnTexts(cs), more);
    assert cs[0..] == cs;
    for i := 0 to |cs|
      invariant goal == b + Lines(ColumnTexts(cs[i..]), more)
    {
      assert cs[i..][1..] == cs[i + 1..];
      LinesStep(b, ColumnTexts(cs[i..]), more);
      b := b + ColumnText(cs[i]);
      if i < |cs| - 1 || more {
        b := b + ",";
      } else {
        assert b + "" == b;
      }
      b := b + "\n";
    }
  }

  method ForeignKeyLines(fks: seq<ForeignKey>, more: bool, schema: string,
                         mapName: string -> string) returns (b: string)
    requires forall fk | fk in fks :: |fk.columns| <= |fk.referencedCols|
    ensures b == Lines(ForeignKeyTexts(fks, schema, mapName), more)
  {
    b := "";
    ghost var goal := Lines(ForeignKeyTexts(fks, schema, mapName), more);
    assert fks[0..] == fks;
    for i := 0 to |fks|
      invariant goal == b + Lines(ForeignKeyTexts(fks[i..], schema, mapName), more)
    {
      assert fks[i..][1..] == fks[i + 1..];
      LinesStep(b, ForeignKeyTexts(fks[i..], schema, mapName), more);
      b := b + ForeignKeyText(fks[i], schema, mapName);
      if i < |fks| - 1 || more {
        b := b + ",";
      } else {
        assert b + "" == b;
      }
      b := b + "\n";
    }
  }

  method CheckLines(cks: seq<CheckConstraint>) returns (b: string)
    ensures b == Lines(CheckTexts(cks), false)
  {
    b := "";
    ghost var goal := Lines(CheckTexts(cks), false);
    assert cks[0..] == cks;
    for i := 0 to |cks|
      invariant goal == b + Lines(CheckTexts(cks[i..]), false)
    {
      assert cks[i..][1..] == cks[i + 1..];
      LinesStep(b, CheckTexts(cks[i..]), false);
      b := b + CheckText(cks[i]);
      if i < |cks| - 1 {
        b := b + ",";
      } else {
        assert b + "" == b;
      }
      b := b + "\n";
    }
  }

  method PrimaryKeyLine(pk: seq<string>, more: bool) returns (b: string)
    ensures b == Lines(PrimaryKeyTexts(pk), more)
  {
    b := "";
    if |pk| > 0 {
      LinesStep("", PrimaryKeyTexts(pk), more);
      b := PrimaryKeyText(pk);
      if more {
        b := b + ",";
      } else {
        assert b + "" == b;
      }
      b := b + "\n";
      assert Lines(PrimaryKeyTexts(pk)[1..], more) == "" && "" + b + "" == b;
    }
  }

  lemma LinesOfFour(cs: seq<string>, pk: seq<string>, fks: seq<string>, cks: seq<string>)
    ensures Lines(cs, pk != [] || fks != [] || cks != []) + Lines(pk, fks != [] || cks != []) + Lines(fks, cks != [])
            + Lines(cks, false) == Body(cs + pk + fks + cks)
  {
    LinesConcat(cs + pk + fks, cks, false);
    LinesConcat(cs + pk, fks, cks != []);
    LinesConcat(cs, pk, fks != [] || cks != []);
    LinesAreJoined(cs + pk + fks + cks);
  }

  /** The four look-ahead conditions on commas make exactly the plain join of the items. */
  method TableBody(t: Table, schema: string, mapName: string -> string) returns (b: string)
    requires forall fk | fk in t.foreignKeys :: |fk.columns| <= |fk.referencedCols|
    ensures b == Body(Items(t, schema, mapName))
  {
    var columns := ColumnLines(t.columns, |t.primaryKey| > 0 || |t.foreignKeys| > 0 || |t.checks| > 0);
    var key := PrimaryKeyLine(t.primaryKey, |t.foreignKeys| > 0 || |t.checks| > 0);
    var foreignKeys := ForeignKeyLines(t.foreignKeys, |t.checks| > 0, schema, mapName);
    var checks := CheckLines(t.checks);
    b := columns + key + foreignKeys + checks;
    LinesOfFour(ColumnTexts(t.columns), PrimaryKeyTexts(t.primaryKey),
                ForeignKeyTexts(t.foreignKeys, schema, mapName), CheckTexts(t.checks));
  }
}
