/** Reading the items of a CREATE TABLE body back: what pkg/schema/dump.go writes of a column, a key or a check says
    what the column, key or check is. */
module DdlReader {
  import opened Strings
  import opened Schema
  import opened Ddl

  // ----- Names --------------------------------------------------------------------------------

  datatype Read<T> = Fail | Got(value: T, rest: string)

  /** The inside of a quoted identifier after its opening quote, up to the closing one. */
  function ReadQuoted(s: string): (r: Read<string>)
    ensures r.Got? ==> |r.rest| < |s|
    decreases |s|
  {
    if s == "" || s[0] == '\0' then Fail
    else if s[0] != '"' then Prefixed(s[0], ReadQuoted(s[1..]))
    else if |s| > 1 && s[1] == '"' then Prefixed('"', ReadQuoted(s[2..]))
    else Got("", s[1..])
  }

  function Prefixed(c: char, r: Read<string>): Read<string> {
    match r case Fail => Fail case Got(name, rest) => Got([c] + name, rest)
  }

  /** How many characters of an unquoted identifier the text starts with. */
  function Run(s: string, first: bool): (n: nat)
    ensures n <= |s|
  {
    if s != "" && UnquotedChar(s[0], first) then 1 + Run(s[1..], false) else 0
  }

  function ReadName(s: string): (r: Read<string>)
    ensures r.Got? ==> |r.rest| < |s|
  {
    if s != "" && s[0] == '"' then ReadQuoted(s[1..])
    else if Run(s, true) == 0 then Fail
    else Got(ToLower(s[..Run(s, true)]), s[Run(s, true)..])
  }

  /** Names with a comma and a blank between them, and the closing parenthesis. */
  function ReadNames(s: string): (r: Read<seq<string>>)
    decreases |s|
  {
    if StartsWith(s, ")") then Got([], s[1..])
    else match ReadName(s)
      case Fail => Fail
      case Got(name, rest) =>
        if StartsWith(rest, ")") then Got([name], rest[1..])
        else if !StartsWith(rest, ", ") then Fail
        else match ReadNames(rest[2..]) case Fail => Fail case Got(names, end) => Got([name] + names, end)
  }

  predicate NameOk(name: string) {
    name != "" && '\0' !in name
  }

  /** No character that goes on with a name. */
  predicate EndsName(tail: string) {
    tail == "" || tail[0] in " ,.()"
  }

  lemma {:induction false} QuotedRead(s: string, tail: string)
    requires '\0' !in s && EndsName(tail)
    ensures ReadQuoted(ReplaceAll(s, "\"", "\"\"") + ("\"" + tail)) == Got(s, tail)
    decreases |s|
  {
    var out := ReplaceAll(s, "\"", "\"\"");
    if s == "" {
      assert out + ("\"" + tail) == "\"" + tail;
    } else {
      QuotedRead(s[1..], tail);
      var rest := ReplaceAll(s[1..], "\"", "\"\"");
      assert s == [s[0]] + s[1..] && s[0..1] == [s[0]];
      var head := if s[0] == '"' then "\"\"" else [s[0]];
      assert out == head + rest;
      Assoc(head, rest, "\"" + tail);
      assert (head + (rest + ("\"" + tail)))[|head|..] == rest + ("\"" + tail);
    }
  }

  lemma {:induction false} RunIs(s: string, tail: string, first: bool)
    requires EndsName(tail) && forall i | 0 <= i < |s| :: UnquotedChar(s[i], first && i == 0)
    ensures Run(s + tail, first) == |s|
    decreases |s|
  {
    if s == "" {
      assert s + tail == tail;
    } else {
      assert (s + tail)[1..] == s[1..] + tail;
      RunIs(s[1..], tail, false);
    }
  }

  lemma Starts(literal: string, rest: string)
    ensures StartsWith(literal + rest, literal) && (literal + rest)[|literal|..] == rest
  {}

  lemma StartsNot(s: string, literal: string, i: nat)
    requires i < |literal| && i < |s| && s[i] != literal[i]
    ensures !StartsWith(s, literal)
  {
    assert |literal| <= |s| ==> s[..|literal|][i] == s[i];
  }

  lemma PlainNameRead(name: string, tail: string)
    requires name != "" && !NeedsQuoting(name) && EndsName(tail)
    ensures StartChar(name[0]) && ReadName(name + tail) == Got(name, tail)
  {
    assert StartChar(name[0]);
    assert forall i | 0 <= i < |name| :: StartChar(name[i]) || '0' <= name[i] <= '9';
    RunIs(name, tail, true);
    Starts(name, tail);
    assert ToLower(name) == name;
  }

  lemma NameRead(name: string, tail: string)
    requires NameOk(name) && EndsName(tail)
    ensures ReadName(QuoteIdent(name) + tail) == Got(name, tail)
    ensures QuoteIdent(name) != "" && (StartChar(QuoteIdent(name)[0]) || QuoteIdent(name)[0] == '"')
  {
    if NeedsQuoting(name) {
      var inner := ReplaceAll(name, "\"", "\"\"");
      QuotedRead(name, tail);
      Assoc("\"" + inner, "\"", tail);
      Assoc("\"", inner, "\"" + tail);
      Starts("\"", inner + ("\"" + tail));
    } else {
      PlainNameRead(name, tail);
    }
  }

  predicate NamesOk(names: seq<string>) {
    forall n | n in names :: NameOk(n)
  }

  /** The list as text, from its first name on. */
  function NamesText(names: seq<string>, tail: string): string {
    if names == [] then ")" + tail
    else QuoteIdent(names[0]) + (if |names| == 1 then ")" + tail else ", " + NamesText(names[1..], tail))
  }

  lemma {:induction false} NamesTextIs(names: seq<string>, tail: string)
    ensures Join(QuoteAll(names), ", ") + (")" + tail) == NamesText(names, tail)
    decreases |names|
  {
    if |names| > 1 {
      NamesTextIs(names[1..], tail);
      assert QuoteAll(names)[1..] == QuoteAll(names[1..]);
      var rest := Join(QuoteAll(names[1..]), ", ");
      Assoc(QuoteIdent(names[0]) + ", ", rest, ")" + tail);
      Assoc(QuoteIdent(names[0]), ", ", rest + (")" + tail));
    }
  }

  lemma LastNameRead(name: string, tail: string)
    requires NameOk(name)
    ensures ReadNames(QuoteIdent(name) + (")" + tail)) == Got([name], tail)
  {
    NameRead(name, ")" + tail);
    StartsNot(QuoteIdent(name) + (")" + tail), ")", 0);
    Starts(")", tail);
  }

  lemma NextNameRead(name: string, text: string, names: seq<string>, tail: string)
    requires NameOk(name) && ReadNames(text) == Got(names, tail)
    ensures ReadNames(QuoteIdent(name) + (", " + text)) == Got([name] + names, tail)
  {
    NameRead(name, ", " + text);
    StartsNot(QuoteIdent(name) + (", " + text), ")", 0);
    StartsNot(", " + text, ")", 0);
    Starts(", ", text);
  }

  lemma NamesTextParts(names: seq<string>, tail: string)
    requires NamesOk(names) && names != []
    ensures NameOk(names[0]) && NamesOk(names[1..]) && names == [names[0]] + names[1..]
    ensures NamesText(names, tail) ==
            QuoteIdent(names[0]) + (if |names| == 1 then ")" + tail else ", " + NamesText(names[1..], tail))
  {
    assert names[0] in names && forall n | n in names[1..] :: n in names;
  }

  lemma EmptyRead(tail: string)
    ensures ReadNames(")" + tail) == Got([], tail)
  {
    Starts(")", tail);
  }

  lemma {:induction false} NamesTextRead(names: seq<string>, tail: string)
    requires NamesOk(names)
    ensures ReadNames(NamesText(names, tail)) == Got(names, tail)
    decreases |names|
  {
    if names == [] {
      EmptyRead(tail);
    } else {
      NamesTextParts(names, tail);
      if |names| == 1 {
        LastNameRead(names[0], tail);
        assert names == [names[0]];
      } else {
        NamesTextRead(names[1..], tail);
        NextNameRead(names[0], NamesText(names[1..], tail), names[1..], tail);
      }
    }
  }

  lemma NamesRead(names: seq<string>, tail: string)
    requires NamesOk(names)
    ensures ReadNames(Join(QuoteAll(names), ", ") + (")" + tail)) == Got(names, tail)
  {
    NamesTextIs(names, tail);
    NamesTextRead(names, tail);
  }

  // ----- Columns ------------------------------------------------------------------------------

  datatype Item =
    | AColumn(name: string, dataType: string, identity: bool, notNull: bool, defaultValue: string)
    | AKey(columns: seq<string>)
    | AForeignKey(columns: seq<string>, schema: string, table: string, referenced: seq<string>)
    | ACheck(name: string, expression: string)
    | Unreadable

  const IDENTITY := " GENERATED BY DEFAULT AS IDENTITY"
  const NOT_NULL := " NOT NULL"
  const DEFAULT := " DEFAULT "

  /** The type has none of the capital letters that begin a clause. */
  predicate PlainType(t: string) {
    'D' !in t && 'G' !in t && 'N' !in t
  }

  /** The length of the type: up to the blank before the first such letter. */
  function TypeEnd(s: string, i: nat): (n: nat)
    requires i <= |s|
    ensures n <= |s|
    decreases |s| - i
  {
    if i == |s| then |s| else if s[i] in "DGN" then (if i > 0 then i - 1 else 0) else TypeEnd(s, i + 1)
  }

  /** What stands in front of the rest, if anything does. */
  function After(s: string, literal: string): string {
    if StartsWith(s, literal) then s[|literal|..] else s
  }

  function ReadColumn(name: string, s: string): Item {
    var clauses := s[TypeEnd(s, 0)..];
    var s1 := After(clauses, IDENTITY);
    var s2 := After(s1, NOT_NULL);
    AColumn(name, s[..TypeEnd(s, 0)], StartsWith(clauses, IDENTITY), StartsWith(s1, NOT_NULL),
            if StartsWith(s2, DEFAULT) then s2[|DEFAULT|..] else "")
  }

  lemma {:induction false} TypeEndIs(t: string, clauses: string, i: nat)
    requires PlainType(t) && i <= |t|
    requires clauses == "" || (|clauses| > 1 && clauses[0] == ' ' && clauses[1] in "DGN")
    ensures TypeEnd(t + clauses, i) == |t|
    decreases |t| - i
  {
    var s := t + clauses;
    if i < |t| {
      assert s[i] == t[i];
      TypeEndIs(t, clauses, i + 1);
    } else if clauses != "" {
      assert s[i] == ' ' && s[i + 1] == clauses[1];
    }
  }

  function Clauses(identity: bool, notNull: bool, value: string): string {
    (if identity then IDENTITY else "")
    + ((if notNull then NOT_NULL else "") + (if value != "" then DEFAULT + value else ""))
  }

  lemma ClausesRead(identity: bool, notNull: bool, value: string)
    requires identity ==> value == ""
    ensures var s := Clauses(identity, notNull, value);
            var s1 := After(s, IDENTITY);
            var s2 := After(s1, NOT_NULL);
            && (StartsWith(s, IDENTITY) <==> identity) && (StartsWith(s1, NOT_NULL) <==> notNull)
            && (if StartsWith(s2, DEFAULT) then s2[|DEFAULT|..] else "") == value
            && (s == "" || (|s| > 1 && s[0] == ' ' && s[1] in "DGN"))
  {
    var last := if value != "" then DEFAULT + value else "";
    var mid := (if notNull then NOT_NULL else "") + last;
    var s := Clauses(identity, notNull, value);
    assert last != "" ==> last[1] == 'D' && last[|DEFAULT|..] == value;
    assert mid != "" ==> mid[1] == 'N' || mid[1] == 'D';
    assert After(mid, NOT_NULL) == last by {
      if notNull {
        assert mid == NOT_NULL + last && mid[..|NOT_NULL|] == NOT_NULL;
      } else {
        assert mid == last && (mid != "" ==> mid[1] != NOT_NULL[1]);
      }
    }
    if identity {
      assert s == IDENTITY + mid && s[..|IDENTITY|] == IDENTITY;
    } else {
      assert s == mid && (s != "" ==> s[1] != IDENTITY[1]);
    }
  }

  // ----- Items --------------------------------------------------------------------------------

  const REFERENCES := " REFERENCES "

  function ReadForeignKey(s: string): Item {
    match ReadNames(s)
    case Fail => Unreadable
    case Got(columns, s1) =>
      if !StartsWith(s1, REFERENCES) then Unreadable
      else match ReadName(s1[|REFERENCES|..])
        case Fail => Unreadable
        case Got(schema, s2) =>
          if !StartsWith(s2, ".") then Unreadable
          else match ReadName(s2[1..])
            case Fail => Unreadable
            case Got(table, s3) =>
              if !StartsWith(s3, " (") then Unreadable
              else match ReadNames(s3[2..])
                case Fail => Unreadable
                case Got(referenced, end) =>
                  if end == "" then AForeignKey(columns, schema, table, referenced) else Unreadable
  }

  function ReadKey(s: string): Item {
    match ReadNames(s) case Fail => Unreadable case Got(names, end) => if end == "" then AKey(names) else Unreadable
  }

  function ReadCheck(s: string): Item {
    match ReadName(s)
    case Fail => Unreadable
    case Got(name, rest) =>
      if StartsWith(rest, CHECK) && EndsWith(rest[|CHECK|..], ")") then ACheck(name, rest[|CHECK|..|rest| - 1])
      else Unreadable
  }

  function ReadColumnItem(s: string): Item {
    match ReadName(s)
    case Fail => Unreadable
    case Got(name, rest) => if StartsWith(rest, " ") then ReadColumn(name, rest[1..]) else Unreadable
  }

  const CHECK := " CHECK ("
  const INDENT := "    "
  const PRIMARY := "    PRIMARY KEY ("
  const FOREIGN := "    FOREIGN KEY ("
  const CONSTRAINT := "    CONSTRAINT "

  function ReadItem(s: string): Item {
    if StartsWith(s, PRIMARY) then ReadKey(s[|PRIMARY|..])
    else if StartsWith(s, FOREIGN) then ReadForeignKey(s[|FOREIGN|..])
    else if StartsWith(s, CONSTRAINT) then ReadCheck(s[|CONSTRAINT|..])
    else if StartsWith(s, INDENT) then ReadColumnItem(s[|INDENT|..])
    else Unreadable
  }

  /** The first letter tells the items apart. */
  lemma ItemKinds(rest: string)
    ensures ReadItem(PRIMARY + rest) == ReadKey(rest)
    ensures ReadItem(FOREIGN + rest) == ReadForeignKey(rest)
    ensures ReadItem(CONSTRAINT + rest) == ReadCheck(rest)
    ensures rest != "" && (StartChar(rest[0]) || rest[0] == '"') ==> ReadItem(INDENT + rest) == ReadColumnItem(rest)
  {
    Starts(PRIMARY, rest);
    Starts(FOREIGN, rest);
    Starts(CONSTRAINT, rest);
    Starts(INDENT, rest);
    StartsNot(FOREIGN + rest, PRIMARY, 4);
    StartsNot(CONSTRAINT + rest, PRIMARY, 4);
    StartsNot(CONSTRAINT + rest, FOREIGN, 4);
    if rest != "" && (StartChar(rest[0]) || rest[0] == '"') {
      StartsNot(INDENT + rest, PRIMARY, 4);
      StartsNot(INDENT + rest, FOREIGN, 4);
      StartsNot(INDENT + rest, CONSTRAINT, 4);
    }
  }

  lemma ColumnTextIs(c: Column)
    ensures var identity := Contains(c.defaultValue, "nextval(");
            var clauses := Clauses(identity, !c.isNullable, if identity then "" else c.defaultValue);
            ColumnText(c) == INDENT + (QuoteIdent(c.name) + (" " + (c.dataType + clauses)))
  {
    var identity := Contains(c.defaultValue, "nextval(");
    var value := if identity then "" else c.defaultValue;
    var a, b, d := if identity then IDENTITY else "", if !c.isNullable then NOT_NULL else "",
                   if value != "" then DEFAULT + value else "";
    var name, t := QuoteIdent(c.name), c.dataType;
    var clauses := a + (b + d);
    assert ColumnText(c) == INDENT + name + " " + t + a + b + d;
    Assoc(INDENT + name + " " + t + a, b, d);
    Assoc(INDENT + name + " " + t, a, b + d);
    Assoc(INDENT + name + " ", t, clauses);
    Assoc(INDENT + name, " ", t + clauses);
    Assoc(INDENT, name, " " + (t + clauses));
  }

  lemma ColumnBack(name: string, dataType: string, identity: bool, notNull: bool, value: string)
    requires PlainType(dataType) && (identity ==> value == "")
    ensures ReadColumn(name, dataType + Clauses(identity, notNull, value)) ==
            AColumn(name, dataType, identity, notNull, value)
  {
    var clauses := Clauses(identity, notNull, value);
    ClausesRead(identity, notNull, value);
    TypeEndIs(dataType, clauses, 0);
    Starts(dataType, clauses);
  }

  /** A column's line says its name and type, NOT NULL exactly if it is not nullable, and its default, which becomes
      an identity clause exactly if it calls `nextval`. */
  lemma ColumnRead(c: Column)
    requires NameOk(c.name) && PlainType(c.dataType)
    ensures ReadItem(ColumnText(c)) ==
              var identity := exists a, b :: c.defaultValue == a + "nextval(" + b;
              AColumn(c.name, c.dataType, identity, !c.isNullable, if identity then "" else c.defaultValue)
  {
    ContainsIff(c.defaultValue, "nextval(");
    var identity := Contains(c.defaultValue, "nextval(");
    var value := if identity then "" else c.defaultValue;
    var rest := c.dataType + Clauses(identity, !c.isNullable, value);
    ColumnTextIs(c);
    NameRead(c.name, " " + rest);
    ItemKinds(QuoteIdent(c.name) + (" " + rest));
    Starts(" ", rest);
    ColumnBack(c.name, c.dataType, identity, !c.isNullable, value);
  }

  /** The primary key's line says its columns. */
  lemma PrimaryKeyRead(pk: seq<string>)
    requires NamesOk(pk)
    ensures ReadItem(PrimaryKeyText(pk)) == AKey(pk)
  {
    var names := Join(QuoteAll(pk), ", ");
    NamesRead(pk, "");
    ItemKinds(names + (")" + ""));
    assert ")" + "" == ")";
    Assoc(PRIMARY, names, ")");
  }

  /** A check's line says its name and expression. */
  lemma CheckRead(ck: CheckConstraint)
    requires NameOk(ck.name)
    ensures ReadItem(CheckText(ck)) == ACheck(ck.name, ck.expression)
  {
    var rest := CHECK + (ck.expression + ")");
    CheckTextIs(ck);
    NameRead(ck.name, rest);
    ItemKinds(QuoteIdent(ck.name) + rest);
    CheckBack(ck.expression);
  }

  lemma CheckTextIs(ck: CheckConstraint)
    ensures CheckText(ck) == CONSTRAINT + (QuoteIdent(ck.name) + (CHECK + (ck.expression + ")")))
  {
    var name := QuoteIdent(ck.name);
    assert CheckText(ck) == CONSTRAINT + name + CHECK + ck.expression + ")";
    Assoc(CONSTRAINT + name + CHECK, ck.expression, ")");
    Assoc(CONSTRAINT + name, CHECK, ck.expression + ")");
    Assoc(CONSTRAINT, name, CHECK + (ck.expression + ")"));
  }

  lemma CheckBack(expression: string)
    ensures var rest := CHECK + (expression + ")");
            && StartsWith(rest, CHECK) && EndsWith(rest[|CHECK|..], ")") && rest[|CHECK|..|rest| - 1] == expression
  {
    var rest := CHECK + (expression + ")");
    Starts(CHECK, expression + ")");
    assert (expression + ")")[|expression|..] == ")";
    assert rest[|CHECK|..|rest| - 1] == expression;
  }

  /** From the columns on. */
  function ForeignKeyTail(columns: seq<string>, schema: string, table: string, referenced: seq<string>): string {
    var target := QuoteIdent(schema) + ("." + (QuoteIdent(table) + (" (" + NamesText(referenced, ""))));
    NamesText(columns, REFERENCES + target)
  }

  lemma ForeignKeyBack(columns: seq<string>, schema: string, table: string, referenced: seq<string>)
    requires NamesOk(columns) && NamesOk(referenced) && NameOk(schema) && NameOk(table)
    ensures ReadForeignKey(ForeignKeyTail(columns, schema, table, referenced)) ==
            AForeignKey(columns, schema, table, referenced)
  {
    var end := NamesText(referenced, "");
    var s3 := " (" + end;
    var s2 := "." + (QuoteIdent(table) + s3);
    NamesTextRead(columns, REFERENCES + (QuoteIdent(schema) + s2));
    Starts(REFERENCES, QuoteIdent(schema) + s2);
    NameRead(schema, s2);
    Starts(".", QuoteIdent(table) + s3);
    NameRead(table, s3);
    Starts(" (", end);
    NamesTextRead(referenced, "");
  }

  lemma AssocSix(a: string, b: string, c: string, d: string, e: string, f: string)
    ensures a + b + c + d + e + f == a + (b + (c + (d + (e + f))))
  {
    Assoc(a + b + c + d, e, f);
    Assoc(a + b + c, d, e + f);
    Assoc(a + b, c, d + (e + f));
    Assoc(a, b, c + (d + (e + f)));
  }

  lemma ForeignKeyTextIs(fk: ForeignKey, schema: string, mapName: string -> string)
    requires |fk.columns| == |fk.referencedCols|
    ensures ForeignKeyText(fk, schema, mapName) ==
            FOREIGN + ForeignKeyTail(fk.columns, schema, mapName(fk.referencedTable), fk.referencedCols)
  {
    var columns, refs := Join(QuoteAll(fk.columns), ", "), Join(QuoteAll(fk.referencedCols), ", ");
    var q, t := QuoteIdent(schema), QuoteIdent(mapName(fk.referencedTable));
    assert seq(|fk.referencedCols|, j requires 0 <= j < |fk.referencedCols| =>
             if j < |fk.columns| then QuoteIdent(fk.referencedCols[j]) else "") == QuoteAll(fk.referencedCols);
    assert ForeignKeyText(fk, schema, mapName) ==
           FOREIGN + columns + (")" + REFERENCES) + q + "." + t + " (" + refs + ")";
    NamesTextIs(fk.referencedCols, "");
    assert refs + (")" + "") == refs + ")";
    var rest := REFERENCES + (q + ("." + (t + (" (" + (refs + ")")))));
    NamesTextIs(fk.columns, rest);
    var head := FOREIGN + columns + (")" + REFERENCES) + q + "." + t;
    Assoc(head + " (", refs, ")");
    Assoc(head, " (", refs + ")");
    AssocSix(FOREIGN, columns, ")" + REFERENCES, q, ".", t);
    AssocTail(FOREIGN, columns, q, t, " (" + (refs + ")"));
  }

  lemma AssocTail(a: string, b: string, c: string, d: string, e: string)
    ensures a + (b + ((")" + REFERENCES) + (c + ("." + d)))) + e ==
            a + (b + (")" + (REFERENCES + (c + ("." + (d + e))))))
  {
    Assoc(a, b + ((")" + REFERENCES) + (c + ("." + d))), e);
    Assoc(b, (")" + REFERENCES) + (c + ("." + d)), e);
    Assoc(")" + REFERENCES, c + ("." + d), e);
    Assoc(c, "." + d, e);
    Assoc(".", d, e);
    Assoc(")", REFERENCES, c + ("." + (d + e)));
  }

  /** A foreign key's line says its columns, the schema the tables are created in, the mapped name of the referenced
      table, and the referenced columns. */
  lemma ForeignKeyRead(fk: ForeignKey, schema: string, mapName: string -> string)
    requires |fk.columns| == |fk.referencedCols| && NamesOk(fk.columns) && NamesOk(fk.referencedCols)
    requires NameOk(schema) && NameOk(mapName(fk.referencedTable))
    ensures ReadItem(ForeignKeyText(fk, schema, mapName)) ==
              AForeignKey(fk.columns, schema, mapName(fk.referencedTable), fk.referencedCols)
  {
    var table := mapName(fk.referencedTable);
    ForeignKeyTextIs(fk, schema, mapName);
    ItemKinds(ForeignKeyTail(fk.columns, schema, table, fk.referencedCols));
    ForeignKeyBack(fk.columns, schema, table, fk.referencedCols);
  }
}
