/** Foreign keys of a table to itself, which pkg/schema/toposort.go skips: the rows that pkg/generator/generator.go
    sends in one COPY may refer to one another. When are they sure to keep such a key? */
module SelfReferences {
  import opened Strings
  import opened Schema
  import opened UniqueTracking
  import opened RowGeneration
  import opened Generation
  import opened References

  // ----- The rows of one COPY as targets ------------------------------------------------------

  /** The primary key columns that are sent. */
  function SentKey(table: Table, also: set<string>): set<string> {
    set c | c in table.primaryKey && c !in Skipped(table, also)
  }

  /** The primary key is not NULL in any row. */
  predicate KeysPresent(table: Table, also: set<string>, rows: seq<Row>) {
    forall r: Row, c | r in rows && c in SentKey(table, also) :: c in r && r[c] != NIL
  }

  /** Each row as it is stored: the columns of the COPY as sent, a primary key, and anything in the other columns. */
  predicate EachStored(table: Table, sent: seq<Row>, stored: seq<Row>) {
    && |stored| == |sent|
    && forall i | 0 <= i < |sent| ::
         && RowStored(SentColumns(table.columns, sent), sent[i], stored[i])
         && forall c | c in table.primaryKey :: c in stored[i]
  }

  /** Whatever the model replies, whatever is drawn and whatever the database fills in, rows sent with a primary key
      keep the foreign key, with the rows stored before and those of the same COPY to refer to. */
  ghost predicate KeptTogether(table: Table, fk: ForeignKey, pkValues: map<string, seq<Row>>, setting: Setting,
                               targets: seq<Row>)
    requires KeyColumnsPaired(table) && fk in table.foreignKeys
  {
    forall at: nat, world: World, out: seq<Row>, stored: seq<Row> |
      && SettingOf(world, table) == setting && Sends(table, at, pkValues, world, out)
      && KeysPresent(table, setting.also, out) && EachStored(table, out, stored) ::
      RowsKeep(fk, out, targets + stored)
  }

  // ----- When a row is enough for itself ------------------------------------------------------

  /** The columns that decide: the foreign key's and those of the primary key that are sent. */
  function Deciding(table: Table, fk: ForeignKey, also: set<string>): set<string> {
    ColumnsOf(fk) + SentKey(table, also)
  }

  /** A row with these texts refers to itself. */
  predicate OwnMatch(fk: ForeignKey, texts: map<string, string>)
    requires |fk.columns| <= |fk.referencedCols| && ColumnsOf(fk) <= texts.Keys
  {
    forall k | 0 <= k < |fk.columns| ::
      fk.referencedCols[k] in texts && texts[fk.referencedCols[k]] == texts[fk.columns[k]]
  }

  /** The texts are some that the deciding columns may show. */
  ghost predicate DrawnRow(table: Table, fk: ForeignKey, also: set<string>, texts: map<string, string>,
                           can: (string, string) -> bool)
  {
    texts.Keys == Deciding(table, fk, also) && forall c | c in texts :: can(c, texts[c])
  }

  /** Whatever these columns may show, the row's key is one stored before or the row's own. */
  ghost predicate OwnOrStored(table: Table, fk: ForeignKey, also: set<string>, can: (string, string) -> bool,
                              targets: seq<Row>)
    requires |fk.columns| <= |fk.referencedCols|
  {
    forall texts | DrawnRow(table, fk, also, texts, can) :: Whole(fk, texts, targets) || OwnMatch(fk, texts)
  }

  // ----- Rows that keep it --------------------------------------------------------------------

  function TextsOf(row: Row, columns: set<string>): map<string, string>
    requires columns <= row.Keys
  {
    map c | c in columns :: row[c].shown
  }

  predicate Agree(fk: ForeignKey, a: map<string, string>, b: map<string, string>) {
    ColumnsOf(fk) <= a.Keys && ColumnsOf(fk) <= b.Keys && forall c | c in ColumnsOf(fk) :: a[c] == b[c]
  }

  lemma SameKeyMatches(fk: ForeignKey, a: map<string, string>, b: map<string, string>, r: Row)
    requires |fk.columns| <= |fk.referencedCols| && Agree(fk, a, b)
    ensures Matches(fk, a, r) <==> Matches(fk, b, r)
  {
    assert forall k | 0 <= k < |fk.columns| :: fk.columns[k] in ColumnsOf(fk);
  }

  lemma SameKeyWhole(fk: ForeignKey, a: map<string, string>, b: map<string, string>, targets: seq<Row>)
    requires |fk.columns| <= |fk.referencedCols| && Agree(fk, a, b)
    ensures Whole(fk, a, targets) <==> Whole(fk, b, targets)
  {
    forall r: Row | r in targets
      ensures Matches(fk, a, r) <==> Matches(fk, b, r)
    {
      SameKeyMatches(fk, a, b, r);
    }
  }

  lemma WholeAmong(fk: ForeignKey, key: map<string, string>, texts: map<string, string>, targets: seq<Row>,
                   more: seq<Row>)
    requires |fk.columns| <= |fk.referencedCols| && Agree(fk, key, texts) && Whole(fk, texts, targets)
    ensures Whole(fk, key, targets + more)
  {
    SameKeyWhole(fk, key, texts, targets);
    var r: Row :| r in targets && Matches(fk, key, r);
    assert r in targets + more;
  }

  /** A row that refers to itself does so as it is stored. */
  lemma OwnRowMatches(table: Table, fk: ForeignKey, columns: set<string>, sent: seq<Row>, stored: seq<Row>, i: nat)
    requires WellFormed(table) && fk in table.foreignKeys && EachStored(table, sent, stored) && i < |sent|
    requires ColumnsOf(fk) <= columns <= ColumnNames(table) && HasKey(fk, sent[i])
    requires forall c | c in columns :: c in sent[i] && sent[i][c] != NIL
    requires OwnMatch(fk, TextsOf(sent[i], columns))
    ensures Matches(fk, KeyTexts(fk, sent[i]), stored[i])
  {
    var row := sent[i];
    forall k | 0 <= k < |fk.columns|
      ensures fk.referencedCols[k] in stored[i]
      ensures stored[i][fk.referencedCols[k]].shown == KeyTexts(fk, row)[fk.columns[k]]
    {
      var ref := fk.referencedCols[k];
      assert ref in columns && fk.columns[k] in ColumnsOf(fk);
      assert row in sent && ref in row;
      SentColumnsExactly(table.columns, sent, ref);
      assert stored[i][ref] == row[ref];
    }
  }

  /** The deciding columns of a sent row show what they may. */
  lemma SentIsDrawn(table: Table, fk: ForeignKey, at: nat, pkValues: map<string, seq<Row>>, world: World,
                    out: seq<Row>, row: Row)
    requires WellFormed(table) && fk in table.foreignKeys && Sends(table, at, pkValues, world, out) && row in out
    requires HasKey(fk, row) && KeysPresent(table, world.alsoSkipped(table), out)
    ensures var columns := Deciding(table, fk, world.alsoSkipped(table));
            && columns <= ColumnNames(table) && columns <= row.Keys && (forall c | c in columns :: row[c] != NIL)
            && DrawnRow(table, fk, world.alsoSkipped(table), TextsOf(row, columns),
                        Texts(table, pkValues, SettingOf(world, table)))
  {
    var columns := Deciding(table, fk, world.alsoSkipped(table));
    forall c | c in columns
      ensures c in ColumnNames(table) && c in row && row[c] != NIL
      ensures MayShow(table, pkValues, SettingOf(world, table), c, row[c].shown)
    {
      SentValues(table, at, pkValues, world, out, row, c);
    }
  }

  lemma OwnOrStoredKeeps(table: Table, fk: ForeignKey, at: nat, pkValues: map<string, seq<Row>>, world: World,
                         out: seq<Row>, stored: seq<Row>, targets: seq<Row>)
    requires WellFormed(table) && fk in table.foreignKeys && Sends(table, at, pkValues, world, out)
    requires KeysPresent(table, world.alsoSkipped(table), out) && EachStored(table, out, stored)
    requires OwnOrStored(table, fk, world.alsoSkipped(table), Texts(table, pkValues, SettingOf(world, table)), targets)
    ensures RowsKeep(fk, out, targets + stored)
  {
    var columns := Deciding(table, fk, world.alsoSkipped(table));
    forall row: Row | row in out && HasKey(fk, row)
      ensures Whole(fk, KeyTexts(fk, row), targets + stored)
    {
      var i :| 0 <= i < |out| && out[i] == row;
      SentIsDrawn(table, fk, at, pkValues, world, out, row);
      var texts := TextsOf(row, columns);
      if OwnMatch(fk, texts) {
        OwnRowMatches(table, fk, columns, out, stored, i);
        assert stored[i] in targets + stored;
      } else {
        WholeAmong(fk, KeyTexts(fk, row), texts, targets, stored);
      }
    }
  }

  // ----- Rows that may break it ---------------------------------------------------------------

  /** A row of these texts alone, stored with a text of no deciding column in what the database fills in. */
  function FilledIn(table: Table, row: Row, text: string): Row {
    map c | c in row.Keys + (set p | p in table.primaryKey) :: if c in row then row[c] else Value(0, text)
  }

  lemma FilledInStored(table: Table, row: Row, text: string)
    requires forall c | c in row :: row[c] != NIL
    ensures EachStored(table, [row], [FilledIn(table, row, text)])
  {
    forall c | c in SentColumns(table.columns, [row])
      ensures c in row
    {
      SentColumnsExactly(table.columns, [row], c);
    }
  }

  /** Such a row is no target for itself. */
  lemma FilledInMatchesNot(table: Table, fk: ForeignKey, row: Row, texts: map<string, string>, text: string)
    requires |fk.columns| <= |fk.referencedCols| && ColumnsOf(fk) <= texts.Keys == row.Keys && HasKey(fk, row)
    requires forall c | c in texts :: row[c].shown == texts[c] && |texts[c]| < |text|
    requires !OwnMatch(fk, texts)
    ensures !Matches(fk, KeyTexts(fk, row), FilledIn(table, row, text))
  {
    var k :| 0 <= k < |fk.columns|
             && !(fk.referencedCols[k] in texts && texts[fk.referencedCols[k]] == texts[fk.columns[k]]);
    assert fk.columns[k] in ColumnsOf(fk);
  }

  lemma DrawnRowBreaks(table: Table, fk: ForeignKey, pkValues: map<string, seq<Row>>, setting: Setting,
                       targets: seq<Row>, texts: map<string, string>)
    requires WellFormed(table) && fk in table.foreignKeys && ColumnsOf(fk) !! Skipped(table, setting.also)
    requires DrawnRow(table, fk, setting.also, texts, Texts(table, pkValues, setting))
    requires !Whole(fk, texts, targets) && !OwnMatch(fk, texts)
    ensures !KeptTogether(table, fk, pkValues, setting, targets)
  {
    assert forall c | c in texts :: Texts(table, pkValues, setting)(c, texts[c]);
    var row := RowShowing(table, pkValues, setting, texts);
    var raw := HeldRowSent(table, pkValues, setting, row);
    var text := LongerThan(texts.Values);
    assert forall c | c in texts :: texts[c] in texts.Values;
    var stored := FilledIn(table, row, text);
    FilledInStored(table, row, text);
    FilledInMatchesNot(table, fk, row, texts, text);
    RowBreaks(table, fk, pkValues, setting, targets, raw, row, stored, texts);
  }

  lemma RowBreaks(table: Table, fk: ForeignKey, pkValues: map<string, seq<Row>>, setting: Setting,
                  targets: seq<Row>, raw: Row, row: Row, stored: Row, texts: map<string, string>)
    requires KeyColumnsPaired(table) && fk in table.foreignKeys && HasKey(fk, row)
    requires Sends(table, 0, pkValues, OneRowWorld(raw, setting), [row]) && EachStored(table, [row], [stored])
    requires texts.Keys == Deciding(table, fk, setting.also) == row.Keys
    requires forall c | c in texts :: row[c] != NIL && row[c].shown == texts[c]
    requires !Whole(fk, texts, targets) && !Matches(fk, KeyTexts(fk, row), stored)
    ensures !KeptTogether(table, fk, pkValues, setting, targets)
  {
    assert SettingOf(OneRowWorld(raw, setting), table) == setting && KeysPresent(table, setting.also, [row]);
    SameKeyWhole(fk, KeyTexts(fk, row), texts, targets);
    forall r: Row | r in targets + [stored]
      ensures !Matches(fk, KeyTexts(fk, row), r)
    {
      assert r in targets || r == stored;
    }
    assert row in [row] && !KeyKept(fk, row, targets + [stored]);
  }

  /** Main result: the rows of a COPY are sure to keep a foreign key of their table to itself exactly when, whatever
      the columns of the foreign key and of the primary key may show, each row's key is one stored before or the row's
      own: that other rows come along is never something to rely on. */
  lemma KeptTogetherIff(table: Table, fk: ForeignKey, pkValues: map<string, seq<Row>>, setting: Setting,
                        targets: seq<Row>)
    requires WellFormed(table) && fk in table.foreignKeys && ColumnsOf(fk) !! Skipped(table, setting.also)
    ensures KeptTogether(table, fk, pkValues, setting, targets) <==>
              OwnOrStored(table, fk, setting.also, Texts(table, pkValues, setting), targets)
  {
    var can := Texts(table, pkValues, setting);
    if OwnOrStored(table, fk, setting.also, can, targets) {
      forall at: nat, world: World, out: seq<Row>, stored: seq<Row> |
        && SettingOf(world, table) == setting && Sends(table, at, pkValues, world, out)
        && KeysPresent(table, setting.also, out) && EachStored(table, out, stored)
        ensures RowsKeep(fk, out, targets + stored)
      {
        OwnOrStoredKeeps(table, fk, at, pkValues, world, out, stored, targets);
      }
    } else {
      var texts :| DrawnRow(table, fk, setting.also, texts, can)
                   && !Whole(fk, texts, targets) && !OwnMatch(fk, texts);
      DrawnRowBreaks(table, fk, pkValues, setting, targets, texts);
    }
  }

  // ----- Where the rows sent do not help ------------------------------------------------------

  /** A referenced column outside the foreign key that the database fills in, or that may show two texts. */
  ghost predicate Unforced(table: Table, fk: ForeignKey, also: set<string>, can: (string, string) -> bool) {
    exists k | 0 <= k < |fk.columns| && k < |fk.referencedCols| ::
      var ref := fk.referencedCols[k];
      && ref !in ColumnsOf(fk)
      && (ref in SentKey(table, also) ==> exists t, u :: t != u && can(ref, t) && can(ref, u))
  }

  /** The key with some texts in the other deciding columns, so that the row does not refer to itself. */
  lemma NotOwn(table: Table, fk: ForeignKey, also: set<string>, can: (string, string) -> bool,
               key: map<string, string>) returns (texts: map<string, string>)
    requires |fk.columns| <= |fk.referencedCols| && Drawn(fk, key, can) && Unforced(table, fk, also, can)
    requires forall c | c in SentKey(table, also) :: exists t :: can(c, t)
    ensures DrawnRow(table, fk, also, texts, can) && !OwnMatch(fk, texts)
    ensures forall c | c in ColumnsOf(fk) :: texts[c] == key[c]
  {
    var k :| 0 <= k < |fk.columns| && k < |fk.referencedCols|
             && fk.referencedCols[k] !in ColumnsOf(fk)
             && (fk.referencedCols[k] in SentKey(table, also) ==>
                   exists t, u :: t != u && can(fk.referencedCols[k], t) && can(fk.referencedCols[k], u));
    var ref := fk.referencedCols[k];
    assert fk.columns[k] in ColumnsOf(fk);
    texts := map c | c in Deciding(table, fk, also) :: if c in key then key[c] else AnyText(can, c);
    if ref in SentKey(table, also) {
      var t, u :| t != u && can(ref, t) && can(ref, u);
      texts := texts[ref := if t == key[fk.columns[k]] then u else t];
    }
  }

  ghost function AnyText(can: (string, string) -> bool, c: string): (t: string)
    requires exists t :: can(c, t)
    ensures can(c, t)
  {
    var t :| can(c, t);
    t
  }

  lemma OwnOrStoredIffStored(table: Table, fk: ForeignKey, also: set<string>, can: (string, string) -> bool,
                             targets: seq<Row>)
    requires |fk.columns| <= |fk.referencedCols| && Unforced(table, fk, also, can)
    requires forall c | c in SentKey(table, also) :: exists t :: can(c, t)
    ensures OwnOrStored(table, fk, also, can, targets) <==> AllDrawnWhole(fk, can, targets)
  {
    if AllDrawnWhole(fk, can, targets) {
      forall texts | DrawnRow(table, fk, also, texts, can)
        ensures Whole(fk, texts, targets)
      {
        var key := map c | c in ColumnsOf(fk) :: texts[c];
        assert Drawn(fk, key, can);
        SameKeyWhole(fk, key, texts, targets);
      }
    } else {
      var key :| Drawn(fk, key, can) && !Whole(fk, key, targets);
      var texts := NotOwn(table, fk, also, can, key);
      SameKeyWhole(fk, key, texts, targets);
    }
  }

  /** Then rows sent are sure to keep the key exactly when every key that can be made is stored before. */
  lemma OwnRowsDoNotHelp(table: Table, fk: ForeignKey, pkValues: map<string, seq<Row>>, setting: Setting,
                         targets: seq<Row>)
    requires WellFormed(table) && fk in table.foreignKeys && ColumnsOf(fk) !! Skipped(table, setting.also)
    requires Unforced(table, fk, setting.also, Texts(table, pkValues, setting))
    requires forall c | c in SentKey(table, setting.also) :: exists t :: MayShow(table, pkValues, setting, c, t)
    ensures KeptTogether(table, fk, pkValues, setting, targets) <==>
              KeyCovered(table, fk, pkValues, setting, targets)
  {
    var can := Texts(table, pkValues, setting);
    forall c | c in SentKey(table, setting.also)
      ensures exists t :: can(c, t)
    {
      var t :| MayShow(table, pkValues, setting, c, t);
      assert can(c, t);
    }
    KeptTogetherIff(table, fk, pkValues, setting, targets);
    OwnOrStoredIffStored(table, fk, setting.also, can, targets);
  }
}
