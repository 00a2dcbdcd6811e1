/** Whether generated rows refer to stored rows: what docs/guide/generators.md and
    docs/getting-started/how-it-works.md promise of pkg/generator/generator.go, and when the database can refuse the
    rows sent for a foreign key. */
module References {
  import opened Strings
  import opened Schema
  import opened TopoSort
  import opened UniqueTracking
  import opened RowGeneration
  import opened Generation

  // ----- What the database checks -------------------------------------------------------------

  function ColumnsOf(fk: ForeignKey): set<string> {
    set c | c in fk.columns
  }

  predicate HasKey(fk: ForeignKey, row: Row) {
    forall c | c in fk.columns :: c in row && row[c] != NIL
  }

  function KeyTexts(fk: ForeignKey, row: Row): map<string, string>
    requires HasKey(fk, row)
  {
    map c | c in fk.columns :: row[c].shown
  }

  /** The stored row has the key, pair by pair. A NULL of a stored row is a missing column. */
  predicate Matches(fk: ForeignKey, key: map<string, string>, stored: Row)
    requires |fk.columns| <= |fk.referencedCols| && ColumnsOf(fk) <= key.Keys
  {
    forall k | 0 <= k < |fk.columns| ::
      fk.referencedCols[k] in stored && stored[fk.referencedCols[k]].shown == key[fk.columns[k]]
  }

  predicate Whole(fk: ForeignKey, key: map<string, string>, targets: seq<Row>)
    requires |fk.columns| <= |fk.referencedCols| && ColumnsOf(fk) <= key.Keys
  {
    exists r: Row | r in targets :: Matches(fk, key, r)
  }

  /** A row is refused for the key if it has all its columns, none of them NULL, and no stored row has them. */
  predicate KeyKept(fk: ForeignKey, row: Row, targets: seq<Row>)
    requires |fk.columns| <= |fk.referencedCols|
  {
    HasKey(fk, row) ==> Whole(fk, KeyTexts(fk, row), targets)
  }

  predicate RowsKeep(fk: ForeignKey, rows: seq<Row>, targets: seq<Row>)
    requires |fk.columns| <= |fk.referencedCols|
  {
    forall row: Row | row in rows :: KeyKept(fk, row, targets)
  }

  /** A table as the catalogue describes it. */
  predicate WellFormed(table: Table) {
    && KeyColumnsPaired(table) && DistinctColumns(table)
    && (forall fk | fk in table.foreignKeys :: ColumnsOf(fk) <= ColumnNames(table))
    && forall c | c in table.primaryKey :: c in ColumnNames(table)
  }

  // ----- What a column of a sent row may hold -------------------------------------------------

  ghost predicate Admits(convert: Value -> Option<Value>, v: Value) {
    exists raw :: CoerceValue(convert, raw) == Option.Some(v)
  }

  /** What repair leaves of a value that the column admits. */
  predicate LeftBy(choices: seq<Value>, mid: Value, v: Value) {
    if choices == [] || ShownIn(choices, mid) then v == mid else v in choices
  }

  ghost predicate MayHold(convert: Value -> Option<Value>, choices: seq<Value>, v: Value) {
    exists mid :: Admits(convert, mid) && LeftBy(choices, mid, v)
  }

  /** What the run of a table finds outside the generator. */
  datatype Setting = Setting(database: string -> seq<Value>, also: set<string>, convert: Conversion)

  function SettingOf(world: World, table: Table): Setting {
    Setting(world.database(table), world.alsoSkipped(table), world.convert(table))
  }

  /** The column of a sent row may hold something, not NULL, that shows this text. */
  ghost predicate MayShow(table: Table, pkValues: map<string, seq<Row>>, setting: Setting, c: string, text: string)
    requires KeyColumnsPaired(table)
  {
    exists v :: v != NIL && v.shown == text
                && MayHold(setting.convert(c), Choices(table, c, pkValues, setting.database), v)
  }

  ghost function Texts(table: Table, pkValues: map<string, seq<Row>>, setting: Setting): (string, string) -> bool
    requires KeyColumnsPaired(table)
  {
    (c, text) => MayShow(table, pkValues, setting, c, text)
  }

  /** The sent rows keep the column's value as coercion and repair made it. */
  lemma SentValues(table: Table, at: nat, pkValues: map<string, seq<Row>>, world: World, out: seq<Row>, row: Row,
                   c: string)
    requires KeyColumnsPaired(table) && DistinctColumns(table) && Sends(table, at, pkValues, world, out)
    requires row in out && c in row && c in ColumnNames(table)
    ensures MayHold(world.convert(table)(c), Choices(table, c, pkValues, world.database(table)), row[c])
  {
    var coerce := Coercion(table, world.convert(table));
    var st :| SentBy(table, at, pkValues, world, out, st);
    FirstProduced(world.firstReply(at).rows, st.coerced, st.first, coerce, st.fk);
    KeptRowsProduced(table, st.first, world.retries(at), coerce, st.fk, st.kept, st.lost, st.extra);
    var i :| 0 <= i < |out| && out[i] == row;
    assert Produced(st.kept[i], coerce, st.fk);
    var raw, mid :| coerce(raw) == Option.Some(mid) && Repaired(mid, st.kept[i], st.fk);
    ProducedValue(table, world.convert(table), st.fk, raw, mid, st.kept[i], c);
    assert Lookup(st.fk, c) == Choices(table, c, pkValues, world.database(table));
  }

  lemma ProducedValue(table: Table, convert: Conversion, fk: FKValues, raw: Row, mid: Row, row: Row, c: string)
    requires DistinctColumns(table) && c in ColumnNames(table) && c in row
    requires Coercion(table, convert)(raw) == Option.Some(mid) && Repaired(mid, row, fk)
    ensures MayHold(convert(c), Lookup(fk, c), row[c])
  {
    CoercedValues(table.columns, raw, convert);
    assert CoerceValue(convert(c), raw[c]) == Option.Some(mid[c]);
    assert Admits(convert(c), mid[c]) && LeftBy(Lookup(fk, c), mid[c], row[c]);
  }

  // ----- Keys that are sure to be kept --------------------------------------------------------

  /** Every column of the key holds something it may hold. */
  ghost predicate Drawn(fk: ForeignKey, key: map<string, string>, can: (string, string) -> bool) {
    key.Keys == ColumnsOf(fk) && forall c | c in key :: can(c, key[c])
  }

  ghost predicate AllDrawnWhole(fk: ForeignKey, can: (string, string) -> bool, targets: seq<Row>)
    requires |fk.columns| <= |fk.referencedCols|
  {
    forall key | Drawn(fk, key, can) :: Whole(fk, key, targets)
  }

  ghost predicate KeyCovered(table: Table, fk: ForeignKey, pkValues: map<string, seq<Row>>, setting: Setting,
                             targets: seq<Row>)
    requires KeyColumnsPaired(table) && fk in table.foreignKeys
  {
    AllDrawnWhole(fk, Texts(table, pkValues, setting), targets)
  }

  /** Whatever the model replies and whatever is drawn, no rows sent can be refused for this foreign key. */
  ghost predicate AlwaysKept(table: Table, fk: ForeignKey, pkValues: map<string, seq<Row>>, setting: Setting,
                             targets: seq<Row>)
    requires KeyColumnsPaired(table) && fk in table.foreignKeys
  {
    forall at: nat, world: World, out: seq<Row> |
      SettingOf(world, table) == setting && Sends(table, at, pkValues, world, out) ::
      RowsKeep(fk, out, targets)
  }

  lemma CoveredKeeps(table: Table, fk: ForeignKey, at: nat, pkValues: map<string, seq<Row>>, world: World,
                     out: seq<Row>, targets: seq<Row>)
    requires WellFormed(table) && fk in table.foreignKeys && Sends(table, at, pkValues, world, out)
    requires KeyCovered(table, fk, pkValues, SettingOf(world, table), targets)
    ensures RowsKeep(fk, out, targets)
  {
    var can := Texts(table, pkValues, SettingOf(world, table));
    forall row: Row | row in out && HasKey(fk, row)
      ensures Whole(fk, KeyTexts(fk, row), targets)
    {
      forall c | c in fk.columns
        ensures can(c, row[c].shown)
      {
        assert c in ColumnsOf(fk);
        SentValues(table, at, pkValues, world, out, row, c);
      }
      assert Drawn(fk, KeyTexts(fk, row), can);
    }
  }

  // ----- Others may be refused ----------------------------------------------------------------

  /** A run in which the model replies with exactly this row. */
  function OneRowWorld(raw: Row, setting: Setting): World {
    World(_ => Batch([raw]), _ => _ => Failed, _ => setting.convert, _ => setting.database, _ => setting.also,
          _ => _ => false)
  }

  lemma KeepsOne(constraints: seq<seq<string>>, row: Row)
    ensures KeepAll(constraints, [[row]]) == [row]
  {
    assert SeenBy(constraints, []) == {};
    assert [[row]][..0] == [] && [row][1..] == [];
    assert KeepAll(constraints, [[row]]) == Keep(constraints, KeepAll(constraints, []), [row]);
    assert Keep(constraints, [], [row]) == Keep(constraints, [] + [row], []);
  }

  lemma OneRowEnforced(table: Table, replies: nat -> Reply, coerce: Row -> Option<Row>, fk: FKValues, row: Row)
    requires replies(0).Failed?
    ensures Enforced(table, [row], replies, coerce, fk, [row], 0, [])
  {
    KeepsOne(UniqueColumns(table.indexes), row);
    assert [[row]] + [] == [[row]];
  }

  function AllChoices(table: Table, pkValues: map<string, seq<Row>>, database: string -> seq<Value>): FKValues
    requires KeyColumnsPaired(table)
  {
    map c | c in ColumnNames(table) :: Choices(table, c, pkValues, database)
  }

  lemma AllChoicesOffered(table: Table, pkValues: map<string, seq<Row>>, database: string -> seq<Value>)
    requires KeyColumnsPaired(table)
    ensures Offers(table, pkValues, database, AllChoices(table, pkValues, database))
  {}

  /** The row is what repair may leave of the other. */
  predicate RepairsTo(table: Table, pkValues: map<string, seq<Row>>, database: string -> seq<Value>, mid: Row, row: Row)
    requires KeyColumnsPaired(table)
  {
    mid.Keys == row.Keys && forall c | c in row :: LeftBy(Choices(table, c, pkValues, database), mid[c], row[c])
  }

  lemma RepairedToChoices(table: Table, pkValues: map<string, seq<Row>>, database: string -> seq<Value>, mid: Row,
                          row: Row)
    requires KeyColumnsPaired(table) && RepairsTo(table, pkValues, database, mid, row)
    requires row.Keys <= ColumnNames(table)
    ensures Repaired(mid, row, AllChoices(table, pkValues, database))
  {}

  /** A reply of one row that coerces and is repaired to this one may send it. */
  lemma OneRowSent(table: Table, at: nat, pkValues: map<string, seq<Row>>, world: World, raw: Row, mid: Row, row: Row)
    requires KeyColumnsPaired(table) && world.firstReply(at) == Batch([raw]) && world.retries(at)(0).Failed?
    requires Coercion(table, world.convert(table))(raw) == Option.Some(mid)
    requires row.Keys <= ColumnNames(table) && row.Keys !! Skipped(table, world.alsoSkipped(table))
    requires RepairsTo(table, pkValues, world.database(table), mid, row)
    ensures Sends(table, at, pkValues, world, [row])
  {
    var fk := AllChoices(table, pkValues, world.database(table));
    RepairedToChoices(table, pkValues, world.database(table), mid, row);
    AllChoicesOffered(table, pkValues, world.database(table));
    OneRowEnforced(table, world.retries(at), Coercion(table, world.convert(table)), fk, row);
    assert row - Skipped(table, world.alsoSkipped(table)) == row;
    assert SentBy(table, at, pkValues, world, [row], TableSteps(fk, [mid], [row], [row], 0, []));
  }

  ghost function MidFor(convert: Value -> Option<Value>, choices: seq<Value>, v: Value): (mid: Value)
    requires MayHold(convert, choices, v)
    ensures Admits(convert, mid) && LeftBy(choices, mid, v)
  {
    var mid :| Admits(convert, mid) && LeftBy(choices, mid, v);
    mid
  }

  ghost function RawFor(convert: Value -> Option<Value>, mid: Value): (raw: Value)
    requires Admits(convert, mid)
    ensures CoerceValue(convert, raw) == Option.Some(mid)
  {
    var raw :| CoerceValue(convert, raw) == Option.Some(mid);
    raw
  }

  /** Every value of the row is one its column may hold. */
  ghost predicate HoldableRow(table: Table, pkValues: map<string, seq<Row>>, setting: Setting, row: Row)
    requires KeyColumnsPaired(table)
  {
    forall c | c in row :: MayHold(setting.convert(c), Choices(table, c, pkValues, setting.database), row[c])
  }

  lemma CoercedTo(table: Table, convert: Conversion, raw: Row, mid: Row)
    requires DistinctColumns(table) && raw.Keys == mid.Keys <= ColumnNames(table)
    requires forall c | c in raw :: CoerceValue(convert(c), raw[c]) == Option.Some(mid[c])
    ensures Coercion(table, convert)(raw) == Option.Some(mid)
  {
    CoercedValues(table.columns, raw, convert);
    assert CoercedRow(table.columns, raw, convert).value == mid;
  }

  ghost function MidRow(table: Table, pkValues: map<string, seq<Row>>, setting: Setting, row: Row): (mid: Row)
    requires KeyColumnsPaired(table) && HoldableRow(table, pkValues, setting, row)
    ensures RepairsTo(table, pkValues, setting.database, mid, row)
    ensures forall c | c in mid :: Admits(setting.convert(c), mid[c])
  {
    map c | c in row :: MidFor(setting.convert(c), Choices(table, c, pkValues, setting.database), row[c])
  }

  ghost function RawRow(convert: Conversion, mid: Row): (raw: Row)
    requires forall c | c in mid :: Admits(convert(c), mid[c])
    ensures raw.Keys == mid.Keys
    ensures forall c | c in raw :: CoerceValue(convert(c), raw[c]) == Option.Some(mid[c])
  {
    map c | c in mid :: RawFor(convert(c), mid[c])
  }

  /** Any such row is sent by some run. */
  lemma HeldRowSent(table: Table, pkValues: map<string, seq<Row>>, setting: Setting, row: Row) returns (raw: Row)
    requires KeyColumnsPaired(table) && DistinctColumns(table)
    requires row.Keys <= ColumnNames(table) && row.Keys !! Skipped(table, setting.also)
    requires HoldableRow(table, pkValues, setting, row)
    ensures Sends(table, 0, pkValues, OneRowWorld(raw, setting), [row])
  {
    var mid := MidRow(table, pkValues, setting, row);
    raw := RawRow(setting.convert, mid);
    CoercedTo(table, setting.convert, raw, mid);
    OneRowSent(table, 0, pkValues, OneRowWorld(raw, setting), raw, mid, row);
  }

  ghost function ValueFor(table: Table, pkValues: map<string, seq<Row>>, setting: Setting, c: string,
                          text: string): (v: Value)
    requires KeyColumnsPaired(table) && MayShow(table, pkValues, setting, c, text)
    ensures v != NIL && v.shown == text
    ensures MayHold(setting.convert(c), Choices(table, c, pkValues, setting.database), v)
  {
    var v :| v != NIL && v.shown == text
             && MayHold(setting.convert(c), Choices(table, c, pkValues, setting.database), v);
    v
  }

  /** A row that shows these texts, each in its column. */
  ghost function RowShowing(table: Table, pkValues: map<string, seq<Row>>, setting: Setting,
                            key: map<string, string>): (row: Row)
    requires KeyColumnsPaired(table) && forall c | c in key :: MayShow(table, pkValues, setting, c, key[c])
    ensures row.Keys == key.Keys && HoldableRow(table, pkValues, setting, row)
    ensures forall c | c in key :: row[c] != NIL && row[c].shown == key[c]
  {
    map c | c in key :: ValueFor(table, pkValues, setting, c, key[c])
  }

  lemma ShowsKey(fk: ForeignKey, key: map<string, string>, row: Row)
    requires key.Keys == ColumnsOf(fk) == row.Keys
    requires forall c | c in key :: row[c] != NIL && row[c].shown == key[c]
    ensures HasKey(fk, row) && KeyTexts(fk, row) == key
  {
    assert forall c | c in fk.columns :: c in ColumnsOf(fk);
  }

  lemma UncoveredRefused(table: Table, fk: ForeignKey, pkValues: map<string, seq<Row>>, setting: Setting,
                         targets: seq<Row>, key: map<string, string>)
    requires WellFormed(table) && fk in table.foreignKeys && ColumnsOf(fk) !! Skipped(table, setting.also)
    requires Drawn(fk, key, Texts(table, pkValues, setting)) && !Whole(fk, key, targets)
    ensures !AlwaysKept(table, fk, pkValues, setting, targets)
  {
    assert forall c | c in key :: Texts(table, pkValues, setting)(c, key[c]);
    var row := RowShowing(table, pkValues, setting, key);
    ShowsKey(fk, key, row);
    var raw := HeldRowSent(table, pkValues, setting, row);
    assert row in [row] && !KeyKept(fk, row, targets);
    assert SettingOf(OneRowWorld(raw, setting), table) == setting;
  }

  /** Main result: no rows sent can be refused for a foreign key exactly when every key that can be made of what its
      columns may hold is a stored row's. */
  lemma KeptIffCovered(table: Table, fk: ForeignKey, pkValues: map<string, seq<Row>>, setting: Setting,
                       targets: seq<Row>)
    requires WellFormed(table) && fk in table.foreignKeys && ColumnsOf(fk) !! Skipped(table, setting.also)
    ensures AlwaysKept(table, fk, pkValues, setting, targets) <==> KeyCovered(table, fk, pkValues, setting, targets)
  {
    if KeyCovered(table, fk, pkValues, setting, targets) {
      forall at: nat, world: World, out: seq<Row> |
        SettingOf(world, table) == setting && Sends(table, at, pkValues, world, out)
        ensures RowsKeep(fk, out, targets)
      {
        CoveredKeeps(table, fk, at, pkValues, world, out, targets);
      }
    } else {
      var key :| Drawn(fk, key, Texts(table, pkValues, setting)) && !Whole(fk, key, targets);
      UncoveredRefused(table, fk, pkValues, setting, targets, key);
    }
  }

  // ----- Keys of one column -------------------------------------------------------------------

  /** Some stored row has the column, and it shows the text. */
  predicate Shows(rows: seq<Row>, col: string, text: string) {
    exists r: Row | r in rows :: col in r && r[col].shown == text
  }

  /** The key consists of this column, and no foreign key before it has it. */
  predicate OwnKey(table: Table, fk: ForeignKey, c: string) {
    fk in table.foreignKeys && fk.columns == [c] && OwnerOf(table.foreignKeys, c) == Option.Some(fk)
  }

  /** Everything the column admits is stored. */
  ghost predicate Exhausted(convert: Value -> Option<Value>, targets: seq<Row>, ref: string) {
    forall v | v != NIL && Admits(convert, v) :: Shows(targets, ref, v.shown)
  }

  /** All choices are stored or, without any, everything the column admits. */
  ghost predicate Covered(convert: Value -> Option<Value>, choices: seq<Value>, targets: seq<Row>, ref: string) {
    if choices == [] then Exhausted(convert, targets, ref)
    else forall v | v in choices :: Shows(targets, ref, v.shown)
  }

  lemma WholeIsShown(fk: ForeignKey, c: string, key: map<string, string>, targets: seq<Row>)
    requires fk.columns == [c] && |fk.referencedCols| >= 1 && c in key
    ensures ColumnsOf(fk) == {c}
    ensures Whole(fk, key, targets) <==> Shows(targets, fk.referencedCols[0], key[c])
  {
    assert fk.columns[0] == c;
    forall r: Row | r in targets
      ensures Matches(fk, key, r) <==>
                fk.referencedCols[0] in r && r[fk.referencedCols[0]].shown == key[c]
    {}
  }

  /** Any choice can be drawn, since a null in a reply is repaired to any of them. */
  lemma ChoiceHeld(convert: Value -> Option<Value>, choices: seq<Value>, v: Value)
    requires v in choices && !ShownIn(choices, NIL)
    ensures v != NIL && MayHold(convert, choices, v)
  {
    assert CoerceValue(convert, NIL) == Option.Some(NIL);
    assert Admits(convert, NIL) && LeftBy(choices, NIL, v);
  }

  lemma HeldIsChoice(convert: Value -> Option<Value>, choices: seq<Value>, v: Value)
    requires MayHold(convert, choices, v)
    ensures if choices == [] then Admits(convert, v) else ShownIn(choices, v)
  {
    var mid :| Admits(convert, mid) && LeftBy(choices, mid, v);
  }

  lemma SingleKeyCovered(table: Table, fk: ForeignKey, c: string, pkValues: map<string, seq<Row>>, setting: Setting,
                         targets: seq<Row>)
    requires WellFormed(table) && OwnKey(table, fk, c)
    requires !ShownIn(Choices(table, c, pkValues, setting.database), NIL)
    ensures KeyCovered(table, fk, pkValues, setting, targets) <==>
              Covered(setting.convert(c), Choices(table, c, pkValues, setting.database), targets,
                      fk.referencedCols[0])
  {
    var can, ref := Texts(table, pkValues, setting), fk.referencedCols[0];
    var convert, choices := setting.convert(c), Choices(table, c, pkValues, setting.database);
    if Covered(convert, choices, targets, ref) {
      forall key | Drawn(fk, key, can)
        ensures Whole(fk, key, targets)
      {
        WholeIsShown(fk, c, map[c := ""], targets);
        WholeIsShown(fk, c, key, targets);
        var v := ValueFor(table, pkValues, setting, c, key[c]);
        HeldIsChoice(convert, choices, v);
      }
    }
    if KeyCovered(table, fk, pkValues, setting, targets) {
      forall v | v != NIL && MayHold(convert, choices, v)
        ensures Shows(targets, ref, v.shown)
      {
        WholeIsShown(fk, c, map[c := v.shown], targets);
        assert Drawn(fk, map[c := v.shown], can);
      }
      forall v | v in choices
        ensures Shows(targets, ref, v.shown)
      {
        ChoiceHeld(convert, choices, v);
      }
      forall v | choices == [] && v != NIL && Admits(convert, v)
        ensures Shows(targets, ref, v.shown)
      {
        assert LeftBy(choices, v, v);
      }
    }
  }

  /** A column that admits all texts is never exhausted. */
  lemma TextsNotExhausted(convert: Value -> Option<Value>, targets: seq<Row>, ref: string)
    requires forall text :: convert(Value(0, text)) == Option.Some(Value(0, text))
    ensures !Exhausted(convert, targets, ref)
  {
    var text := UnseenText(targets, ref);
    assert CoerceValue(convert, Value(0, text)) == Option.Some(Value(0, text));
  }

  lemma {:induction false} UnseenText(rows: seq<Row>, col: string) returns (text: string)
    ensures !Shows(rows, col, text)
    ensures forall r: Row | r in rows && col in r :: |r[col].shown| < |text|
  {
    if rows == [] {
      text := "x";
    } else {
      var n := |rows| - 1;
      var before := UnseenText(rows[..n], col);
      assert rows == rows[..n] + [rows[n]];
      text := before + (if col in rows[n] then rows[n][col].shown else "") + "x";
    }
  }

  // ----- When a column is covered -------------------------------------------------------------

  lemma {:induction false} RecordedMembers(rows: seq<Row>, col: string, v: Value)
    ensures v in Recorded(rows, col) <==> exists r: Row | r in rows :: col in r && r[col] == v
    decreases |rows|
  {
    if rows != [] {
      var n := |rows| - 1;
      RecordedMembers(rows[..n], col, v);
      assert rows == rows[..n] + [rows[n]];
    }
  }

  lemma {:induction false} KeysRecorded(primaryKey: seq<string>, rows: seq<Row>, col: string)
    ensures Recorded(PKRows(primaryKey, rows), col) == if col in primaryKey then Recorded(rows, col) else []
    decreases |rows|
  {
    if rows != [] {
      var n := |rows| - 1;
      var before, key := PKRows(primaryKey, rows[..n]), PKRow(primaryKey, rows[n]);
      KeysRecorded(primaryKey, rows[..n], col);
      if key != map[] {
        assert (before + [key])[..|before|] == before;
      } else {
        assert before + [] == before;
        assert col in primaryKey && col in rows[n] ==> col in key;
      }
    }
  }

  // ----- Rows sent and rows stored ------------------------------------------------------------

  lemma {:induction false} SentColumnsExactly(columns: seq<Column>, rows: seq<Row>, c: string)
    ensures c in SentColumns(columns, rows) <==> c in NamesOf(columns) && exists r: Row | r in rows :: c in r
  {
    if columns != [] {
      var n := |columns| - 1;
      SentColumnsExactly(columns[..n], rows, c);
      assert columns == columns[..n] + [columns[n]];
      assert NamesOf(columns) == NamesOf(columns[..n]) + {columns[n].name};
    }
  }

  /** A stored row has the values sent, and NULL where a column of the COPY has none; other columns are filled in by
      the database. */
  predicate RowStored(columns: seq<string>, sent: Row, stored: Row) {
    forall c | c in columns ::
      if c in sent && sent[c] != NIL then c in stored && stored[c] == sent[c] else c !in stored
  }

  /** What an insertion that succeeded leaves behind, besides whatever was there: no key column is NULL. */
  predicate StoredAs(table: Table, sent: seq<Row>, stored: seq<Row>) {
    var columns := SentColumns(table.columns, sent);
    columns == [] ||
    (&& (forall r | r in sent :: exists q: Row :: q in stored && RowStored(columns, r, q))
     && forall r: Row, c | r in sent && c in table.primaryKey && c in columns :: c in r && r[c] != NIL)
  }

  /** The recorded values of a key column are stored. */
  lemma RecordedStored(target: Table, sent: seq<Row>, stored: seq<Row>, c: string)
    requires WellFormed(target) && c in target.primaryKey && StoredAs(target, sent, stored)
    ensures (exists r: Row | r in sent :: c in r) <==> Recorded(sent, c) != []
    ensures forall v | v in Recorded(sent, c) :: Shows(stored, c, v.shown)
  {
    RecordedShown(sent, c);
    SentColumnsExactly(target.columns, sent, c);
    forall v | v in Recorded(sent, c)
      ensures Shows(stored, c, v.shown)
    {
      RecordedMembers(sent, c, v);
      var r: Row :| r in sent && c in r && r[c] == v;
      var q: Row :| q in stored && RowStored(SentColumns(target.columns, sent), r, q);
    }
  }

  lemma RecordedShown(rows: seq<Row>, col: string)
    ensures (exists r: Row | r in rows :: col in r) <==> Recorded(rows, col) != []
    ensures forall text :: Shows(rows, col, text) <==> exists v | v in Recorded(rows, col) :: v.shown == text
  {
    forall text
      ensures Shows(rows, col, text) <==> exists v | v in Recorded(rows, col) :: v.shown == text
    {
      if r: Row :| r in rows && col in r && r[col].shown == text {
        RecordedMembers(rows, col, r[col]);
      }
      if v :| v in Recorded(rows, col) && v.shown == text {
        RecordedMembers(rows, col, v);
      }
    }
    if r: Row :| r in rows && col in r {
      RecordedMembers(rows, col, r[col]);
    }
    if Recorded(rows, col) != [] {
      RecordedMembers(rows, col, Recorded(rows, col)[0]);
    }
  }

  // ----- One run over all tables --------------------------------------------------------------

  /** The column is in the key, and some row sent has it. */
  predicate KeyGenerated(target: Table, sent: seq<Row>, col: string) {
    col in target.primaryKey && exists r: Row | r in sent :: col in r
  }

  lemma CoveredByRun(table: Table, fk: ForeignKey, c: string, target: Table, sent: seq<Row>, stored: seq<Row>,
                     pkValues: map<string, seq<Row>>, setting: Setting)
    requires WellFormed(table) && OwnKey(table, fk, c) && WellFormed(target) && fk.referencedTable == target.name
    requires target.name in pkValues && pkValues[target.name] == PKValues(target, sent)
    requires StoredAs(target, sent, stored)
    ensures var ref := fk.referencedCols[0];
            Covered(setting.convert(c), Choices(table, c, pkValues, setting.database), stored, ref) <==>
              || KeyGenerated(target, sent, ref)
              || Covered(setting.convert(c), setting.database(c), stored, ref)
  {
    var ref := fk.referencedCols[0];
    KeysRecorded(target.primaryKey, sent, ref);
    if ref in target.primaryKey {
      RecordedStored(target, sent, stored, ref);
    }
    assert fk.columns[0] == c && RefCol(fk, c) == ref;
  }

  /** Main result on one run: with the keys of the target's rows recorded, no rows of a table can be refused for a
      foreign key of one column exactly when the referenced column is a key column that some row sent has, or the
      database has values for it and all of them are stored, or it has none and the column admits no others. */
  lemma OneRunRefersIff(table: Table, fk: ForeignKey, c: string, target: Table, sent: seq<Row>, stored: seq<Row>,
                        pkValues: map<string, seq<Row>>, setting: Setting)
    requires WellFormed(table) && OwnKey(table, fk, c) && WellFormed(target) && fk.referencedTable == target.name
    requires c !in Skipped(table, setting.also) && !ShownIn(Choices(table, c, pkValues, setting.database), NIL)
    requires target.name in pkValues && pkValues[target.name] == PKValues(target, sent)
    requires StoredAs(target, sent, stored)
    ensures var ref := fk.referencedCols[0];
            AlwaysKept(table, fk, pkValues, setting, stored) <==>
              || KeyGenerated(target, sent, ref)
              || Covered(setting.convert(c), setting.database(c), stored, ref)
  {
    assert ColumnsOf(fk) == {c} by {
      assert fk.columns[0] == c;
    }
    CoveredByRun(table, fk, c, target, sent, stored, pkValues, setting);
    SingleKeyCovered(table, fk, c, pkValues, setting, stored);
    KeptIffCovered(table, fk, pkValues, setting, stored);
  }

  /** Main result on keys the database fills in, as every serial one: only what the database offers counts. */
  lemma SkippedKeyIff(table: Table, fk: ForeignKey, c: string, target: Table, at: nat, recorded: map<string, seq<Row>>,
                      world: World, sent: seq<Row>, stored: seq<Row>, pkValues: map<string, seq<Row>>, setting: Setting)
    requires WellFormed(table) && OwnKey(table, fk, c) && WellFormed(target) && fk.referencedTable == target.name
    requires c !in Skipped(table, setting.also) && !ShownIn(Choices(table, c, pkValues, setting.database), NIL)
    requires target.name in pkValues && pkValues[target.name] == PKValues(target, sent)
    requires Sends(target, at, recorded, world, sent) && StoredAs(target, sent, stored)
    requires fk.referencedCols[0] in Skipped(target, world.alsoSkipped(target))
    ensures AlwaysKept(table, fk, pkValues, setting, stored) <==>
              Covered(setting.convert(c), setting.database(c), stored, fk.referencedCols[0])
  {
    SentRowsSatisfy(target, at, recorded, world, sent);
    OneRunRefersIff(table, fk, c, target, sent, stored, pkValues, setting);
  }

  /** Main result on separate runs, as the handler makes them, with nothing recorded: the same for every key. */
  lemma SeparateRunsReferIff(table: Table, fk: ForeignKey, c: string, setting: Setting, stored: seq<Row>)
    requires WellFormed(table) && OwnKey(table, fk, c)
    requires c !in Skipped(table, setting.also) && !ShownIn(setting.database(c), NIL)
    ensures AlwaysKept(table, fk, map[], setting, stored) <==>
              Covered(setting.convert(c), setting.database(c), stored, fk.referencedCols[0])
  {
    assert ColumnsOf(fk) == {c} by {
      assert fk.columns[0] == c;
    }
    SingleKeyCovered(table, fk, c, map[], setting, stored);
    KeptIffCovered(table, fk, map[], setting, stored);
  }

  // ----- Runs that no foreign key stops -------------------------------------------------------

  /** In an ordered list a foreign key refers to an earlier table of the list, or its own, or none. */
  lemma TargetIsEarlier(tables: seq<Table>, i: nat, j: nat, fk: ForeignKey)
    requires DistinctNames(tables) && Ordered(tables, Names(tables))
    requires i < |tables| && j < |tables| && i != j
    requires fk in tables[i].foreignKeys && fk.referencedTable == tables[j].name
    ensures j < i
  {
    assert tables[j].name in Names(tables) && Counts(tables[i], fk, Names(tables));
    var t :| t in tables[..i] && t.name == tables[j].name;
  }

  /** The rows keep every foreign key of table `i` to another table of the list, all of which come before it. */
  predicate RowsReferBack(tables: seq<Table>, stored: seq<seq<Row>>, i: nat, rows: seq<Row>)
    requires i < |tables| && i <= |stored| && KeyColumnsPaired(tables[i])
  {
    forall fk, j | fk in tables[i].foreignKeys && 0 <= j < |tables| && j != i && fk.referencedTable == tables[j].name ::
      j < i && RowsKeep(fk, rows, stored[j])
  }

  ghost predicate KeysCovered(tables: seq<Table>, sent: seq<seq<Row>>, stored: seq<seq<Row>>, world: World, i: nat)
    requires i < |tables| && i <= |sent| == |stored| <= |tables| && KeyColumnsPaired(tables[i])
  {
    forall fk, j | fk in tables[i].foreignKeys && 0 <= j < i && fk.referencedTable == tables[j].name ::
      KeyCovered(tables[i], fk, RecordedKeys(tables, sent, i), SettingOf(world, tables[i]), stored[j])
  }

  lemma SentRefersBack(tables: seq<Table>, world: World, sent: seq<seq<Row>>, stored: seq<seq<Row>>, i: nat,
                       out: seq<Row>)
    requires DistinctNames(tables) && Ordered(tables, Names(tables))
    requires i < |tables| && i <= |sent| == |stored| <= |tables| && WellFormed(tables[i])
    requires KeysCovered(tables, sent, stored, world, i)
    requires Sends(tables[i], i, RecordedKeys(tables, sent, i), world, out)
    ensures RowsReferBack(tables, stored, i, out)
  {
    forall fk, j | fk in tables[i].foreignKeys && 0 <= j < |tables| && j != i && fk.referencedTable == tables[j].name
      ensures j < i && RowsKeep(fk, out, stored[j])
    {
      TargetIsEarlier(tables, i, j, fk);
      CoveredKeeps(tables[i], fk, i, RecordedKeys(tables, sent, i), world, out, stored[j]);
    }
  }

  /** At table `i` the run can fail only by rows that break a foreign key to another table. */
  ghost predicate OnlyKeysRefused(tables: seq<Table>, world: World, stored: seq<seq<Row>>, i: nat)
    requires i < |tables| && i <= |stored| && KeyColumnsPaired(tables[i])
  {
    && !RepliesFail(tables[i], i, world)
    && forall rows | Refused(tables[i], i, world, rows) :: !RowsReferBack(tables, stored, i, rows)
  }

  /** A run over sorted tables whose keys are covered keeps every reference between two tables, and nothing but a bad
      reply or another constraint ends it early. */
  lemma OneRunKeepsReferences(tables: seq<Table>, world: World, sent: seq<seq<Row>>, stored: seq<seq<Row>>)
    requires DistinctNames(tables) && Ordered(tables, Names(tables))
    requires forall t | t in tables :: KeyColumnsPaired(t) && WellFormed(t)
    requires RunOf(tables, world, sent) && |stored| == |sent|
    requires forall i | 0 <= i <= |sent| && i < |tables| :: KeysCovered(tables, sent, stored, world, i)
    ensures forall i | 0 <= i < |sent| :: RowsReferBack(tables, stored, i, sent[i])
    ensures |sent| == |tables| || !OnlyKeysRefused(tables, world, stored, |sent|)
  {
    forall i | 0 <= i < |sent|
      ensures RowsReferBack(tables, stored, i, sent[i])
    {
      assert TableRuns(tables, world, sent, i) && tables[i] in tables;
      SentRefersBack(tables, world, sent, stored, i, sent[i]);
    }
    var n := |sent|;
    if n < |tables| && OnlyKeysRefused(tables, world, stored, n) {
      var out :| Sends(tables[n], n, RecordedKeys(tables, sent, n), world, out) && Refused(tables[n], n, world, out);
      SentRefersBack(tables, world, sent, stored, n, out);
    }
  }

  // ----- A key the database fills in ----------------------------------------------------------

  lemma OnlyOneFirst(row: Row, coerced: seq<Row>, first: seq<Row>, coerce: Row -> Option<Row>, fk: FKValues)
    requires coerce(row) == Option.Some(row) && Coerced([row], coerced, coerce) && BatchRepaired(coerced, first, fk)
    requires FKValid(row, fk)
    ensures first == [row]
  {
    assert coerced[0] == row && Repaired(row, first[0], fk);
    assert first[0] == row;
  }

  lemma OnlyOneKept(table: Table, row: Row, replies: nat -> Reply, coerce: Row -> Option<Row>, fk: FKValues,
                    rows: seq<Row>, lost: int, extra: seq<seq<Row>>)
    requires replies(0).Failed? && Enforced(table, [row], replies, coerce, fk, rows, lost, extra)
    ensures rows == [row]
  {
    assert extra == [];
    assert [[row]] + [] == [[row]];
    KeepsOne(UniqueColumns(table.indexes), row);
  }

  /** A reply of one row that needs neither coercion nor repair sends nothing else. */
  lemma OnlyOneRow(table: Table, at: nat, pkValues: map<string, seq<Row>>, world: World, row: Row, out: seq<Row>)
    requires KeyColumnsPaired(table) && KeysResolved(table, row, pkValues, world.database(table))
    requires world.firstReply(at) == Batch([row]) && world.retries(at)(0).Failed?
    requires Coercion(table, world.convert(table))(row) == Option.Some(row)
    requires row.Keys !! Skipped(table, world.alsoSkipped(table))
    requires Sends(table, at, pkValues, world, out)
    ensures out == [row]
  {
    var coerce := Coercion(table, world.convert(table));
    var st :| SentBy(table, at, pkValues, world, out, st);
    OnlyOneFirst(row, st.coerced, st.first, coerce, st.fk);
    OnlyOneKept(table, row, world.retries(at), coerce, st.fk, st.kept, st.lost, st.extra);
    assert row - Skipped(table, world.alsoSkipped(table)) == row;
  }

  const AS_IS: Conversion := _ => v => Option.Some(v)

  lemma AsIsCoerces(columns: seq<Column>, row: Row)
    ensures CoercedRow(columns, row, AS_IS) == Option.Some(row)
  {
    RowStays(columns, row, AS_IS);
  }

  const SERIAL_PARENT := Table("public", "parent",
                               [Column("id", "bigserial", false, ""), Column("name", "text", true, "")],
                               ["id"], [], [], [])
  const CHILD_KEY := ForeignKey(["parent_id"], "parent", ["id"])
  const CHILD := Table("public", "child", [Column("parent_id", "bigint", true, "")], [], [CHILD_KEY], [], [])

  lemma ChildRefers()
    ensures ColumnNames(CHILD) == {"parent_id"} && Skipped(CHILD, {}) == {} && WellFormed(CHILD)
    ensures OwnKey(CHILD, CHILD_KEY, "parent_id") && ColumnsOf(CHILD_KEY) == {"parent_id"}
  {
    assert CHILD.columns[0].name == "parent_id" && CHILD_KEY.columns[0] == "parent_id";
    assert CHILD.foreignKeys[0] == CHILD_KEY;
    NotFilled(CHILD.columns[0]);
    assert ToLower(CHILD.columns[0].dataType)[0] == 'b';
  }

  lemma NotFilled(c: Column)
    requires c.defaultValue == "" && |c.dataType| <= 6
    ensures FilledByDatabase(c) <==> |c.dataType| == 6 && ToLower(c.dataType) == "serial"
  {
    var t := ToLower(c.dataType);
    if Contains(t, "serial") {
      var i: nat :| i <= |t| && OccursAt(t, "serial", i);
      assert t[i..i + 6] == t;
    }
    if t == "serial" {
      assert OccursAt(t, "serial", 0);
    }
  }

  lemma SerialIsFilled()
    ensures ColumnNames(SERIAL_PARENT) == {"id", "name"} && Skipped(SERIAL_PARENT, {}) == {"id"}
    ensures WellFormed(SERIAL_PARENT)
  {
    var id, name := SERIAL_PARENT.columns[0], SERIAL_PARENT.columns[1];
    assert id.name == "id" && name.name == "name" && "id"[0] != "name"[0];
    var t := ToLower(id.dataType);
    assert t[3..9] == "serial";
    assert OccursAt(t, "serial", 3);
    NotFilled(name);
  }

  const SERIAL_ROW: Row := map["name" := Value(0, "a")]
  const SERIAL_STORED: Row := map["id" := Value(0, "1"), "name" := Value(0, "a")]

  /** The parent is stored with the key that the database gave it. */
  lemma SerialStored()
    ensures StoredAs(SERIAL_PARENT, [SERIAL_ROW], [SERIAL_STORED])
  {
    var columns := SentColumns(SERIAL_PARENT.columns, [SERIAL_ROW]);
    forall c | c in columns
      ensures c == "name"
    {
      SentColumnsExactly(SERIAL_PARENT.columns, [SERIAL_ROW], c);
    }
    assert RowStored(columns, SERIAL_ROW, SERIAL_STORED);
    assert SERIAL_STORED in [SERIAL_STORED] && "name" != "id" by {
      assert "id"[0] != "name"[0];
    }
  }

  const NOTHING: string -> seq<Value> := _ => []

  function ChildRow(text: string): Row {
    map["parent_id" := Value(0, text)]
  }

  lemma ChildKey(text: string, targets: seq<Row>)
    ensures KeyKept(CHILD_KEY, ChildRow(text), targets) <==> Shows(targets, "id", text)
    ensures RowsKeep(CHILD_KEY, [ChildRow(text)], targets) <==> Shows(targets, "id", text)
    ensures SentColumns(CHILD.columns, [ChildRow(text)]) != []
  {
    ChildRefers();
    assert HasKey(CHILD_KEY, ChildRow(text));
    WholeIsShown(CHILD_KEY, "parent_id", KeyTexts(CHILD_KEY, ChildRow(text)), targets);
    assert ChildRow(text) in [ChildRow(text)] && "parent_id" in ChildRow(text);
    SentColumnsExactly(CHILD.columns, [ChildRow(text)], "parent_id");
  }

  /** The model replies with a parent without a key and with a child of this parent key. The real tables are empty;
      the new ones enforce the child's foreign key. */
  function SerialWorld(text: string): World {
    World(at => Batch([if at == 0 then SERIAL_ROW else ChildRow(text)]), _ => _ => Failed, _ => AS_IS, _ => NOTHING,
          _ => {}, at => rows => at == 1 && !RowsKeep(CHILD_KEY, rows, [SERIAL_STORED]))
  }

  lemma NoKeyRecorded()
    ensures PKValues(SERIAL_PARENT, [SERIAL_ROW]) == []
  {
    assert "id"[0] != "name"[0];
    assert PKRow(["id"], SERIAL_ROW) == map[];
    assert [SERIAL_ROW][..0] == [] && PKRows(["id"], []) == [];
  }

  lemma SerialRowPlain(keys: map<string, seq<Row>>)
    requires KeyColumnsPaired(SERIAL_PARENT)
    ensures KeysResolved(SERIAL_PARENT, SERIAL_ROW, keys, NOTHING)
    ensures SERIAL_ROW.Keys !! Skipped(SERIAL_PARENT, {})
  {
    SerialIsFilled();
    assert "id"[0] != "name"[0];
    assert SERIAL_PARENT.foreignKeys == [];
  }

  lemma SerialParentRow(text: string, keys: map<string, seq<Row>>, out: seq<Row>)
    requires KeyColumnsPaired(SERIAL_PARENT) && Sends(SERIAL_PARENT, 0, keys, SerialWorld(text), out)
    ensures out == [SERIAL_ROW]
  {
    SerialRowPlain(keys);
    AsIsCoerces(SERIAL_PARENT.columns, SERIAL_ROW);
    OnlyOneRow(SERIAL_PARENT, 0, keys, SerialWorld(text), SERIAL_ROW, out);
  }

  lemma SerialChildRow(text: string, keys: map<string, seq<Row>>, out: seq<Row>)
    requires KeyColumnsPaired(CHILD) && Sends(CHILD, 1, keys, SerialWorld(text), out)
    requires "parent" in keys && keys["parent"] == []
    ensures out == [ChildRow(text)]
  {
    ChildRefers();
    AsIsCoerces(CHILD.columns, ChildRow(text));
    OnlyOneRow(CHILD, 1, keys, SerialWorld(text), ChildRow(text), out);
  }

  lemma SerialReplies(text: string)
    ensures !RepliesFail(SERIAL_PARENT, 0, SerialWorld(text)) && !RepliesFail(CHILD, 1, SerialWorld(text))
  {
    AsIsCoerces(SERIAL_PARENT.columns, SERIAL_ROW);
    AsIsCoerces(CHILD.columns, ChildRow(text));
  }

  lemma SerialParentPasses(text: string, keys: map<string, seq<Row>>)
    requires KeyColumnsPaired(SERIAL_PARENT)
    ensures !Stops(SERIAL_PARENT, 0, keys, SerialWorld(text))
  {
    SerialReplies(text);
  }

  lemma SerialStart(text: string, sent: seq<seq<Row>>)
    requires KeyColumnsPaired(SERIAL_PARENT) && KeyColumnsPaired(CHILD)
    requires RunOf([SERIAL_PARENT, CHILD], SerialWorld(text), sent)
    ensures |sent| >= 1 && sent[0] == [SERIAL_ROW]
  {
    var tables := [SERIAL_PARENT, CHILD];
    SerialParentPasses(text, RecordedKeys(tables, sent, 0));
    assert TableRuns(tables, SerialWorld(text), sent, 0);
    SerialParentRow(text, RecordedKeys(tables, sent, 0), sent[0]);
  }

  lemma RecordedFirst(tables: seq<Table>, sent: seq<seq<Row>>)
    requires 1 <= |sent| <= |tables|
    ensures RecordedKeys(tables, sent, 1) == map[tables[0].name := PKValues(tables[0], sent[0])]
  {
    assert RecordedKeys(tables, sent, 0) == map[];
  }

  lemma OnlyTheGuess(text: string)
    ensures RowsKeep(CHILD_KEY, [ChildRow(text)], [SERIAL_STORED]) <==> text == "1"
    ensures SentColumns(CHILD.columns, [ChildRow(text)]) != []
  {
    ChildKey(text, [SERIAL_STORED]);
    assert SERIAL_STORED in [SERIAL_STORED] && SERIAL_STORED["id"].shown == "1" by {
      assert "id"[0] != "name"[0];
    }
  }

  /** The witness: however that run goes, the parent is stored and the child is inserted exactly if the model guessed
      the key the database gave. */
  lemma SerialRun(text: string, sent: seq<seq<Row>>)
    requires KeyColumnsPaired(SERIAL_PARENT) && KeyColumnsPaired(CHILD)
    requires RunOf([SERIAL_PARENT, CHILD], SerialWorld(text), sent)
    ensures |sent| >= 1 && StoredAs(SERIAL_PARENT, sent[0], [SERIAL_STORED])
    ensures |sent| == 2 <==> text == "1"
  {
    var tables, world, keys := [SERIAL_PARENT, CHILD], SerialWorld(text), map["parent" := []];
    SerialStart(text, sent);
    RecordedFirst(tables, sent);
    NoKeyRecorded();
    SerialStored();
    SerialReplies(text);
    OnlyTheGuess(text);
    if |sent| == 1 {
      var out :| Sends(CHILD, 1, keys, world, out) && Refused(CHILD, 1, world, out);
      SerialChildRow(text, keys, out);
    } else {
      assert TableRuns(tables, world, sent, 1);
      SerialChildRow(text, keys, sent[1]);
    }
  }
}
