/** Primary keys are not among the indexes that pkg/schema/inspector.go returns, so pkg/generator/generator.go does not
    keep generated rows distinct on them. When are the rows sent distinct on the primary key all the same? */
module PrimaryKeys {
  import opened Schema
  import opened UniqueTracking
  import opened RowGeneration
  import opened Generation
  import opened References
  import opened Overfill

  /** The row has this key, as shown. */
  predicate HasValues(row: Row, key: Row) {
    forall c | c in key :: c in row && row[c].shown == key[c].shown
  }

  /** Whatever the model replies, no two rows sent have this key. */
  ghost predicate SentOnce(table: Table, pkValues: map<string, seq<Row>>, setting: Setting, key: Row)
    requires KeyColumnsPaired(table)
  {
    forall at: nat, world: World, out: seq<Row>, i, j |
      && SettingOf(world, table) == setting && Sends(table, at, pkValues, world, out)
      && 0 <= i < j < |out| ::
      !(HasValues(out[i], key) && HasValues(out[j], key))
  }

  predicate InsideKey(table: Table, cols: seq<string>) {
    forall c | c in cols :: c in table.primaryKey
  }

  lemma SameTuple(cols: seq<string>, a: Row, b: Row, key: Row)
    requires HasValues(a, key) && HasValues(b, key) && forall c | c in cols :: c in key
    ensures Tuple(cols, a) == Tuple(cols, b)
  {
    assert forall k | 0 <= k < |cols| :: cols[k] in key;
  }

  /** An index inside the key tells any two rows apart on the key. */
  lemma InsideIndexDistinct(table: Table, pkValues: map<string, seq<Row>>, setting: Setting, key: Row,
                            cols: seq<string>)
    requires KeyColumnsPaired(table) && cols in UniqueColumns(table.indexes) && InsideKey(table, cols)
    requires forall c | c in table.primaryKey :: c in key && c !in Skipped(table, setting.also)
    ensures SentOnce(table, pkValues, setting, key)
  {
    forall at: nat, world: World, out: seq<Row>, i, j |
      && SettingOf(world, table) == setting && Sends(table, at, pkValues, world, out)
      && 0 <= i < j < |out|
      ensures !(HasValues(out[i], key) && HasValues(out[j], key))
    {
      SentRowsSatisfy(table, at, pkValues, world, out);
      assert Tuple(cols, out[i]) != Tuple(cols, out[j]);
      if HasValues(out[i], key) && HasValues(out[j], key) {
        SameTuple(cols, out[i], out[j], key);
      }
    }
  }

  // ----- Two rows with one key ----------------------------------------------------------------

  /** Two such rows that the tracker keeps, given by their texts. */
  lemma TwoKept(constraints: seq<seq<string>>, key: Row, spare: set<string>) returns (v: string, w: string)
    requires forall c | c in constraints :: HasSpare(c, spare)
    ensures var rows := [Widened(key, spare, v), Widened(key, spare, w)];
            KeepAll(constraints, [rows]) == rows
  {
    var rows := FreshBatch(constraints, [], key, spare, 2);
    FirstBatchKept(constraints, rows);
    assert rows[0] in rows && rows[1] in rows;
    v :| rows[0] == Widened(key, spare, v);
    w :| rows[1] == Widened(key, spare, w);
    assert rows == [Widened(key, spare, v), Widened(key, spare, w)] && [] + rows == rows;
  }

  lemma BatchEnforced(table: Table, replies: nat -> Reply, coerce: Row -> Option<Row>, fk: FKValues, rows: seq<Row>)
    requires KeepAll(UniqueColumns(table.indexes), [rows]) == rows
    ensures Enforced(table, rows, replies, coerce, fk, rows, 0, [])
  {
    assert [rows] + [] == [rows];
  }

  /** A key value in each column of the key, and any text in the spare columns outside it. */
  lemma WidenedHoldable(table: Table, pkValues: map<string, seq<Row>>, setting: Setting, key: Row,
                        spare: set<string>, w: string)
    requires KeyColumnsPaired(table) && LeavesTexts(table, setting.convert)
    requires HoldableRow(table, pkValues, setting, key)
    requires spare <= Spare(table, AllChoices(table, pkValues, setting.database))
    ensures HoldableRow(table, pkValues, setting, Widened(key, spare, w))
  {
    forall c | c in spare
      ensures MayHold(setting.convert(c), Choices(table, c, pkValues, setting.database), Value(0, w))
    {
      var fk := AllChoices(table, pkValues, setting.database);
      assert c in Spare(table, fk) && c in ColumnNames(table) && Lookup(fk, c) == fk[c] == [];
      assert CoerceValue(setting.convert(c), Value(0, w)) == Option.Some(Value(0, w));
      assert Admits(setting.convert(c), Value(0, w)) && LeftBy([], Value(0, w), Value(0, w));
    }
  }

  /** A reply of these rows. */
  function ReplyWorld(raws: seq<Row>, setting: Setting): World {
    World(_ => Batch(raws), _ => _ => Failed, _ => setting.convert, _ => setting.database, _ => setting.also,
          _ => _ => false)
  }

  ghost predicate Sendable(table: Table, pkValues: map<string, seq<Row>>, setting: Setting, row: Row)
    requires KeyColumnsPaired(table)
  {
    row.Keys <= ColumnNames(table) && HoldableRow(table, pkValues, setting, row)
  }

  lemma HeldRowCoerced(table: Table, pkValues: map<string, seq<Row>>, setting: Setting, row: Row)
    returns (raw: Row, mid: Row)
    requires KeyColumnsPaired(table) && DistinctColumns(table) && Sendable(table, pkValues, setting, row)
    ensures Coercion(table, setting.convert)(raw) == Option.Some(mid)
    ensures Repaired(mid, row, AllChoices(table, pkValues, setting.database))
  {
    mid := MidRow(table, pkValues, setting, row);
    raw := RawRow(setting.convert, mid);
    CoercedTo(table, setting.convert, raw, mid);
    RepairedToChoices(table, pkValues, setting.database, mid, row);
  }

  lemma TwoCoerced(table: Table, pkValues: map<string, seq<Row>>, setting: Setting, a: Row, b: Row)
    returns (raws: seq<Row>, mids: seq<Row>)
    requires KeyColumnsPaired(table) && DistinctColumns(table)
    requires Sendable(table, pkValues, setting, a) && Sendable(table, pkValues, setting, b)
    ensures Coerced(raws, mids, Coercion(table, setting.convert))
    ensures BatchRepaired(mids, [a, b], AllChoices(table, pkValues, setting.database))
  {
    var rawA, midA := HeldRowCoerced(table, pkValues, setting, a);
    var rawB, midB := HeldRowCoerced(table, pkValues, setting, b);
    raws, mids := [rawA, rawB], [midA, midB];
  }

  lemma BatchSent(table: Table, pkValues: map<string, seq<Row>>, world: World, raws: seq<Row>, mids: seq<Row>,
                  rows: seq<Row>, out: seq<Row>)
    requires KeyColumnsPaired(table) && world.firstReply(0) == Batch(raws)
    requires Coerced(raws, mids, Coercion(table, world.convert(table)))
    requires BatchRepaired(mids, rows, AllChoices(table, pkValues, world.database(table)))
    requires KeepAll(UniqueColumns(table.indexes), [rows]) == rows
    requires WithoutColumns(rows, out, Skipped(table, world.alsoSkipped(table)))
    ensures Sends(table, 0, pkValues, world, out)
  {
    var fk := AllChoices(table, pkValues, world.database(table));
    AllChoicesOffered(table, pkValues, world.database(table));
    BatchEnforced(table, world.retries(0), Coercion(table, world.convert(table)), fk, rows);
    assert SentBy(table, 0, pkValues, world, out, TableSteps(fk, mids, rows, rows, 0, []));
  }

  /** Two rows that their columns may hold, and that the tracker keeps, are sent by some run. */
  lemma HeldRowsSent(table: Table, pkValues: map<string, seq<Row>>, setting: Setting, a: Row, b: Row, out: seq<Row>)
    returns (world: World)
    requires KeyColumnsPaired(table) && DistinctColumns(table)
    requires Sendable(table, pkValues, setting, a) && Sendable(table, pkValues, setting, b)
    requires KeepAll(UniqueColumns(table.indexes), [[a, b]]) == [a, b]
    requires WithoutColumns([a, b], out, Skipped(table, setting.also))
    ensures SettingOf(world, table) == setting && Sends(table, 0, pkValues, world, out)
  {
    var raws, mids := TwoCoerced(table, pkValues, setting, a, b);
    world := ReplyWorld(raws, setting);
    BatchSent(table, pkValues, world, raws, mids, [a, b], out);
  }

  lemma SentTwice(table: Table, pkValues: map<string, seq<Row>>, setting: Setting, key: Row, world: World,
                  out: seq<Row>)
    requires KeyColumnsPaired(table) && SettingOf(world, table) == setting && Sends(table, 0, pkValues, world, out)
    requires |out| == 2 && HasValues(out[0], key) && HasValues(out[1], key)
    ensures !SentOnce(table, pkValues, setting, key)
  {}

  /** What is left of such a row has the key. */
  lemma WidenedRow(table: Table, pkValues: map<string, seq<Row>>, setting: Setting, key: Row, spare: set<string>,
                   w: string)
    requires KeyColumnsPaired(table) && LeavesTexts(table, setting.convert)
    requires HoldableRow(table, pkValues, setting, key)
    requires spare <= Spare(table, AllChoices(table, pkValues, setting.database)) && spare !! key.Keys
    requires key.Keys <= ColumnNames(table) && key.Keys !! Skipped(table, setting.also)
    ensures Sendable(table, pkValues, setting, Widened(key, spare, w))
    ensures HasValues(Widened(key, spare, w) - Skipped(table, setting.also), key)
  {
    WidenedHoldable(table, pkValues, setting, key, spare, w);
  }

  /** With something spare outside the key in every index, some run sends two rows with the key. */
  lemma OutsideSentTwice(table: Table, pkValues: map<string, seq<Row>>, setting: Setting, key: Row,
                         spare: set<string>)
    requires WellFormed(table) && LeavesTexts(table, setting.convert) && HoldableRow(table, pkValues, setting, key)
    requires spare <= Spare(table, AllChoices(table, pkValues, setting.database)) && spare !! key.Keys
    requires key.Keys <= ColumnNames(table) && key.Keys !! Skipped(table, setting.also)
    requires forall c | c in UniqueColumns(table.indexes) :: HasSpare(c, spare)
    ensures !SentOnce(table, pkValues, setting, key)
  {
    var v, w := TwoKept(UniqueColumns(table.indexes), key, spare);
    var a, b, skip := Widened(key, spare, v), Widened(key, spare, w), Skipped(table, setting.also);
    WidenedRow(table, pkValues, setting, key, spare, v);
    WidenedRow(table, pkValues, setting, key, spare, w);
    var world := HeldRowsSent(table, pkValues, setting, a, b, [a - skip, b - skip]);
    SentTwice(table, pkValues, setting, key, world, [a - skip, b - skip]);
  }

  /** Main result: for any values that the key's columns may hold, it is sure that no two rows sent have them exactly
      when some unique index has all its columns in the key. */
  lemma PrimaryKeyDistinctIff(table: Table, pkValues: map<string, seq<Row>>, setting: Setting, key: Row)
    requires WellFormed(table) && LeavesTexts(table, setting.convert) && HoldableRow(table, pkValues, setting, key)
    requires key.Keys == (set c | c in table.primaryKey) && key.Keys !! Skipped(table, setting.also)
    requires forall c | c in UniqueColumns(table.indexes) ::
               || InsideKey(table, c)
               || HasSpare(c, Spare(table, AllChoices(table, pkValues, setting.database)) - key.Keys)
    ensures SentOnce(table, pkValues, setting, key) <==>
              exists c | c in UniqueColumns(table.indexes) :: InsideKey(table, c)
  {
    if c :| c in UniqueColumns(table.indexes) && InsideKey(table, c) {
      InsideIndexDistinct(table, pkValues, setting, key, c);
    } else {
      var spare := Spare(table, AllChoices(table, pkValues, setting.database)) - key.Keys;
      OutsideSentTwice(table, pkValues, setting, key, spare);
    }
  }
}
