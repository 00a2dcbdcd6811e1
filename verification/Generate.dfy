/** The table loop of `Generate` (pkg/generator/generator.go): foreign-key values flow from the rows of earlier
    tables into later ones. Replies, conversions, database look-ups and the database's verdict on an insertion are
    oracles. */
module Generation {
  import opened Strings
  import opened Schema
  import opened TopoSort
  import opened UniqueTracking
  import opened RowGeneration

  /** Everything outside the generator, for the table at each position of the list. */
  datatype World = World(
    firstReply: nat -> Reply,
    retries: nat -> nat -> Reply,
    convert: Table -> Conversion,
    database: Table -> string -> seq<Value>,  // QueryFKValues; empty without an inspector or on an error
    alsoSkipped: Table -> set<string>,        // generated columns, and those the configuration says to skip
    insertFails: nat -> seq<Row> -> bool)     // what the database says to the rows sent

  predicate KeyColumnsPaired(table: Table) {
    forall fk | fk in table.foreignKeys :: |fk.columns| <= |fk.referencedCols|
  }

  // ----- fkTarget, fkRefCol -------------------------------------------------------------------

  /** The position of the first foreign key that contains the column, if any. */
  function OwnerOf(fks: seq<ForeignKey>, col: string): Option<ForeignKey> {
    if fks == [] then None else if col in fks[0].columns then Some(fks[0]) else OwnerOf(fks[1..], col)
  }

  function PositionOf(cols: seq<string>, col: string): nat
    requires col in cols
    ensures PositionOf(cols, col) < |cols| && cols[PositionOf(cols, col)] == col
  {
    if cols[0] == col then 0 else 1 + PositionOf(cols[1..], col)
  }

  lemma {:induction false} OwnerHasColumn(fks: seq<ForeignKey>, col: string)
    ensures OwnerOf(fks, col).Some? ==> OwnerOf(fks, col).value in fks && col in OwnerOf(fks, col).value.columns
  {
    if fks != [] && col !in fks[0].columns {
      OwnerHasColumn(fks[1..], col);
    }
  }

  method FKTarget(table: Table, colName: string) returns (target: Option<string>)
    ensures target ==
            match OwnerOf(table.foreignKeys, colName) case None => None case Some(fk) => Some(fk.referencedTable)
  {
    assert table.foreignKeys[0..] == table.foreignKeys;
    for i := 0 to |table.foreignKeys|
      invariant OwnerOf(table.foreignKeys, colName) == OwnerOf(table.foreignKeys[i..], colName)
    {
      assert table.foreignKeys[i..][1..] == table.foreignKeys[i + 1..];
      if colName in table.foreignKeys[i].columns {
        return Some(table.foreignKeys[i].referencedTable);
      }
    }
    return None;
  }

  function RefCol(fk: ForeignKey, col: string): string
    requires col in fk.columns && |fk.columns| <= |fk.referencedCols|
  {
    fk.referencedCols[PositionOf(fk.columns, col)]
  }

  // ----- extractPKValues ----------------------------------------------------------------------

  function PKRow(primaryKey: seq<string>, row: Row): Row {
    map pk | pk in primaryKey && pk in row :: row[pk]
  }

  function PKRows(primaryKey: seq<string>, rows: seq<Row>): seq<Row> {
    if rows == [] then []
    else
      var n := |rows| - 1;
      PKRows(primaryKey, rows[..n]) + if PKRow(primaryKey, rows[n]) != map[] then [PKRow(primaryKey, rows[n])] else []
  }

  function PKValues(table: Table, rows: seq<Row>): seq<Row> {
    if |table.primaryKey| == 0 then [] else PKRows(table.primaryKey, rows)
  }

  method ExtractPKValues(table: Table, rows: seq<Row>) returns (result: seq<Row>)
    ensures result == PKValues(table, rows)
  {
    if |table.primaryKey| == 0 {
      return [];
    }
    result := [];
    for i := 0 to |rows|
      invariant result == PKRows(table.primaryKey, rows[..i])
    {
      assert rows[..i + 1][..i] == rows[..i];
      var pkRow: Row := map[];
      for k := 0 to |table.primaryKey|
        invariant pkRow == PKRow(table.primaryKey[..k], rows[i])
      {
        assert table.primaryKey[..k + 1] == table.primaryKey[..k] + [table.primaryKey[k]];
        if table.primaryKey[k] in rows[i] {
          pkRow := pkRow[table.primaryKey[k] := rows[i][table.primaryKey[k]]];
        }
      }
      assert table.primaryKey[..|table.primaryKey|] == table.primaryKey;
      if pkRow != map[] {
        result := result + [pkRow];
      }
    }
    assert rows[..|rows|] == rows;
  }

  /** The values the recorded key rows have in one column. */
  function Recorded(refs: seq<Row>, col: string): seq<Value> {
    if refs == [] then []
    else
      var n := |refs| - 1;
      Recorded(refs[..n], col) + if col in refs[n] then [refs[n][col]] else []
  }

  // ----- The values a foreign-key column may take ---------------------------------------------

  /** What the recorded rows of the referenced table offer. */
  function FromRecords(table: Table, col: string, pkValues: map<string, seq<Row>>): seq<Value>
    requires KeyColumnsPaired(table)
  {
    OwnerHasColumn(table.foreignKeys, col);
    match OwnerOf(table.foreignKeys, col)
    case None => []
    case Some(fk) =>
      if fk.referencedTable in pkValues then Recorded(pkValues[fk.referencedTable], RefCol(fk, col)) else []
  }

  /** `database` is what the database offers for the columns of this table. */
  function Choices(table: Table, col: string, pkValues: map<string, seq<Row>>,
                   database: string -> seq<Value>): seq<Value>
    requires KeyColumnsPaired(table)
  {
    var recorded := FromRecords(table, col, pkValues);
    if recorded != [] then recorded
    else if OwnerOf(table.foreignKeys, col).Some? then database(col)
    else []
  }

  function Lookup(fk: FKValues, col: string): seq<Value> {
    if col in fk then fk[col] else []
  }

  /** The values of one column of the recorded rows. */
  method CollectRecorded(refs: seq<Row>, col: string) returns (vals: seq<Value>)
    ensures vals == Recorded(refs, col)
  {
    vals := [];
    for k := 0 to |refs|
      invariant vals == Recorded(refs[..k], col)
    {
      assert refs[..k + 1][..k] == refs[..k];
      if col in refs[k] {
        vals := vals + [refs[k][col]];
      }
    }
    assert refs[..|refs|] == refs;
  }

  /** First loop: values recorded for earlier tables. */
  method RecordedValues(table: Table, pkValues: map<string, seq<Row>>) returns (fk: FKValues)
    requires KeyColumnsPaired(table)
    ensures fk.Keys <= ColumnNames(table)
    ensures forall col | col in ColumnNames(table) :: Lookup(fk, col) == FromRecords(table, col, pkValues)
  {
    fk := map[];
    for i := 0 to |table.columns|
      invariant fk.Keys <= ColumnNames(table)
      invariant forall col | col in fk :: fk[col] == FromRecords(table, col, pkValues)
      invariant forall j | 0 <= j < i ::
                  Lookup(fk, table.columns[j].name) == FromRecords(table, table.columns[j].name, pkValues)
    {
      var name := table.columns[i].name;
      var target := FKTarget(table, name);
      OwnerHasColumn(table.foreignKeys, name);
      if target.Some? && target.value in pkValues && |pkValues[target.value]| > 0 {
        var vals := CollectRecorded(pkValues[target.value], RefCol(OwnerOf(table.foreignKeys, name).value, name));
        fk := fk[name := vals];
      }
    }
  }

  /** The values found for the columns of the table. */
  ghost predicate Offers(table: Table, pkValues: map<string, seq<Row>>, database: string -> seq<Value>, fk: FKValues)
    requires KeyColumnsPaired(table)
  {
    && fk.Keys <= ColumnNames(table)
    && forall col | col in ColumnNames(table) :: Lookup(fk, col) == Choices(table, col, pkValues, database)
  }

  /** The second loop, with the columns in `seen` looked at so far. */
  predicate Resolving(table: Table, pkValues: map<string, seq<Row>>, database: string -> seq<Value>, fk: FKValues,
                      seen: set<string>)
    requires KeyColumnsPaired(table)
  {
    && fk.Keys <= ColumnNames(table)
    && forall col | col in ColumnNames(table) ::
         Lookup(fk, col) ==
         if col in seen then Choices(table, col, pkValues, database) else FromRecords(table, col, pkValues)
  }

  lemma ResolvingNext(table: Table, pkValues: map<string, seq<Row>>, database: string -> seq<Value>, fk: FKValues,
                      seen: set<string>, fk': FKValues, name: string)
    requires KeyColumnsPaired(table) && Resolving(table, pkValues, database, fk, seen) && name in ColumnNames(table)
    requires fk' == fk || fk' == fk[name := database(name)]
    requires Lookup(fk', name) == Choices(table, name, pkValues, database)
    ensures Resolving(table, pkValues, database, fk', seen + {name})
  {}

  /** Second loop: values from the database where nothing was recorded. */
  method ResolveFKValues(table: Table, pkValues: map<string, seq<Row>>,
                         database: string -> seq<Value>) returns (fk: FKValues)
    requires KeyColumnsPaired(table)
    ensures Offers(table, pkValues, database, fk)
  {
    fk := RecordedValues(table, pkValues);
    ghost var seen: set<string> := {};
    for i := 0 to |table.columns|
      invariant forall j | 0 <= j < i :: table.columns[j].name in seen
      invariant Resolving(table, pkValues, database, fk, seen)
    {
      var name := table.columns[i].name;
      ghost var before := fk;
      if |Lookup(fk, name)| == 0 {
        var target := FKTarget(table, name);
        if target.Some? {
          var vals := database(name);
          if |vals| > 0 {
            fk := fk[name := vals];
          }
        }
      }
      ResolvingNext(table, pkValues, database, before, seen, fk, name);
      seen := seen + {name};
    }
  }

  // ----- skipColumns --------------------------------------------------------------------------

  /** The database fills the column by itself. */
  predicate FilledByDatabase(c: Column) {
    || Contains(c.defaultValue, "nextval(") || Contains(c.defaultValue, "gen_random_uuid()")
    || Contains(ToLower(c.dataType), "serial")
  }

  function Skipped(table: Table, also: set<string>): set<string> {
    set c | c in table.columns && (FilledByDatabase(c) || c.name in also) :: c.name
  }

  /** Skipped are exactly the columns whose default calls one of the two functions, those of a serial type in any
      case, and those of the further set. */
  lemma SkippedIff(table: Table, also: set<string>, name: string)
    ensures name in Skipped(table, also) <==>
              exists c | c in table.columns && c.name == name ::
                || (exists a, b :: c.defaultValue == a + "nextval(" + b)
                || (exists a, b :: c.defaultValue == a + "gen_random_uuid()" + b)
                || (exists a, b :: ToLower(c.dataType) == a + "serial" + b)
                || name in also
  {
    forall c | c in table.columns
      ensures FilledByDatabase(c) <==>
                || (exists a, b :: c.defaultValue == a + "nextval(" + b)
                || (exists a, b :: c.defaultValue == a + "gen_random_uuid()" + b)
                || (exists a, b :: ToLower(c.dataType) == a + "serial" + b)
    {
      ContainsIff(c.defaultValue, "nextval(");
      ContainsIff(c.defaultValue, "gen_random_uuid()");
      ContainsIff(ToLower(c.dataType), "serial");
    }
  }

  method SkipColumns(table: Table, also: set<string>) returns (skip: seq<string>)
    ensures forall name :: name in skip <==> name in Skipped(table, also)
  {
    skip := [];
    for i := 0 to |table.columns|
      invariant forall name :: name in skip <==>
                  exists j | 0 <= j < i ::
                    table.columns[j].name == name && (FilledByDatabase(table.columns[j]) || name in also)
    {
      var col := table.columns[i];
      if Contains(col.defaultValue, "nextval(") || Contains(col.defaultValue, "gen_random_uuid()") {
        skip := skip + [col.name];
        continue;
      }
      if Contains(ToLower(col.dataType), "serial") {
        skip := skip + [col.name];
        continue;
      }
      if col.name in also {
        skip := skip + [col.name];
      }
    }
  }

  // ----- One table ----------------------------------------------------------------------------

  predicate Coerced(raw: seq<Row>, out: seq<Row>, coerce: Row -> Option<Row>) {
    |out| == |raw| && forall i | 0 <= i < |raw| :: coerce(raw[i]) == Some(out[i])
  }

  /** One row that does not coerce fails the whole batch. */
  method CoerceBatch(table: Table, rows: seq<Row>, convert: Conversion) returns (out: Option<seq<Row>>)
    ensures out.Some? ==> Coerced(rows, out.value, Coercion(table, convert))
    ensures out.None? ==> exists r | r in rows :: Coercion(table, convert)(r).None?
  {
    var done: seq<Row> := [];
    for i := 0 to |rows|
      invariant Coerced(rows[..i], done, Coercion(table, convert))
    {
      var c := CoerceRow(table, rows[i], convert);
      if c.None? {
        return None;
      }
      done := done + [c.value];
    }
    assert rows[..|rows|] == rows;
    return Some(done);
  }

  predicate WithoutColumns(rows: seq<Row>, out: seq<Row>, skip: set<string>) {
    |out| == |rows| && forall i | 0 <= i < |rows| :: out[i] == rows[i] - skip
  }

  method RemoveSkipped(rows: seq<Row>, skip: seq<string>, ghost skipped: set<string>) returns (out: seq<Row>)
    requires forall name :: name in skip <==> name in skipped
    ensures WithoutColumns(rows, out, skipped)
  {
    var skipSet: set<string> := {};
    for i := 0 to |skip|
      invariant forall name :: name in skipSet <==> name in skip[..i]
    {
      skipSet := skipSet + {skip[i]};
    }
    assert skip[..|skip|] == skip && skipSet == skipped;
    out := [];
    for i := 0 to |rows|
      invariant WithoutColumns(rows[..i], out, skipped)
    {
      out := out + [rows[i] - skipSet];
    }
    assert rows[..|rows|] == rows;
  }

  /** There are no rows to send: no reply, or one with a row that does not coerce. */
  predicate RepliesFail(table: Table, at: nat, world: World) {
    match world.firstReply(at)
    case Failed => true
    case Batch(rows) => exists r | r in rows :: Coercion(table, world.convert(table))(r).None?
  }

  /** What happened on the way to the rows sent. */
  datatype TableSteps = TableSteps(fk: FKValues, coerced: seq<Row>, first: seq<Row>, kept: seq<Row>, lost: int,
                                   extra: seq<seq<Row>>)

  /** The first reply coerced, repaired and made unique, without the skipped columns. */
  ghost predicate SentBy(table: Table, at: nat, pkValues: map<string, seq<Row>>, world: World, out: seq<Row>,
                         steps: TableSteps)
    requires KeyColumnsPaired(table)
  {
    && world.firstReply(at).Batch?
    && Offers(table, pkValues, world.database(table), steps.fk)
    && var coerce := Coercion(table, world.convert(table));
    && Coerced(world.firstReply(at).rows, steps.coerced, coerce)
    && BatchRepaired(steps.coerced, steps.first, steps.fk)
    && Enforced(table, steps.first, world.retries(at), coerce, steps.fk, steps.kept, steps.lost, steps.extra)
    && WithoutColumns(steps.kept, out, Skipped(table, world.alsoSkipped(table)))
  }

  /** A run of the table may send these rows; only the draws of valid key values are open. */
  ghost predicate Sends(table: Table, at: nat, pkValues: map<string, seq<Row>>, world: World, out: seq<Row>)
    requires KeyColumnsPaired(table)
  {
    exists steps :: SentBy(table, at, pkValues, world, out, steps)
  }

  /** The columns of a COPY, in the table's order: those that some row has. */
  function SentColumns(columns: seq<Column>, rows: seq<Row>): seq<string> {
    if columns == [] then []
    else
      var n := |columns| - 1;
      var some := exists r: Row | r in rows :: columns[n].name in r;
      SentColumns(columns[..n], rows) + if some then [columns[n].name] else []
  }

  /** `insertRows`: nothing is sent without rows or without columns; otherwise the database decides. */
  method InsertRows(table: Table, rows: seq<Row>, fails: seq<Row> -> bool) returns (ok: bool)
    ensures ok <==> SentColumns(table.columns, rows) == [] || !fails(rows)
  {
    if |rows| == 0 {
      NothingSent(table.columns);
      return true;
    }
    var found: set<string> := {};
    for i := 0 to |rows|
      invariant forall name :: name in found <==> exists j | 0 <= j < i :: name in rows[j]
    {
      found := found + rows[i].Keys;
    }
    var columns: seq<string> := [];
    for i := 0 to |table.columns|
      invariant columns == SentColumns(table.columns[..i], rows)
    {
      assert table.columns[..i + 1][..i] == table.columns[..i];
      if table.columns[i].name in found {
        columns := columns + [table.columns[i].name];
      }
    }
    assert table.columns[..|table.columns|] == table.columns;
    if |columns| == 0 {
      return true;
    }
    return !fails(rows);
  }

  lemma {:induction false} NothingSent(columns: seq<Column>)
    ensures SentColumns(columns, []) == []
  {
    if columns != [] {
      NothingSent(columns[..|columns| - 1]);
    }
  }

  predicate Refused(table: Table, at: nat, world: World, rows: seq<Row>) {
    SentColumns(table.columns, rows) != [] && world.insertFails(at)(rows)
  }

  ghost predicate Inserts(table: Table, at: nat, pkValues: map<string, seq<Row>>, world: World, out: seq<Row>)
    requires KeyColumnsPaired(table)
  {
    Sends(table, at, pkValues, world, out) && !Refused(table, at, world, out)
  }

  /** A run of the table may end in an error: nothing to send, or rows that the database refuses. */
  ghost predicate Stops(table: Table, at: nat, pkValues: map<string, seq<Row>>, world: World)
    requires KeyColumnsPaired(table)
  {
    || RepliesFail(table, at, world)
    || exists out :: Sends(table, at, pkValues, world, out) && Refused(table, at, world, out)
  }

  method GenerateTable(table: Table, at: nat, pkValues: map<string, seq<Row>>,
                       world: World) returns (r: Option<seq<Row>>)
    requires KeyColumnsPaired(table)
    ensures RepliesFail(table, at, world) ==> r.None?
    ensures r.None? ==> Stops(table, at, pkValues, world)
    ensures r.Some? ==> Inserts(table, at, pkValues, world, r.value)
  {
    var skip := SkipColumns(table, world.alsoSkipped(table));
    var fk := ResolveFKValues(table, pkValues, world.database(table));
    var reply := world.firstReply(at);
    if reply.Failed? {
      return None;
    }
    ghost var coerce := Coercion(table, world.convert(table));
    var coerced := CoerceBatch(table, reply.rows, world.convert(table));
    if coerced.None? {
      return None;
    }
    var first := RepairBatch(coerced.value, fk);
    var kept, lost, extra := EnforceUnique(table, first, world.retries(at), world.convert(table), fk, coerce);
    var out := RemoveSkipped(kept, skip, Skipped(table, world.alsoSkipped(table)));
    assert SentBy(table, at, pkValues, world, out, TableSteps(fk, coerced.value, first, kept, lost, extra));
    EveryRowCoerced(reply.rows, coerced.value, coerce);
    var ok := InsertRows(table, out, world.insertFails(at));
    if !ok {
      assert Sends(table, at, pkValues, world, out) && Refused(table, at, world, out);
      return None;
    }
    return Some(out);
  }

  lemma EveryRowCoerced(raw: seq<Row>, out: seq<Row>, coerce: Row -> Option<Row>)
    requires Coerced(raw, out, coerce)
    ensures forall r | r in raw :: coerce(r).Some?
  {}

  // ----- What the rows sent satisfy -----------------------------------------------------------

  /** Every foreign-key column present holds, as shown, one of the values it may take, if there are any. */
  predicate KeysResolved(table: Table, row: Row, pkValues: map<string, seq<Row>>, database: string -> seq<Value>)
    requires KeyColumnsPaired(table)
  {
    forall col | col in ColumnNames(table) && col in row ::
      var choices := Choices(table, col, pkValues, database);
      choices == [] || ShownIn(choices, row[col])
  }

  /** The unique indexes that name no skipped column. */
  predicate DistinctRows(table: Table, rows: seq<Row>, skip: set<string>) {
    forall c, i, j | c in UniqueColumns(table.indexes) && (forall col | col in c :: col !in skip)
                   && 0 <= i < j < |rows| ::
      Tuple(c, rows[i]) != Tuple(c, rows[j])
  }

  lemma SkippingKeepsTuple(cols: seq<string>, row: Row, skip: set<string>)
    requires forall c | c in cols :: c !in skip
    ensures Tuple(cols, row - skip) == Tuple(cols, row)
  {}

  lemma KeptRowsResolved(table: Table, pkValues: map<string, seq<Row>>, database: string -> seq<Value>, fk: FKValues,
                         kept: seq<Row>, out: seq<Row>, skip: set<string>)
    requires KeyColumnsPaired(table) && Offers(table, pkValues, database, fk) && WithoutColumns(kept, out, skip)
    requires forall r | r in kept :: FKValid(r, fk)
    ensures forall r | r in out :: KeysResolved(table, r, pkValues, database) && r.Keys !! skip
  {
    forall r | r in out
      ensures KeysResolved(table, r, pkValues, database) && r.Keys !! skip
    {
      var i :| 0 <= i < |out| && out[i] == r;
      assert kept[i] in kept && FKValid(kept[i], fk);
    }
  }

  lemma KeptRowsDistinct(table: Table, kept: seq<Row>, out: seq<Row>, skip: set<string>)
    requires WithoutColumns(kept, out, skip) && DistinctOn(UniqueColumns(table.indexes), kept)
    ensures DistinctRows(table, out, skip)
  {
    forall c, i, j | c in UniqueColumns(table.indexes) && (forall col | col in c :: col !in skip) && 0 <= i < j < |out|
      ensures Tuple(c, out[i]) != Tuple(c, out[j])
    {
      SkippingKeepsTuple(c, kept[i], skip);
      SkippingKeepsTuple(c, kept[j], skip);
    }
  }

  lemma FirstProduced(raw: seq<Row>, coerced: seq<Row>, first: seq<Row>, coerce: Row -> Option<Row>, fk: FKValues)
    requires Coerced(raw, coerced, coerce) && BatchRepaired(coerced, first, fk)
    ensures forall r | r in first :: Produced(r, coerce, fk)
  {
    forall r | r in first
      ensures Produced(r, coerce, fk)
    {
      var i :| 0 <= i < |first| && first[i] == r;
      assert coerce(raw[i]) == Some(coerced[i]) && Repaired(coerced[i], first[i], fk);
    }
  }

  /** Whatever the oracles do: rows distinct on the unique indexes, valid key values, no skipped column. */
  lemma SentRowsSatisfy(table: Table, at: nat, pkValues: map<string, seq<Row>>, world: World, out: seq<Row>)
    requires KeyColumnsPaired(table) && Sends(table, at, pkValues, world, out)
    ensures forall r | r in out :: KeysResolved(table, r, pkValues, world.database(table))
    ensures forall r | r in out :: r.Keys !! Skipped(table, world.alsoSkipped(table))
    ensures DistinctRows(table, out, Skipped(table, world.alsoSkipped(table)))
  {
    var skip := Skipped(table, world.alsoSkipped(table));
    var st :| SentBy(table, at, pkValues, world, out, st);
    var coerce := Coercion(table, world.convert(table));
    FirstProduced(world.firstReply(at).rows, st.coerced, st.first, coerce, st.fk);
    KeptRowsSatisfy(table, st.first, world.retries(at), coerce, st.fk, st.kept, st.lost, st.extra);
    KeptRowsResolved(table, pkValues, world.database(table), st.fk, st.kept, out, skip);
    KeptRowsDistinct(table, st.kept, out, skip);
  }

  /** A column whose default calls `nextval` or `gen_random_uuid`, or whose type is a serial one, is never sent. */
  lemma FilledNeverSent(table: Table, at: nat, pkValues: map<string, seq<Row>>, world: World, out: seq<Row>,
                        c: Column, a: string, b: string)
    requires KeyColumnsPaired(table) && Sends(table, at, pkValues, world, out) && c in table.columns
    requires || c.defaultValue == a + "nextval(" + b || c.defaultValue == a + "gen_random_uuid()" + b
             || ToLower(c.dataType) == a + "serial" + b
    ensures forall r | r in out :: c.name !in r
  {
    SentRowsSatisfy(table, at, pkValues, world, out);
    SkippedIff(table, world.alsoSkipped(table), c.name);
  }

  /** What a column of a row sent holds, given what coercion made of the reply: a column of no foreign key, and one
      that has no values to take, keeps it; so does one that shows a value it may take; any other takes one. */
  predicate ColumnSent(table: Table, pkValues: map<string, seq<Row>>, database: string -> seq<Value>, mid: Row,
                       sent: Row, col: string)
    requires KeyColumnsPaired(table) && col in mid && col in sent
  {
    var choices := Choices(table, col, pkValues, database);
    && ((forall fk | fk in table.foreignKeys :: col !in fk.columns) ==> sent[col] == mid[col])
    && (choices == [] || (exists v | v in choices :: v.shown == mid[col].shown) ==> sent[col] == mid[col])
    && (choices != [] && (forall v | v in choices :: v.shown != mid[col].shown) ==> sent[col] in choices)
  }

  lemma {:induction false} NoOwner(fks: seq<ForeignKey>, col: string)
    requires forall fk | fk in fks :: col !in fk.columns
    ensures OwnerOf(fks, col).None?
  {
    if fks != [] {
      NoOwner(fks[1..], col);
    }
  }

  lemma RepairedColumn(table: Table, pkValues: map<string, seq<Row>>, database: string -> seq<Value>, fk: FKValues,
                       mid: Row, row: Row, sent: Row, col: string)
    requires KeyColumnsPaired(table) && Offers(table, pkValues, database, fk) && Repaired(mid, row, fk)
    requires col in mid && col in sent && sent[col] == row[col] && col in ColumnNames(table)
    ensures ColumnSent(table, pkValues, database, mid, sent, col)
  {
    if forall fk | fk in table.foreignKeys :: col !in fk.columns {
      NoOwner(table.foreignKeys, col);
    }
    assert Lookup(fk, col) == Choices(table, col, pkValues, database);
    assert col in fk ==> ColumnRepaired(mid, row, col, fk[col]);
  }

  /** Without unique indexes every row of the reply comes through, with its columns but the skipped ones. */
  lemma PlainRows(table: Table, at: nat, pkValues: map<string, seq<Row>>, world: World, out: seq<Row>)
    requires KeyColumnsPaired(table) && Sends(table, at, pkValues, world, out)
    requires forall idx | idx in table.indexes :: !idx.isUnique
    ensures world.firstReply(at).Batch? && |out| == |world.firstReply(at).rows|
    ensures forall i | 0 <= i < |out| ::
              var c := Coercion(table, world.convert(table))(world.firstReply(at).rows[i]);
              && c.Some? && out[i].Keys == c.value.Keys - Skipped(table, world.alsoSkipped(table))
              && forall col | col in out[i] && col in ColumnNames(table) ::
                   ColumnSent(table, pkValues, world.database(table), c.value, out[i], col)
  {
    NoUniqueIndex(table.indexes);
    var st :| SentBy(table, at, pkValues, world, out, st);
    assert st.kept == st.first;
    forall i | 0 <= i < |out|
      ensures var c := Coercion(table, world.convert(table))(world.firstReply(at).rows[i]);
              && c.Some? && out[i].Keys == c.value.Keys - Skipped(table, world.alsoSkipped(table))
              && forall col | col in out[i] && col in ColumnNames(table) ::
                   ColumnSent(table, pkValues, world.database(table), c.value, out[i], col)
    {
      assert Repaired(st.coerced[i], st.first[i], st.fk);
      forall col | col in out[i] && col in ColumnNames(table)
        ensures ColumnSent(table, pkValues, world.database(table), st.coerced[i], out[i], col)
      {
        RepairedColumn(table, pkValues, world.database(table), st.fk, st.coerced[i], st.first[i], out[i], col);
      }
    }
  }

  // ----- All tables ---------------------------------------------------------------------------

  /** The key rows recorded after the first `i` tables. */
  function RecordedKeys(tables: seq<Table>, inserted: seq<seq<Row>>, i: nat): map<string, seq<Row>>
    requires i <= |inserted| <= |tables|
  {
    if i == 0 then map[]
    else RecordedKeys(tables, inserted, i - 1)[tables[i - 1].name := PKValues(tables[i - 1], inserted[i - 1])]
  }

  lemma {:induction false} RecordedNames(tables: seq<Table>, inserted: seq<seq<Row>>, i: nat)
    requires i <= |inserted| <= |tables|
    ensures RecordedKeys(tables, inserted, i).Keys == Names(tables[..i])
  {
    if i > 0 {
      RecordedNames(tables, inserted, i - 1);
      assert tables[..i] == tables[..i - 1] + [tables[i - 1]];
    }
  }

  lemma {:induction false} RecordedKeysAre(tables: seq<Table>, inserted: seq<seq<Row>>, i: nat, j: nat)
    requires DistinctNames(tables) && j < i <= |inserted| <= |tables|
    ensures tables[j].name in RecordedKeys(tables, inserted, i)
    ensures RecordedKeys(tables, inserted, i)[tables[j].name] == PKValues(tables[j], inserted[j])
  {
    if j < i - 1 {
      RecordedKeysAre(tables, inserted, i - 1, j);
      assert tables[j].name != tables[i - 1].name;
    }
  }

  lemma {:induction false} RecordedKeysPrefix(tables: seq<Table>, inserted: seq<seq<Row>>, more: seq<seq<Row>>, i: nat)
    requires i <= |inserted| <= |inserted + more| <= |tables|
    ensures RecordedKeys(tables, inserted + more, i) == RecordedKeys(tables, inserted, i)
  {
    if i > 0 {
      RecordedKeysPrefix(tables, inserted, more, i - 1);
    }
  }

  /** A run over the list: every table up to the first that fails inserts its rows. */
  ghost predicate RunOf(tables: seq<Table>, world: World, inserted: seq<seq<Row>>)
    requires forall t | t in tables :: KeyColumnsPaired(t)
  {
    && |inserted| <= |tables|
    && (forall i | 0 <= i < |inserted| :: TableRuns(tables, world, inserted, i))
    && (|inserted| < |tables| ==>
          Stops(tables[|inserted|], |inserted|, RecordedKeys(tables, inserted, |inserted|), world))
  }

  ghost predicate TableRuns(tables: seq<Table>, world: World, inserted: seq<seq<Row>>, i: nat)
    requires i < |inserted| <= |tables| && forall t | t in tables :: KeyColumnsPaired(t)
  {
    Inserts(tables[i], i, RecordedKeys(tables, inserted, i), world, inserted[i])
  }

  lemma TableRunsOn(tables: seq<Table>, world: World, inserted: seq<seq<Row>>, rows: seq<Row>, i: nat)
    requires i < |inserted| < |tables| && forall t | t in tables :: KeyColumnsPaired(t)
    requires TableRuns(tables, world, inserted, i)
    ensures TableRuns(tables, world, inserted + [rows], i)
  {
    RecordedKeysPrefix(tables, inserted, [rows], i);
    assert (inserted + [rows])[i] == inserted[i];
  }

  lemma TableRunsLast(tables: seq<Table>, world: World, inserted: seq<seq<Row>>, all: seq<seq<Row>>, i: nat)
    requires i == |inserted| < |all| <= |tables| && all[..i] == inserted
    requires forall t | t in tables :: KeyColumnsPaired(t)
    requires Inserts(tables[i], i, RecordedKeys(tables, inserted, i), world, all[i])
    ensures TableRuns(tables, world, all, i)
  {
    assert all == inserted + all[i..];
    RecordedKeysPrefix(tables, inserted, all[i..], i);
  }

  lemma RunsNext(tables: seq<Table>, world: World, inserted: seq<seq<Row>>, rows: seq<Row>)
    requires |inserted| < |tables| && forall t | t in tables :: KeyColumnsPaired(t)
    requires forall i | 0 <= i < |inserted| :: TableRuns(tables, world, inserted, i)
    requires TableRuns(tables, world, inserted + [rows], |inserted|)
    ensures forall i | 0 <= i <= |inserted| :: TableRuns(tables, world, inserted + [rows], i)
  {
    forall i | 0 <= i < |inserted|
      ensures TableRuns(tables, world, inserted + [rows], i)
    {
      TableRunsOn(tables, world, inserted, rows, i);
    }
  }

  /** The whole run: which tables are generated, from what, and where it stops. */
  method Generate(tables: seq<Table>, world: World) returns (inserted: seq<seq<Row>>, ok: bool)
    requires forall t | t in tables :: KeyColumnsPaired(t)
    ensures RunOf(tables, world, inserted)
    ensures ok <==> |inserted| == |tables|
  {
    inserted := [];
    var pkValues: map<string, seq<Row>> := map[];
    for i := 0 to |tables|
      invariant |inserted| == i && pkValues == RecordedKeys(tables, inserted, i)
      invariant forall j | 0 <= j < i :: TableRuns(tables, world, inserted, j)
    {
      var table := tables[i];
      var rows := GenerateTable(table, i, pkValues, world);
      if rows.None? {
        return inserted, false;
      }
      TableRunsLast(tables, world, inserted, inserted + [rows.value], i);
      RunsNext(tables, world, inserted, rows.value);
      RecordedKeysPrefix(tables, inserted, [rows.value], i);
      inserted := inserted + [rows.value];
      var keys := ExtractPKValues(table, rows.value);
      pkValues := pkValues[table.name := keys];
    }
    ok := true;
  }

  // ----- Why the order matters ----------------------------------------------------------------

  function Select(order: seq<Table>, keep: Table -> bool): seq<Table> {
    if order == [] then []
    else
      var n := |order| - 1;
      Select(order[..n], keep) + if keep(order[n]) then [order[n]] else []
  }

  lemma {:induction false} SelectMembers(order: seq<Table>, keep: Table -> bool, t: Table)
    ensures t in Select(order, keep) <==> t in order && keep(t)
    decreases |order|
  {
    if order != [] {
      var n := |order| - 1;
      SelectMembers(order[..n], keep, t);
      assert order == order[..n] + [order[n]];
    }
  }

  lemma SelectNames(order: seq<Table>, keep: Table -> bool, t: Table)
    requires t in order && keep(t)
    ensures t.name in Names(Select(order, keep))
  {
    SelectMembers(order, keep, t);
  }

  lemma {:induction false} SelectDistinct(order: seq<Table>, keep: Table -> bool)
    requires DistinctNames(order)
    ensures DistinctNames(Select(order, keep))
    decreases |order|
  {
    if order != [] {
      var n := |order| - 1;
      SelectDistinct(order[..n], keep);
      forall t | t in Select(order[..n], keep)
        ensures t.name != order[n].name
      {
        SelectMembers(order[..n], keep, t);
      }
    }
  }

  /** Any selection from an ordered list is ordered. */
  lemma {:induction false} SelectOrdered(order: seq<Table>, keep: Table -> bool, names: set<string>)
    requires DistinctNames(order) && Ordered(order, names)
    requires forall t | t in order && t.name in names :: keep(t)
    ensures Ordered(Select(order, keep), names)
    decreases |order|
  {
    if order != [] {
      var n := |order| - 1;
      var before := order[..n];
      var some, all := Select(before, keep), Select(order, keep);
      assert forall j | 0 <= j < n :: before[..j] == order[..j];
      SelectOrdered(before, keep, names);
      forall j, fk | 0 <= j < |all| && fk in all[j].foreignKeys && Counts(all[j], fk, names)
        ensures fk.referencedTable in Names(all[..j])
      {
        if j < |some| {
          assert all[..j] == some[..j] && all[j] == some[j];
        } else {
          assert all[..j] == some;
          assert fk.referencedTable in Names(order[..n]);
          var u :| u in before && u.name == fk.referencedTable;
          SelectNames(before, keep, u);
        }
      }
    }
  }

  /** Main result on order: run on `topoSort`'s order or any selection from it, the loop reaches a table only
      after every table of the selection it refers to, other than itself, is recorded. */
  lemma TargetsRecorded(order: seq<Table>, keep: Table -> bool, i: nat, fk: ForeignKey, inserted: seq<seq<Row>>)
    requires DistinctNames(order) && Ordered(order, Names(order))
    requires var chosen := Select(order, keep);
             && i < |chosen| && fk in chosen[i].foreignKeys && Counts(chosen[i], fk, Names(chosen))
             && i <= |inserted| <= |chosen|
    ensures fk.referencedTable in RecordedKeys(Select(order, keep), inserted, i)
  {
    var chosen := Select(order, keep);
    var names := Names(chosen);
    forall t | t in order && t.name in names
      ensures keep(t)
    {
      var u :| u in chosen && u.name == t.name;
      SelectMembers(order, keep, u);
    }
    forall t | t in chosen
      ensures t.name in Names(order)
    {
      SelectMembers(order, keep, t);
    }
    SelectOrdered(order, keep, names);
    RecordedNames(chosen, inserted, i);
  }
}
