/** Post-processing of generated rows, in `Generate` of pkg/generator/generator.go, and `coerceRow` of coerce.go. The
    LLM is an arbitrary source of replies; what a column makes of a value other than nil is an arbitrary partial
    function. */
module RowGeneration {
  import opened Schema
  import opened UniqueTracking

  datatype Option<T> = None | Some(value: T)

  datatype Reply = Failed | Batch(rows: seq<Row>)

  type FKValues = map<string, seq<Value>>

  // ----- Coercion -----------------------------------------------------------------------------

  /** For every column name, what the column makes of a value. */
  type Conversion = string -> Value -> Option<Value>

  /** `coerceValue`: nil stays nil. */
  function CoerceValue(convert: Value -> Option<Value>, v: Value): Option<Value> {
    if v == NIL then Some(NIL) else convert(v)
  }

  function CoercedRow(columns: seq<Column>, row: Row, convert: Conversion): Option<Row> {
    if columns == [] then Some(row)
    else
      var n := |columns| - 1;
      var name := columns[n].name;
      match CoercedRow(columns[..n], row, convert)
      case None => None
      case Some(r) =>
        if name !in r then Some(r)
        else match CoerceValue(convert(name), r[name]) case None => None case Some(v) => Some(r[name := v])
  }

  function Coercion(table: Table, convert: Conversion): Row -> Option<Row> {
    (row: Row) => CoercedRow(table.columns, row, convert)
  }

  lemma {:induction false} CoercionFails(columns: seq<Column>, row: Row, convert: Conversion, i: nat)
    requires i <= |columns| && CoercedRow(columns[..i], row, convert).None?
    ensures CoercedRow(columns, row, convert).None?
    decreases |columns| - i
  {
    if i < |columns| {
      assert columns[..i + 1][..i] == columns[..i];
      CoercionFails(columns, row, convert, i + 1);
    } else {
      assert columns[..i] == columns;
    }
  }

  /** Column by column; the first value that does not convert fails the row. */
  method CoerceRow(table: Table, row: Row, convert: Conversion) returns (r: Option<Row>)
    ensures r == Coercion(table, convert)(row)
  {
    var done := row;
    for i := 0 to |table.columns|
      invariant CoercedRow(table.columns[..i], row, convert) == Some(done)
    {
      assert table.columns[..i + 1][..i] == table.columns[..i];
      var name := table.columns[i].name;
      if name !in done {
        continue;
      }
      var v := CoerceValue(convert(name), done[name]);
      if v.None? {
        CoercionFails(table.columns, row, convert, i + 1);
        return None;
      }
      done := done[name := v.value];
    }
    assert table.columns[..|table.columns|] == table.columns;
    return Some(done);
  }

  /** One column after some others: what it adds to the values that convert. */
  lemma CoercedNext(columns: seq<Column>, row: Row, convert: Conversion, n: nat)
    requires n == |columns| - 1 && columns[n].name !in NamesOf(columns[..n])
    requires CoercedAll(columns[..n], row, convert)
    ensures CoercedAll(columns, row, convert)
  {
    assert columns == columns[..n] + [columns[n]];
    assert NamesOf(columns) == NamesOf(columns[..n]) + {columns[n].name};
  }

  /** The row converts exactly if all its values do, and then each value is what its column makes of it. */
  predicate CoercedAll(columns: seq<Column>, row: Row, convert: Conversion) {
    var r := CoercedRow(columns, row, convert);
    && (r.Some? <==> forall k | k in row && k in NamesOf(columns) :: CoerceValue(convert(k), row[k]).Some?)
    && (r.Some? ==> r.value.Keys == row.Keys)
    && (r.Some? ==> forall k | k in row ::
          if k in NamesOf(columns) then Some(r.value[k]) == CoerceValue(convert(k), row[k]) else r.value[k] == row[k])
  }

  lemma {:induction false} CoercedValues(columns: seq<Column>, row: Row, convert: Conversion)
    requires forall i, j | 0 <= i < j < |columns| :: columns[i].name != columns[j].name
    ensures CoercedAll(columns, row, convert)
    decreases |columns|
  {
    if columns != [] {
      var n := |columns| - 1;
      CoercedValues(columns[..n], row, convert);
      CoercedNext(columns, row, convert, n);
    }
  }

  /** A row whose values all stay as they are. */
  lemma {:induction false} RowStays(columns: seq<Column>, row: Row, convert: Conversion)
    requires forall c | c in row :: CoerceValue(convert(c), row[c]) == Some(row[c])
    ensures CoercedRow(columns, row, convert) == Some(row)
    decreases |columns|
  {
    if columns != [] {
      var n := |columns| - 1;
      RowStays(columns[..n], row, convert);
      assert columns[n].name in row ==> row[columns[n].name := row[columns[n].name]] == row;
    }
  }

  // ----- Foreign-key repair -------------------------------------------------------------------

  /** Equality as `%v` shows it. */
  predicate ShownIn(vals: seq<Value>, v: Value) {
    exists x | x in vals :: x.shown == v.shown
  }

  method ContainsValue(vals: seq<Value>, v: Value) returns (found: bool)
    ensures found <==> ShownIn(vals, v)
  {
    var target := v.shown;
    for i := 0 to |vals|
      invariant forall j | 0 <= j < i :: vals[j].shown != target
    {
      if vals[i].shown == target {
        return true;
      }
    }
    return false;
  }

  /** What repair does to one column: a valid value stays, an invalid one becomes some known value. */
  predicate ColumnRepaired(before: Row, after: Row, col: string, vals: seq<Value>) {
    col in before && col in after &&
    if vals == [] || ShownIn(vals, before[col]) then after[col] == before[col] else after[col] in vals
  }

  predicate Repaired(before: Row, after: Row, fk: FKValues) {
    && after.Keys == before.Keys
    && forall col | col in before ::
         if col in fk then ColumnRepaired(before, after, col, fk[col]) else after[col] == before[col]
  }

  predicate BatchRepaired(before: seq<Row>, after: seq<Row>, fk: FKValues) {
    |after| == |before| && forall i | 0 <= i < |before| :: Repaired(before[i], after[i], fk)
  }

  /** Every foreign-key column present holds a known value. */
  predicate FKValid(row: Row, fk: FKValues) {
    forall col | col in row && col in fk && fk[col] != [] :: ShownIn(fk[col], row[col])
  }

  lemma RepairedIsValid(before: Row, after: Row, fk: FKValues)
    requires Repaired(before, after, fk)
    ensures FKValid(after, fk)
  {}

  /** Repair with only the columns in `done` looked at so far. */
  predicate RepairedOn(before: Row, after: Row, fk: FKValues, done: set<string>) {
    && after.Keys == before.Keys
    && forall col | col in before ::
         if col in fk && col in done then ColumnRepaired(before, after, col, fk[col]) else after[col] == before[col]
  }

  /** Repairing one more column. */
  lemma RepairedNext(before: Row, mid: Row, after: Row, fk: FKValues, done: set<string>, col: string)
    requires RepairedOn(before, mid, fk, done) && col in fk && col !in done
    requires after.Keys == mid.Keys && forall c | c in mid && c != col :: after[c] == mid[c]
    requires col in mid ==> ColumnRepaired(mid, after, col, fk[col])
    ensures RepairedOn(before, after, fk, done + {col})
  {}

  /** One column of one row; the replacement is drawn at random. */
  method RepairColumn(row: Row, col: string, vals: seq<Value>) returns (r: Row)
    ensures r.Keys == row.Keys && forall c | c in row && c != col :: r[c] == row[c]
    ensures col in row ==> ColumnRepaired(row, r, col, vals)
  {
    r := row;
    if |vals| == 0 {
      return;
    }
    if col in row {
      var ok := ContainsValue(vals, row[col]);
      if !ok {
        var k :| 0 <= k < |vals|;
        r := row[col := vals[k]];
      }
    }
  }

  /** The first batch: columns in any order, then every row. */
  method RepairBatch(rows: seq<Row>, fk: FKValues) returns (out: seq<Row>)
    ensures BatchRepaired(rows, out, fk)
  {
    out := rows;
    var cols := fk.Keys;
    while cols != {}
      invariant cols <= fk.Keys && |out| == |rows|
      invariant forall i | 0 <= i < |rows| :: RepairedOn(rows[i], out[i], fk, fk.Keys - cols)
      decreases |cols|
    {
      var col :| col in cols;
      for i := 0 to |out|
        invariant |out| == |rows|
        invariant forall j | 0 <= j < i :: RepairedOn(rows[j], out[j], fk, fk.Keys - cols + {col})
        invariant forall j | i <= j < |rows| :: RepairedOn(rows[j], out[j], fk, fk.Keys - cols)
      {
        var r := RepairColumn(out[i], col, fk[col]);
        RepairedNext(rows[i], out[i], r, fk, fk.Keys - cols, col);
        out := out[i := r];
      }
      assert fk.Keys - (cols - {col}) == fk.Keys - cols + {col};
      cols := cols - {col};
    }
  }

  /** An extra row: every column, in any order. */
  method RepairRow(row: Row, fk: FKValues) returns (r: Row)
    ensures Repaired(row, r, fk)
  {
    r := row;
    var cols := fk.Keys;
    while cols != {}
      invariant cols <= fk.Keys
      invariant RepairedOn(row, r, fk, fk.Keys - cols)
      decreases |cols|
    {
      var col :| col in cols;
      ghost var mid := r;
      r := RepairColumn(r, col, fk[col]);
      RepairedNext(row, mid, r, fk, fk.Keys - cols, col);
      assert fk.Keys - (cols - {col}) == fk.Keys - cols + {col};
      cols := cols - {col};
    }
  }

  // ----- Uniqueness with regeneration ---------------------------------------------------------

  /** The rows of a batch that coercion accepts, repaired: what is offered to the tracker. */
  predicate Offered(batch: seq<Row>, offered: seq<Row>, coerce: Row -> Option<Row>, fk: FKValues)
    decreases |batch|
  {
    if batch == [] then offered == []
    else match coerce(batch[0])
      case None => Offered(batch[1..], offered, coerce, fk)
      case Some(row) => offered != [] && Repaired(row, offered[0], fk) && Offered(batch[1..], offered[1..], coerce, fk)
  }

  lemma {:induction false} OfferedAppend(batch: seq<Row>, offered: seq<Row>, coerce: Row -> Option<Row>,
                                         fk: FKValues, raw: Row, row: Row)
    requires Offered(batch, offered, coerce, fk)
    ensures coerce(raw).None? ==> Offered(batch + [raw], offered, coerce, fk)
    ensures coerce(raw).Some? && Repaired(coerce(raw).value, row, fk) ==>
              Offered(batch + [raw], offered + [row], coerce, fk)
    decreases |batch|
  {
    var all := batch + [raw];
    if batch == [] {
      assert all[1..] == [] && offered + [row] == [row];
    } else {
      assert all[1..] == batch[1..] + [raw];
      match coerce(batch[0])
      case None => OfferedAppend(batch[1..], offered, coerce, fk, raw, row);
      case Some(_) =>
        OfferedAppend(batch[1..], offered[1..], coerce, fk, raw, row);
        assert (offered + [row])[1..] == offered[1..] + [row];
    }
  }

  /** What one reply row contributes: nothing if it does not coerce, else itself, repaired. */
  lemma OfferedOne(raw: Row, offered: seq<Row>, coerce: Row -> Option<Row>, fk: FKValues)
    ensures Offered([raw], offered, coerce, fk) <==>
              if coerce(raw).None? then offered == []
              else |offered| == 1 && Repaired(coerce(raw).value, offered[0], fk)
  {
    assert [raw][1..] == [];
  }

  /** Every row contributes by itself, in order: what a batch offers is what its parts offer. */
  lemma {:induction false} OfferedParts(a: seq<Row>, b: seq<Row>, offered: seq<Row>, coerce: Row -> Option<Row>,
                                        fk: FKValues)
    requires Offered(a + b, offered, coerce, fk)
    ensures exists n | 0 <= n <= |offered| ::
              Offered(a, offered[..n], coerce, fk) && Offered(b, offered[n..], coerce, fk)
    decreases |a|
  {
    if a == [] {
      assert a + b == b && offered[..0] == [] && offered[0..] == offered;
      assert Offered(a, offered[..0], coerce, fk) && Offered(b, offered[0..], coerce, fk);
    } else {
      assert (a + b)[1..] == a[1..] + b;
      var k := if coerce(a[0]).None? then 0 else 1;
      OfferedParts(a[1..], b, offered[k..], coerce, fk);
      var m :| 0 <= m <= |offered[k..]| && Offered(a[1..], offered[k..][..m], coerce, fk)
               && Offered(b, offered[k..][m..], coerce, fk);
      assert offered[..k + m][k..] == offered[k..][..m] && offered[k..][m..] == offered[k + m..];
      assert offered[..k + m][0..] == offered[..k + m];
      assert Offered(a, offered[..k + m], coerce, fk) && Offered(b, offered[k + m..], coerce, fk);
    }
  }

  lemma {:induction false} OfferedValid(batch: seq<Row>, offered: seq<Row>, coerce: Row -> Option<Row>, fk: FKValues)
    requires Offered(batch, offered, coerce, fk)
    ensures |offered| <= |batch| && forall r | r in offered :: FKValid(r, fk)
    decreases |batch|
  {
    if batch != [] {
      match coerce(batch[0])
      case None => OfferedValid(batch[1..], offered, coerce, fk);
      case Some(row) =>
        OfferedValid(batch[1..], offered[1..], coerce, fk);
        RepairedIsValid(row, offered[0], fk);
        assert offered == [offered[0]] + offered[1..];
    }
  }

  /** The rows kept after offering whole batches one after another. */
  function KeepAll(constraints: seq<seq<string>>, batches: seq<seq<Row>>): seq<Row> {
    if batches == [] then []
    else
      var n := |batches| - 1;
      Keep(constraints, KeepAll(constraints, batches[..n]), batches[n])
  }

  /** Offering rows one by one to the tracker. */
  method FilterUnique(tracker: UniqueTracker, kept: seq<Row>, rows: seq<Row>) returns (out: seq<Row>)
    requires tracker.seen == SeenBy(tracker.constraints, kept)
    modifies tracker`seen
    ensures out == Keep(tracker.constraints, kept, rows) && tracker.seen == SeenBy(tracker.constraints, out)
  {
    out := kept;
    ghost var goal := Keep(tracker.constraints, kept, rows);
    assert rows[0..] == rows;
    for i := 0 to |rows|
      invariant goal == Keep(tracker.constraints, out, rows[i..])
      invariant tracker.seen == SeenBy(tracker.constraints, out)
    {
      assert rows[i..][1..] == rows[i + 1..];
      var unique := tracker.IsUnique(rows[i]);
      if unique {
        tracker.Add(rows[i]);
        out := out + [rows[i]];
      }
    }
  }

  /** One retry: coerce, repair and offer each extra row; `lost` goes down with every row kept. */
  method OfferExtra(table: Table, tracker: UniqueTracker, kept: seq<Row>, extra: seq<Row>, lost0: int,
                    convert: Conversion, fk: FKValues, ghost coerce: Row -> Option<Row>)
    returns (out: seq<Row>, lost: int, ghost offered: seq<Row>)
    requires coerce == Coercion(table, convert)
    requires tracker.seen == SeenBy(tracker.constraints, kept)
    modifies tracker`seen
    ensures Offered(extra, offered, coerce, fk)
    ensures out == Keep(tracker.constraints, kept, offered) && tracker.seen == SeenBy(tracker.constraints, out)
    ensures lost + |out| == lost0 + |kept|
  {
    out, lost, offered := kept, lost0, [];
    for i := 0 to |extra|
      invariant Offered(extra[..i], offered, coerce, fk)
      invariant out == Keep(tracker.constraints, kept, offered) && tracker.seen == SeenBy(tracker.constraints, out)
      invariant lost + |out| == lost0 + |kept|
    {
      assert extra[..i + 1] == extra[..i] + [extra[i]];
      var coerced := CoerceRow(table, extra[i], convert);
      if coerced.None? {
        OfferedAppend(extra[..i], offered, coerce, fk, extra[i], extra[i]);
        continue;
      }
      var row := RepairRow(coerced.value, fk);
      OfferedAppend(extra[..i], offered, coerce, fk, extra[i], row);
      KeepAppend(tracker.constraints, kept, offered, row);
      offered := offered + [row];
      var unique := tracker.IsUnique(row);
      if unique {
        tracker.Add(row);
        out := out + [row];
        lost := lost - 1;
      }
    }
    assert extra[..|extra|] == extra;
  }

  /** What the retries were given: batch `i` comes from reply `i`. */
  ghost predicate FromReplies(replies: nat -> Reply, batches: seq<seq<Row>>, coerce: Row -> Option<Row>, fk: FKValues) {
    forall i | 0 <= i < |batches| :: replies(i).Batch? && Offered(replies(i).rows, batches[i], coerce, fk)
  }

  /** The state of the retry loop: what is kept, and that every retry so far had something to replace. */
  ghost predicate Retrying(cs: seq<seq<string>>, first: seq<Row>, rows: seq<Row>, lost: int, replies: nat -> Reply,
                           extra: seq<seq<Row>>, coerce: Row -> Option<Row>, fk: FKValues) {
    && rows == KeepAll(cs, [first] + extra)
    && lost + |rows| == |first|
    && FromReplies(replies, extra, coerce, fk)
    && forall i | 0 <= i < |extra| :: |KeepAll(cs, [first] + extra[..i])| < |first|
  }

  lemma RetryStart(cs: seq<seq<string>>, first: seq<Row>, replies: nat -> Reply, coerce: Row -> Option<Row>,
                   fk: FKValues)
    ensures var rows := Keep(cs, [], first);
            Retrying(cs, first, rows, |first| - |rows|, replies, [], coerce, fk)
  {
    assert [first] + [] == [] + [first];
  }

  lemma RetryStep(cs: seq<seq<string>>, first: seq<Row>, rows: seq<Row>, lost: int, replies: nat -> Reply,
                  extra: seq<seq<Row>>, coerce: Row -> Option<Row>, fk: FKValues, offered: seq<Row>, lost': int)
    requires Retrying(cs, first, rows, lost, replies, extra, coerce, fk) && lost > 0
    requires replies(|extra|).Batch? && Offered(replies(|extra|).rows, offered, coerce, fk)
    requires lost' + |Keep(cs, rows, offered)| == lost + |rows|
    ensures Retrying(cs, first, Keep(cs, rows, offered), lost', replies, extra + [offered], coerce, fk)
  {
    var all := extra + [offered];
    assert [first] + all == [first] + extra + [offered];
    forall i | 0 <= i < |all|
      ensures |KeepAll(cs, [first] + all[..i])| < |first|
    {
      assert all[..i] == extra[..i];
      assert extra[..|extra|] == extra;
    }
  }

  /** What uniqueness leaves of the first batch: everything without unique indexes; otherwise what the tracker
      keeps of it and of at most two retries, which stop early only with nothing missing or a failed reply. */
  ghost predicate Enforced(table: Table, first: seq<Row>, replies: nat -> Reply, coerce: Row -> Option<Row>,
                           fk: FKValues, rows: seq<Row>, lost: int, extra: seq<seq<Row>>) {
    var cs := UniqueColumns(table.indexes);
    if cs == [] then rows == first && lost == 0 && extra == []
    else
      && Retrying(cs, first, rows, lost, replies, extra, coerce, fk) && |extra| <= 2
      && (lost > 0 && |extra| < 2 ==> replies(|extra|).Failed?)
  }

  /** One turn of the retry loop, with the reply it got. */
  method RetryOnce(table: Table, tracker: UniqueTracker, ghost first: seq<Row>, kept: seq<Row>, lost0: int,
                   reply: seq<Row>, ghost replies: nat -> Reply, ghost extra0: seq<seq<Row>>, convert: Conversion,
                   fk: FKValues, ghost coerce: Row -> Option<Row>)
    returns (rows: seq<Row>, lost: int, ghost extra: seq<seq<Row>>)
    requires coerce == Coercion(table, convert) && tracker.seen == SeenBy(tracker.constraints, kept)
    requires Retrying(tracker.constraints, first, kept, lost0, replies, extra0, coerce, fk) && lost0 > 0
    requires replies(|extra0|) == Batch(reply)
    modifies tracker`seen
    ensures Retrying(tracker.constraints, first, rows, lost, replies, extra, coerce, fk)
    ensures |extra| == |extra0| + 1 && tracker.seen == SeenBy(tracker.constraints, rows)
  {
    ghost var offered;
    rows, lost, offered := OfferExtra(table, tracker, kept, reply, lost0, convert, fk, coerce);
    RetryStep(tracker.constraints, first, kept, lost0, replies, extra0, coerce, fk, offered, lost);
    extra := extra0 + [offered];
  }

  /** Uniqueness with at most two retries. The rows kept are those the tracker keeps of the first batch and of
      what the retries offered; the retries stop early only with nothing missing or a failed reply. */
  method EnforceUnique(table: Table, first: seq<Row>, replies: nat -> Reply, convert: Conversion, fk: FKValues,
                       ghost coerce: Row -> Option<Row>)
    returns (rows: seq<Row>, lost: int, ghost extra: seq<seq<Row>>)
    requires coerce == Coercion(table, convert)
    ensures Enforced(table, first, replies, coerce, fk, rows, lost, extra)
    ensures UniqueColumns(table.indexes) != [] ==> lost + |rows| == |first|
    ensures DistinctOn(UniqueColumns(table.indexes), rows)
    ensures (forall idx | idx in table.indexes :: !idx.isUnique) ==> rows == first && lost == 0 && extra == []
    ensures forall idx | idx in table.indexes && idx.isUnique :: TuplesDiffer(idx.columns, rows)
    ensures lost > 0 ==> |extra| == 2 || (|extra| < 2 && replies(|extra|).Failed?)
    ensures |rows| < |first| <==> lost > 0
  {
    extra := [];
    var tracker := new UniqueTracker(table);
    ghost var cs := tracker.constraints;
    if forall idx | idx in table.indexes :: !idx.isUnique {
      NoUniqueIndex(table.indexes);
    }
    if tracker.IsEmpty() {
      UniqueRowsDiffer(table, first);
      return first, 0, [];
    }
    assert SeenBy(cs, []) == {};
    rows := FilterUnique(tracker, [], first);
    lost := |first| - |rows|;
    RetryStart(cs, first, replies, coerce, fk);
    var attempt := 0;
    while attempt < 2 && lost > 0
      invariant 0 <= attempt <= 2 && |extra| == attempt
      invariant tracker.constraints == cs && tracker.seen == SeenBy(cs, rows)
      invariant Retrying(cs, first, rows, lost, replies, extra, coerce, fk)
      decreases 2 - attempt
    {
      var reply := replies(attempt);
      if reply.Failed? {
        break;
      }
      rows, lost, extra :=
        RetryOnce(table, tracker, first, rows, lost, reply.rows, replies, extra, convert, fk, coerce);
      attempt := attempt + 1;
    }
    KeepAllDistinct(cs, [first] + extra);
    UniqueRowsDiffer(table, rows);
  }

  predicate Differ(cols: seq<string>, a: Row, b: Row) {
    exists c | c in cols :: Shown(a, c) != Shown(b, c)
  }

  /** Any two of the rows show something different in some of these columns. */
  predicate TuplesDiffer(cols: seq<string>, rows: seq<Row>) {
    forall i, j | 0 <= i < j < |rows| :: Differ(cols, rows[i], rows[j])
  }

  lemma DistinctTuplesDiffer(cols: seq<string>, rows: seq<Row>)
    requires forall i, j | 0 <= i < j < |rows| :: Tuple(cols, rows[i]) != Tuple(cols, rows[j])
    ensures TuplesDiffer(cols, rows)
  {
    forall i, j | 0 <= i < j < |rows|
      ensures Differ(cols, rows[i], rows[j])
    {
      var a, b := Tuple(cols, rows[i]), Tuple(cols, rows[j]);
      var k :| 0 <= k < |a| && a[k] != b[k];
      assert cols[k] in cols;
    }
  }

  lemma UniqueRowsDiffer(table: Table, rows: seq<Row>)
    requires DistinctOn(UniqueColumns(table.indexes), rows)
    ensures forall idx | idx in table.indexes && idx.isUnique :: TuplesDiffer(idx.columns, rows)
  {
    forall idx | idx in table.indexes && idx.isUnique
      ensures TuplesDiffer(idx.columns, rows)
    {
      UniqueColumnsExactly(table.indexes, idx.columns);
      DistinctTuplesDiffer(idx.columns, rows);
    }
  }

  /** Tables that differ in indexes that are not unique only: the same is enforced. */
  lemma PlainIndexEnforcesNothing(table: Table, a: seq<Index>, idx: Index, b: seq<Index>, first: seq<Row>,
                                  replies: nat -> Reply, coerce: Row -> Option<Row>, fk: FKValues, rows: seq<Row>,
                                  lost: int, extra: seq<seq<Row>>)
    requires !idx.isUnique
    ensures Enforced(table.(indexes := a + [idx] + b), first, replies, coerce, fk, rows, lost, extra) <==>
            Enforced(table.(indexes := a + b), first, replies, coerce, fk, rows, lost, extra)
  {
    PlainIndexIgnored(a, idx, b);
  }

  // ----- What the kept rows satisfy -----------------------------------------------------------

  lemma {:induction false} KeepAllDistinct(constraints: seq<seq<string>>, batches: seq<seq<Row>>)
    ensures DistinctOn(constraints, KeepAll(constraints, batches))
    decreases |batches|
  {
    if batches != [] {
      var n := |batches| - 1;
      KeepAllDistinct(constraints, batches[..n]);
      KeepDistinct(constraints, KeepAll(constraints, batches[..n]), batches[n]);
    }
  }

  lemma {:induction false} KeepAllFrom(constraints: seq<seq<string>>, batches: seq<seq<Row>>, r: Row)
    requires r in KeepAll(constraints, batches)
    ensures exists b | b in batches :: r in b
    decreases |batches|
  {
    var n := |batches| - 1;
    KeepSubset(constraints, KeepAll(constraints, batches[..n]), batches[n]);
    if r in batches[n] {
      assert batches[n] in batches;
    } else {
      KeepAllFrom(constraints, batches[..n], r);
    }
  }

  /** A row that coercion and repair make of some row of a reply. */
  ghost predicate Produced(r: Row, coerce: Row -> Option<Row>, fk: FKValues) {
    exists raw, mid :: coerce(raw) == Some(mid) && Repaired(mid, r, fk)
  }

  lemma {:induction false} OfferedProduced(batch: seq<Row>, offered: seq<Row>, coerce: Row -> Option<Row>, fk: FKValues)
    requires Offered(batch, offered, coerce, fk)
    ensures forall r | r in offered :: Produced(r, coerce, fk)
    decreases |batch|
  {
    if batch != [] {
      match coerce(batch[0])
      case None => OfferedProduced(batch[1..], offered, coerce, fk);
      case Some(row) =>
        OfferedProduced(batch[1..], offered[1..], coerce, fk);
        assert Produced(offered[0], coerce, fk);
        assert offered == [offered[0]] + offered[1..];
    }
  }

  /** Whatever is kept was a row of a reply. */
  lemma KeptRowsProduced(table: Table, first: seq<Row>, replies: nat -> Reply, coerce: Row -> Option<Row>,
                         fk: FKValues, rows: seq<Row>, lost: int, extra: seq<seq<Row>>)
    requires Enforced(table, first, replies, coerce, fk, rows, lost, extra)
    requires forall r | r in first :: Produced(r, coerce, fk)
    ensures forall r | r in rows :: Produced(r, coerce, fk)
  {
    var cs := UniqueColumns(table.indexes);
    if cs != [] {
      forall r | r in rows
        ensures Produced(r, coerce, fk)
      {
        KeepAllFrom(cs, [first] + extra, r);
        var b :| b in [first] + extra && r in b;
        if r !in first {
          var i :| 0 <= i < |extra| && extra[i] == b;
          OfferedProduced(replies(i).rows, extra[i], coerce, fk);
        }
      }
    }
  }

  /** Main result: whatever the oracle replied, the kept rows are pairwise distinct on every unique index, and
      every foreign-key column present with known values holds one of them. */
  lemma KeptRowsSatisfy(table: Table, first: seq<Row>, replies: nat -> Reply, coerce: Row -> Option<Row>,
                        fk: FKValues, rows: seq<Row>, lost: int, extra: seq<seq<Row>>)
    requires Enforced(table, first, replies, coerce, fk, rows, lost, extra)
    requires forall r | r in first :: Produced(r, coerce, fk)
    ensures DistinctOn(UniqueColumns(table.indexes), rows)
    ensures forall r | r in rows :: FKValid(r, fk)
  {
    var cs := UniqueColumns(table.indexes);
    KeptRowsProduced(table, first, replies, coerce, fk, rows, lost, extra);
    forall r | r in rows
      ensures FKValid(r, fk)
    {
      var raw, mid :| coerce(raw) == Some(mid) && Repaired(mid, r, fk);
      RepairedIsValid(mid, r, fk);
    }
    if cs != [] {
      KeepAllDistinct(cs, [first] + extra);
    }
  }
}
