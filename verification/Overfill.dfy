/** How many rows the uniqueness retries of pkg/generator/generator.go keep: `lost` asks for the missing ones, but
    a reply is read to its end. */
module Overfill {
  import opened Strings
  import opened Schema
  import opened UniqueTracking
  import opened RowGeneration
  import opened Generation

  // ----- Replies within their request ---------------------------------------------------------

  /** From retry `from` on, no reply holds more rows than are missing. */
  ghost predicate WithinRequest(constraints: seq<seq<string>>, first: seq<Row>, replies: nat -> Reply,
                                extra: seq<seq<Row>>, from: nat) {
    forall i | from <= i < |extra| && replies(i).Batch? ::
      |replies(i).rows| <= |first| - |KeepAll(constraints, [first] + extra[..i])|
  }

  lemma KeepAllGrowth(constraints: seq<seq<string>>, batches: seq<seq<Row>>, batch: seq<Row>)
    ensures |KeepAll(constraints, batches + [batch])| <= |KeepAll(constraints, batches)| + |batch|
  {
    assert (batches + [batch])[..|batches|] == batches;
    KeepSubset(constraints, KeepAll(constraints, batches), batch);
  }

  lemma KeptWithinRequest(constraints: seq<seq<string>>, first: seq<Row>, replies: nat -> Reply, extra: seq<seq<Row>>,
                          coerce: Row -> Option<Row>, fk: FKValues)
    requires extra != [] && FromReplies(replies, extra, coerce, fk)
    requires WithinRequest(constraints, first, replies, extra, |extra| - 1)
    ensures |KeepAll(constraints, [first] + extra)| <= |first|
  {
    var n := |extra| - 1;
    OfferedValid(replies(n).rows, extra[n], coerce, fk);
    assert [first] + extra == [first] + extra[..n] + [extra[n]];
    KeepAllGrowth(constraints, [first] + extra[..n], extra[n]);
  }

  /** Replies that respect the requested count never overfill the table. */
  lemma NoOverfill(table: Table, first: seq<Row>, replies: nat -> Reply, coerce: Row -> Option<Row>, fk: FKValues,
                   rows: seq<Row>, lost: int, extra: seq<seq<Row>>)
    requires Enforced(table, first, replies, coerce, fk, rows, lost, extra)
    requires WithinRequest(UniqueColumns(table.indexes), first, replies, extra, 0)
    ensures |rows| <= |first|
  {
    var cs := UniqueColumns(table.indexes);
    if cs != [] {
      if extra == [] {
        assert [first] + extra == [] + [first];
        KeepAllGrowth(cs, [], first);
      } else {
        KeptWithinRequest(cs, first, replies, extra, coerce, fk);
      }
    }
  }

  // ----- Columns of texts ---------------------------------------------------------------------

  /** What `coerceValue` looks for in a column's type before it takes the value for a text. */
  const CONVERTED := ["int", "serial", "bool", "numeric", "decimal", "money", "float", "double", "real", "timestamp",
                      "date"]

  /** The column takes any text as it is: it converts to no other type, and no length is given. */
  predicate PlainText(c: Column) {
    '(' !in c.dataType && forall w | w in CONVERTED :: !Contains(ToLower(c.dataType), w)
  }

  ghost predicate LeavesTexts(table: Table, convert: Conversion) {
    forall c, text | c in table.columns && PlainText(c) ::
      convert(c.name)(Value(0, text)) == Option.Some(Value(0, text))
  }

  /** The column has no known foreign-key values to be repaired to. */
  predicate Free(col: string, fk: FKValues) {
    Lookup(fk, col) == []
  }

  /** The columns that can hold any text. */
  function Spare(table: Table, fk: FKValues): set<string> {
    set c | c in table.columns && PlainText(c) && Free(c.name, fk) :: c.name
  }

  predicate HasSpare(cols: seq<string>, spare: set<string>) {
    exists col | col in cols :: col in spare
  }

  // ----- Rows that no tracker refuses ---------------------------------------------------------

  lemma {:induction false} JoinLonger(parts: seq<string>, sep: string, k: nat)
    requires k < |parts|
    ensures |Join(parts, sep)| >= |parts[k]|
    decreases |parts|
  {
    if |parts| > 1 && k > 0 {
      JoinLonger(parts[1..], sep, k - 1);
    }
  }

  /** These values, and the text `w` in every spare column. */
  function Widened(base: Row, spare: set<string>, w: string): Row {
    map col | col in base.Keys + spare :: if col in spare then Value(0, w) else base[col]
  }

  lemma WideKey(base: Row, spare: set<string>, w: string, c: seq<string>)
    requires HasSpare(c, spare)
    ensures |Key(c, Widened(base, spare, w))| >= |w|
  {
    var row := Widened(base, spare, w);
    var col :| col in c && col in spare;
    var k :| 0 <= k < |c| && c[k] == col;
    assert Tuple(c, row)[k] == w;
    JoinLonger(Tuple(c, row), "\0", k);
  }

  lemma WideRowFits(constraints: seq<seq<string>>, kept: seq<Row>, base: Row, spare: set<string>, w: string)
    requires forall c | c in constraints :: HasSpare(c, spare)
    requires forall k | k in SeenBy(constraints, kept) :: |k| < |w|
    ensures Accepts(constraints, kept, Widened(base, spare, w))
  {
    var row := Widened(base, spare, w);
    forall key | key in KeysOf(constraints, row)
      ensures |key| >= |w|
    {
      var c :| c in constraints && Key(c, row) == key;
      WideKey(base, spare, w, c);
    }
  }

  ghost predicate AllWidened(rows: seq<Row>, base: Row, spare: set<string>) {
    forall r | r in rows :: exists w :: r == Widened(base, spare, w)
  }

  /** However many rows there are already, any number of further ones can all be kept. */
  lemma {:induction false} FreshBatch(constraints: seq<seq<string>>, kept: seq<Row>, base: Row, spare: set<string>,
                                      m: nat) returns (rows: seq<Row>)
    requires forall c | c in constraints :: HasSpare(c, spare)
    ensures |rows| == m && AllWidened(rows, base, spare)
    ensures Keep(constraints, kept, rows) == kept + rows
    decreases m
  {
    if m == 0 {
      rows := [];
    } else {
      var w := LongerThan(SeenBy(constraints, kept));
      var row := Widened(base, spare, w);
      WideRowFits(constraints, kept, base, spare, w);
      var rest := FreshBatch(constraints, kept + [row], base, spare, m - 1);
      rows := [row] + rest;
      assert rows[1..] == rest && kept + [row] + rest == kept + rows;
    }
  }

  /** A row of texts in spare columns coerces to itself and needs no repair. */
  lemma WideRowStays(table: Table, convert: Conversion, fk: FKValues, w: string)
    requires LeavesTexts(table, convert)
    ensures var row := Widened(map[], Spare(table, fk), w);
            Coercion(table, convert)(row) == Option.Some(row) && Repaired(row, row, fk)
  {
    var row := Widened(map[], Spare(table, fk), w);
    forall c | c in row
      ensures CoerceValue(convert(c), row[c]) == Option.Some(row[c])
    {
      assert c in Spare(table, fk);
    }
    RowStays(table.columns, row, convert);
  }

  lemma {:induction false} OfferedAsIs(batch: seq<Row>, coerce: Row -> Option<Row>, fk: FKValues)
    requires forall r | r in batch :: coerce(r) == Option.Some(r) && Repaired(r, r, fk)
    ensures RowGeneration.Offered(batch, batch, coerce, fk)
    decreases |batch|
  {
    if batch != [] {
      assert batch[0] in batch;
      OfferedAsIs(batch[1..], coerce, fk);
    }
  }

  lemma WideBatchOffered(table: Table, convert: Conversion, fk: FKValues, batch: seq<Row>)
    requires LeavesTexts(table, convert) && AllWidened(batch, map[], Spare(table, fk))
    ensures RowGeneration.Offered(batch, batch, Coercion(table, convert), fk)
  {
    forall r | r in batch
      ensures Coercion(table, convert)(r) == Option.Some(r) && Repaired(r, r, fk)
    {
      var w :| r == Widened(map[], Spare(table, fk), w);
      WideRowStays(table, convert, fk, w);
    }
    OfferedAsIs(batch, Coercion(table, convert), fk);
  }

  /** A reply of `m` rows keeps at most `missing` more. */
  ghost predicate KeepsAtMost(table: Table, kept: seq<Row>, convert: Conversion, fk: FKValues, m: nat, missing: int) {
    forall batch: seq<Row>, offered: seq<Row> |
      |batch| == m && RowGeneration.Offered(batch, offered, Coercion(table, convert), fk) ::
      |Keep(UniqueColumns(table.indexes), kept, offered)| <= |kept| + missing
  }

  /** Every unique index has a spare column. */
  predicate IndexesSpare(table: Table, fk: FKValues) {
    forall c | c in UniqueColumns(table.indexes) :: HasSpare(c, Spare(table, fk))
  }

  /** One retry: whatever is kept already, a reply of `m` rows cannot keep more than the missing ones exactly if it
      has no more. */
  lemma RetryFitsIff(table: Table, kept: seq<Row>, convert: Conversion, fk: FKValues, m: nat, missing: int)
    requires LeavesTexts(table, convert) && IndexesSpare(table, fk)
    ensures KeepsAtMost(table, kept, convert, fk, m, missing) <==> m <= missing
  {
    var cs := UniqueColumns(table.indexes);
    if m <= missing {
      forall batch: seq<Row>, offered: seq<Row> |
        |batch| == m && RowGeneration.Offered(batch, offered, Coercion(table, convert), fk)
        ensures |Keep(cs, kept, offered)| <= |kept| + missing
      {
        OfferedValid(batch, offered, Coercion(table, convert), fk);
        KeepSubset(cs, kept, offered);
      }
    } else {
      var rows := FreshBatch(cs, kept, map[], Spare(table, fk), m);
      WideBatchOffered(table, convert, fk, rows);
    }
  }

  // ----- The retry loop -----------------------------------------------------------------------

  /** No run of the retries leaves more rows than the first batch had, if the first retry gets a reply of `m` rows and
      the second one of `n` rows, if any. */
  ghost predicate NeverOverfills(table: Table, first: seq<Row>, convert: Conversion, fk: FKValues, m: nat, n: nat) {
    forall replies: nat -> Reply, rows: seq<Row>, lost: int, extra: seq<seq<Row>> |
      && replies(0).Batch? && |replies(0).rows| == m && (replies(1).Batch? ==> |replies(1).rows| == n)
      && Enforced(table, first, replies, Coercion(table, convert), fk, rows, lost, extra) ::
      |rows| <= |first|
  }

  /** How many rows of the first batch uniqueness loses. */
  function Missing(table: Table, first: seq<Row>): nat {
    KeepSubset(UniqueColumns(table.indexes), [], first);
    |first| - |Keep(UniqueColumns(table.indexes), [], first)|
  }

  function Max(a: int, b: int): int {
    if a < b then b else a
  }

  /** Neither reply can bring more rows than are missing when it is read. The first may always bring fewer than it has
      rows, so a second reply of one row is safe in any case. */
  predicate LengthsFit(missing: nat, m: nat, n: nat) {
    missing == 0 || (m <= missing && n <= Max(1, missing - m))
  }

  lemma FirstBatchKept(constraints: seq<seq<string>>, first: seq<Row>)
    ensures KeepAll(constraints, [first]) == Keep(constraints, [], first)
  {
    assert [first][..0] == [];
  }

  lemma {:induction false} NoIndexKeepsAll(kept: seq<Row>, rows: seq<Row>)
    ensures Keep([], kept, rows) == kept + rows
    decreases |rows|
  {
    if rows == [] {
      assert kept + rows == kept;
    } else {
      NoIndexKeepsAll(kept + [rows[0]], rows[1..]);
      assert kept + [rows[0]] + rows[1..] == kept + rows;
    }
  }

  // ----- Replies that fit ---------------------------------------------------------------------

  /** After one retry. */
  lemma OneRetryFits(cs: seq<seq<string>>, first: seq<Row>, batch: seq<Row>, offered: seq<Row>,
                     coerce: Row -> Option<Row>, fk: FKValues)
    requires RowGeneration.Offered(batch, offered, coerce, fk)
    ensures |KeepAll(cs, [first] + [offered])| <= |Keep(cs, [], first)| + |batch|
  {
    OfferedValid(batch, offered, coerce, fk);
    FirstBatchKept(cs, first);
    KeepAllGrowth(cs, [first], offered);
  }

  lemma RepliesFit(table: Table, first: seq<Row>, coerce: Row -> Option<Row>, fk: FKValues, m: nat, n: nat,
                   replies: nat -> Reply, rows: seq<Row>, lost: int, extra: seq<seq<Row>>)
    requires LengthsFit(Missing(table, first), m, n)
    requires replies(0).Batch? && |replies(0).rows| == m && (replies(1).Batch? ==> |replies(1).rows| == n)
    requires Enforced(table, first, replies, coerce, fk, rows, lost, extra)
    ensures |rows| <= |first|
  {
    var cs := UniqueColumns(table.indexes);
    if cs != [] {
      FirstBatchKept(cs, first);
      if extra == [] {
        assert [first] + extra == [first];
      } else {
        assert extra[..0] == [] && [first] + extra[..0] == [first];
        OneRetryFits(cs, first, replies(0).rows, extra[0], coerce, fk);
        if |extra| == 1 {
          assert extra == [extra[0]];
        } else {
          assert extra[..1] == [extra[0]];
          OfferedValid(replies(1).rows, extra[1], coerce, fk);
          assert [first] + extra == [first] + [extra[0]] + [extra[1]];
          KeepAllGrowth(cs, [first] + [extra[0]], extra[1]);
        }
      }
    }
  }

  // ----- Replies that do not ------------------------------------------------------------------

  /** A row kept already is refused. */
  lemma KeptIsRefused(constraints: seq<seq<string>>, kept: seq<Row>, r: Row)
    requires constraints != [] && r in kept
    ensures !Accepts(constraints, kept, r)
  {
    SharedKeyRefused(constraints, kept, r, constraints[0], constraints[0], r);
  }

  /** The first row of the first batch is always kept. */
  lemma FirstRowKept(constraints: seq<seq<string>>, first: seq<Row>)
    requires first != []
    ensures first[0] in Keep(constraints, [], first)
  {
    assert SeenBy(constraints, []) == {} && [] + [first[0]] == [first[0]];
    assert Keep(constraints, [], first) == Keep(constraints, [first[0]], first[1..]);
    KeepSubset(constraints, [first[0]], first[1..]);
    var kept := Keep(constraints, [], first);
    assert kept[0] == kept[..1][0] == first[0];
  }

  /** How many rows a first reply of `m` brings, if it is to leave some row missing. */
  function Brought(missing: nat, m: nat): int {
    if m == missing then m - 1 else m
  }

  /** A first reply within its request that leaves rows missing: new rows and, if it would be enough of them, one that
      is kept already. */
  lemma ShortReply(table: Table, first: seq<Row>, convert: Conversion, fk: FKValues, m: nat)
    returns (batch: seq<Row>, offered: seq<Row>)
    requires LeavesTexts(table, convert) && IndexesSpare(table, fk) && UniqueColumns(table.indexes) != []
    requires forall r | r in first :: Produced(r, Coercion(table, convert), fk)
    requires 0 < Missing(table, first) && m <= Missing(table, first)
    ensures |batch| == m && RowGeneration.Offered(batch, offered, Coercion(table, convert), fk)
    ensures var cs := UniqueColumns(table.indexes); var kept := Keep(cs, [], first);
            |Keep(cs, kept, offered)| == |kept| + Brought(Missing(table, first), m)
  {
    var cs, coerce := UniqueColumns(table.indexes), Coercion(table, convert);
    var kept := Keep(cs, [], first);
    var some := FreshBatch(cs, kept, map[], Spare(table, fk), Brought(Missing(table, first), m));
    WideBatchOffered(table, convert, fk, some);
    if m == Missing(table, first) {
      var r := first[0];
      assert r in first;
      var raw, mid :| coerce(raw) == Option.Some(mid) && Repaired(mid, r, fk);
      OfferedAppend(some, some, coerce, fk, raw, r);
      FirstRowKept(cs, first);
      KeptIsRefused(cs, kept + some, r);
      KeepAppend(cs, kept, some, r);
      batch, offered := some + [raw], some + [r];
    } else {
      batch, offered := some, some;
    }
  }

  /** The state after a first retry. */
  lemma FirstRetry(cs: seq<seq<string>>, first: seq<Row>, replies: nat -> Reply, offered: seq<Row>,
                   coerce: Row -> Option<Row>, fk: FKValues)
    requires var kept := Keep(cs, [], first); |kept| < |first|
    requires replies(0).Batch? && RowGeneration.Offered(replies(0).rows, offered, coerce, fk)
    ensures var rows := Keep(cs, Keep(cs, [], first), offered);
            Retrying(cs, first, rows, |first| - |rows|, replies, [offered], coerce, fk)
  {
    var kept := Keep(cs, [], first);
    RetryStart(cs, first, replies, coerce, fk);
    RetryStep(cs, first, kept, |first| - |kept|, replies, [], coerce, fk, offered,
              |first| - |Keep(cs, kept, offered)|);
    assert [] + [offered] == [offered];
  }

  lemma RetriesDone(table: Table, first: seq<Row>, rows: seq<Row>, lost: int, replies: nat -> Reply,
                    extra: seq<seq<Row>>, coerce: Row -> Option<Row>, fk: FKValues)
    requires UniqueColumns(table.indexes) != [] && (|extra| == 2 || (|extra| == 1 && lost <= 0))
    requires Retrying(UniqueColumns(table.indexes), first, rows, lost, replies, extra, coerce, fk)
    ensures Enforced(table, first, replies, coerce, fk, rows, lost, extra)
  {}

  /** One such run is enough. */
  lemma RunOverfills(table: Table, first: seq<Row>, convert: Conversion, fk: FKValues, m: nat, n: nat,
                     replies: nat -> Reply, rows: seq<Row>, lost: int, extra: seq<seq<Row>>)
    requires replies(0).Batch? && |replies(0).rows| == m && (replies(1).Batch? ==> |replies(1).rows| == n)
    requires Enforced(table, first, replies, Coercion(table, convert), fk, rows, lost, extra) && |rows| > |first|
    ensures !NeverOverfills(table, first, convert, fk, m, n)
  {}

  lemma OneRetryRun(table: Table, first: seq<Row>, replies: nat -> Reply, offered: seq<Row>,
                    coerce: Row -> Option<Row>, fk: FKValues, rows: seq<Row>)
    requires var cs := UniqueColumns(table.indexes);
             cs != [] && |Keep(cs, [], first)| < |first| <= |rows| && rows == Keep(cs, Keep(cs, [], first), offered)
    requires replies(0).Batch? && RowGeneration.Offered(replies(0).rows, offered, coerce, fk)
    ensures Enforced(table, first, replies, coerce, fk, rows, |first| - |rows|, [offered])
  {
    FirstRetry(UniqueColumns(table.indexes), first, replies, offered, coerce, fk);
    RetriesDone(table, first, rows, |first| - |rows|, replies, [offered], coerce, fk);
  }

  lemma TwoRetriesRun(table: Table, first: seq<Row>, replies: nat -> Reply, offered: seq<Row>, next: seq<Row>,
                      more: seq<Row>, coerce: Row -> Option<Row>, fk: FKValues, rows: seq<Row>)
    requires var cs := UniqueColumns(table.indexes);
             && cs != [] && |Keep(cs, [], first)| < |first| && |next| < |first|
             && next == Keep(cs, Keep(cs, [], first), offered) && rows == Keep(cs, next, more)
    requires replies(0).Batch? && RowGeneration.Offered(replies(0).rows, offered, coerce, fk)
    requires replies(1).Batch? && RowGeneration.Offered(replies(1).rows, more, coerce, fk)
    ensures Enforced(table, first, replies, coerce, fk, rows, |first| - |rows|, [offered] + [more])
  {
    var cs := UniqueColumns(table.indexes);
    FirstRetry(cs, first, replies, offered, coerce, fk);
    RetryStep(cs, first, next, |first| - |next|, replies, [offered], coerce, fk, more, |first| - |rows|);
    RetriesDone(table, first, rows, |first| - |rows|, replies, [offered] + [more], coerce, fk);
  }

  /** A first reply that brings more than is missing. */
  lemma LongReplyOverfills(table: Table, first: seq<Row>, convert: Conversion, fk: FKValues, m: nat, n: nat)
    requires LeavesTexts(table, convert) && IndexesSpare(table, fk) && UniqueColumns(table.indexes) != []
    requires 0 < Missing(table, first) < m
    ensures !NeverOverfills(table, first, convert, fk, m, n)
  {
    var cs, kept := UniqueColumns(table.indexes), Keep(UniqueColumns(table.indexes), [], first);
    var more := FreshBatch(cs, kept, map[], Spare(table, fk), m);
    var replies := (i: nat) => if i == 0 then Batch(more) else Failed;
    WideBatchOffered(table, convert, fk, more);
    OneRetryRun(table, first, replies, more, Coercion(table, convert), fk, kept + more);
    RunOverfills(table, first, convert, fk, m, n, replies, kept + more, |first| - |kept + more|, [more]);
  }

  /** A second reply that brings more than the first has left missing. */
  lemma SecondReplyOverfills(table: Table, first: seq<Row>, convert: Conversion, fk: FKValues, m: nat, n: nat)
    requires LeavesTexts(table, convert) && IndexesSpare(table, fk) && UniqueColumns(table.indexes) != []
    requires forall r | r in first :: Produced(r, Coercion(table, convert), fk)
    requires 0 < Missing(table, first) && m <= Missing(table, first) && n > Max(1, Missing(table, first) - m)
    ensures !NeverOverfills(table, first, convert, fk, m, n)
  {
    var cs, kept := UniqueColumns(table.indexes), Keep(UniqueColumns(table.indexes), [], first);
    var batch, offered := ShortReply(table, first, convert, fk, m);
    var next := Keep(cs, kept, offered);
    var more := FreshBatch(cs, next, map[], Spare(table, fk), n);
    var replies := (i: nat) => if i == 0 then Batch(batch) else Batch(more);
    var rows := next + more;
    WideBatchOffered(table, convert, fk, more);
    TwoRetriesRun(table, first, replies, offered, next, more, Coercion(table, convert), fk, rows);
    RunOverfills(table, first, convert, fk, m, n, replies, rows, |first| - |rows|, [offered] + [more]);
  }

  /** Main result: for replies of `m` and `n` rows, no run of the retries leaves more rows than the first batch had
      exactly when nothing is missing, or the first reply is no longer than its request and the second no longer than
      what the first leaves missing if it brings as much as it can without filling the table. */
  lemma OverfillIff(table: Table, first: seq<Row>, convert: Conversion, fk: FKValues, m: nat, n: nat)
    requires LeavesTexts(table, convert) && IndexesSpare(table, fk)
    requires forall r | r in first :: Produced(r, Coercion(table, convert), fk)
    ensures NeverOverfills(table, first, convert, fk, m, n) <==> LengthsFit(Missing(table, first), m, n)
  {
    if LengthsFit(Missing(table, first), m, n) {
      forall replies: nat -> Reply, rows: seq<Row>, lost: int, extra: seq<seq<Row>> |
        && replies(0).Batch? && |replies(0).rows| == m && (replies(1).Batch? ==> |replies(1).rows| == n)
        && Enforced(table, first, replies, Coercion(table, convert), fk, rows, lost, extra)
        ensures |rows| <= |first|
      {
        RepliesFit(table, first, Coercion(table, convert), fk, m, n, replies, rows, lost, extra);
      }
    } else {
      if UniqueColumns(table.indexes) == [] {
        NoIndexKeepsAll([], first);
      } else if m > Missing(table, first) {
        LongReplyOverfills(table, first, convert, fk, m, n);
      } else {
        SecondReplyOverfills(table, first, convert, fk, m, n);
      }
    }
  }

  // ----- Indexes with few tuples --------------------------------------------------------------

  lemma {:induction false} DistinctAreFew(c: seq<string>, rows: seq<Row>, tuples: set<seq<string>>)
    requires forall i, j | 0 <= i < j < |rows| :: Tuple(c, rows[i]) != Tuple(c, rows[j])
    requires forall r | r in rows :: Tuple(c, r) in tuples
    ensures |rows| <= |tuples|
    decreases |rows|
  {
    if rows != [] {
      var n := |rows| - 1;
      DistinctAreFew(c, rows[..n], tuples - {Tuple(c, rows[n])});
    }
  }

  /** Whatever the replies are, of any length. */
  ghost predicate NoRunOverfills(table: Table, first: seq<Row>, convert: Conversion, fk: FKValues) {
    forall replies: nat -> Reply, rows: seq<Row>, lost: int, extra: seq<seq<Row>> |
      Enforced(table, first, replies, Coercion(table, convert), fk, rows, lost, extra) ::
      |rows| <= |first|
  }

  /** Where an index admits no more tuples than the first batch has rows, no replies overfill the table. */
  lemma FewTuplesNeverOverfill(table: Table, first: seq<Row>, convert: Conversion, fk: FKValues,
                               c: seq<string>, tuples: set<seq<string>>)
    requires c in UniqueColumns(table.indexes) && |tuples| <= |first|
    requires forall r | Produced(r, Coercion(table, convert), fk) :: Tuple(c, r) in tuples
    requires forall r | r in first :: Produced(r, Coercion(table, convert), fk)
    ensures NoRunOverfills(table, first, convert, fk)
  {
    var coerce := Coercion(table, convert);
    forall replies: nat -> Reply, rows: seq<Row>, lost: int, extra: seq<seq<Row>> |
      Enforced(table, first, replies, coerce, fk, rows, lost, extra)
      ensures |rows| <= |first|
    {
      KeptRowsSatisfy(table, first, replies, coerce, fk, rows, lost, extra);
      KeptRowsProduced(table, first, replies, coerce, fk, rows, lost, extra);
      DistinctAreFew(c, rows, tuples);
    }
  }

  // ----- Witnesses ----------------------------------------------------------------------------

  const TABLE := Table("public", "t", [Column("a", "text", false, "")], [], [], [], [Index("t_a_key", ["a"], true)])
  const ROW: Row := map["a" := Value(0, "1")]

  lemma TableIndexes(table: Table, index: Index)
    requires table.indexes == [index] && index.isUnique
    ensures UniqueColumns(table.indexes) == [index.columns]
  {
    assert [index][..0] == [];
  }

  /** Two equal rows leave one missing. */
  lemma OneMissing()
    ensures Keep([["a"]], [], [ROW, ROW]) == [ROW]
  {
    var cs := [["a"]];
    assert SeenBy(cs, []) == {};
    assert [ROW, ROW][1..] == [ROW] && [ROW][1..] == [] && [] + [ROW] == [ROW];
    assert ROW in [ROW] && Key(["a"], ROW) in SeenBy(cs, [ROW]) && Key(["a"], ROW) in KeysOf(cs, ROW);
    assert Keep(cs, [], [ROW, ROW]) == Keep(cs, [ROW], [ROW]) == [ROW];
  }

  lemma InText(w: string, i: nat)
    requires |w| >= 3 && OccursAt("text", w, i)
    ensures w[1] == 'x' || w[2] == 'x'
  {
    assert "text"[i] == w[0] && "text"[i + 1] == w[1] && "text"[i + 2] == w[2];
  }

  lemma TextIsPlain(c: Column)
    requires c.dataType == "text"
    ensures PlainText(c)
  {
    assert ToLower("text") == "text";
    forall w | w in CONVERTED
      ensures !Contains("text", w)
    {
      assert |w| >= 3 && w[1] != 'x' && w[2] != 'x';
      if i: nat :| i <= 4 && OccursAt("text", w, i) {
        InText(w, i);
      }
    }
  }

  lemma TableOverfills(convert: Conversion)
    requires LeavesTexts(TABLE, convert)
    ensures IndexesSpare(TABLE, map[]) && Missing(TABLE, [ROW, ROW]) == 1
    ensures forall r | r in [ROW, ROW] :: Produced(r, Coercion(TABLE, convert), map[])
  {
    TableIndexes(TABLE, TABLE.indexes[0]);
    OneMissing();
    TextIsPlain(TABLE.columns[0]);
    assert ["a"][0] == "a" && TABLE.columns[0].name in Spare(TABLE, map[]);
    assert Spare(TABLE, map[]) == {"a"};
    assert ROW == Widened(map[], Spare(TABLE, map[]), "1");
    WideRowStays(TABLE, convert, map[], "1");
  }

  /** For the missing row, a reply of two may make three rows of the two, and so may an empty reply followed by one of
      two; two replies of one row cannot. */
  lemma OverfillHappens(convert: Conversion)
    requires LeavesTexts(TABLE, convert)
    ensures !NeverOverfills(TABLE, [ROW, ROW], convert, map[], 2, 0)
    ensures !NeverOverfills(TABLE, [ROW, ROW], convert, map[], 0, 2)
    ensures NeverOverfills(TABLE, [ROW, ROW], convert, map[], 1, 1)
  {
    TableOverfills(convert);
    OverfillIff(TABLE, [ROW, ROW], convert, map[], 2, 0);
    OverfillIff(TABLE, [ROW, ROW], convert, map[], 0, 2);
    OverfillIff(TABLE, [ROW, ROW], convert, map[], 1, 1);
  }

  const FLAGS := Table("public", "f", [Column("b", "boolean", true, "")], [], [], [], [Index("f_b_key", ["b"], true)])

  lemma FlagCoerced(convert: Conversion, raw: Row, mid: Row)
    requires forall v :: convert("b")(v).Some? ==> convert("b")(v).value.shown in {"true", "false"}
    requires Coercion(FLAGS, convert)(raw) == Option.Some(mid) && "b" in mid
    ensures mid["b"].shown in {"true", "false", "<nil>"}
  {
    CoercedValues(FLAGS.columns, raw, convert);
    assert FLAGS.columns[0].name == "b";
  }

  lemma FlagTuples(convert: Conversion, r: Row)
    requires forall v :: convert("b")(v).Some? ==> convert("b")(v).value.shown in {"true", "false"}
    requires Produced(r, Coercion(FLAGS, convert), map[])
    ensures Tuple(["b"], r) in {["true"], ["false"], ["<nil>"]}
  {
    var raw, mid :| Coercion(FLAGS, convert)(raw) == Option.Some(mid) && Repaired(mid, r, map[]);
    if "b" in r {
      FlagCoerced(convert, raw, mid);
    }
    assert Tuple(["b"], r) == [Shown(r, "b")];
  }

  /** A unique index on a boolean column: with three rows in the first batch, nothing overfills the table, however
      many rows are missing and however long the replies. */
  lemma FlagsNeverOverfill(convert: Conversion, first: seq<Row>)
    requires forall v :: convert("b")(v).Some? ==> convert("b")(v).value.shown in {"true", "false"}
    requires |first| >= 3 && forall r | r in first :: Produced(r, Coercion(FLAGS, convert), map[])
    ensures NoRunOverfills(FLAGS, first, convert, map[])
  {
    TableIndexes(FLAGS, FLAGS.indexes[0]);
    forall r | Produced(r, Coercion(FLAGS, convert), map[])
      ensures Tuple(["b"], r) in {["true"], ["false"], ["<nil>"]}
    {
      FlagTuples(convert, r);
    }
    FewTuplesNeverOverfill(FLAGS, first, convert, map[], ["b"], {["true"], ["false"], ["<nil>"]});
  }
}
