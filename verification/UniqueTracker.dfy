/** `uniqueTracker` of pkg/generator/unique.go, and what it accepts. */
module UniqueTracking {
  import opened Strings
  import opened Schema

  /** A generated value: what it is, and how `%v` shows it. */
  datatype Value = Value(kind: nat, shown: string)

  /** JSON's null, Go's nil. */
  const NIL := Value(1, "<nil>")

  type Row = map<string, Value>

  /** A column the row does not have is nil, which `%v` shows as `<nil>`. */
  function Shown(row: Row, col: string): string {
    if col in row then row[col].shown else "<nil>"
  }

  /** The formatted column tuple of a row. */
  function Tuple(cols: seq<string>, row: Row): seq<string> {
    seq(|cols|, i requires 0 <= i < |cols| => Shown(row, cols[i]))
  }

  function Key(cols: seq<string>, row: Row): string {
    Join(Tuple(cols, row), "\0")
  }

  lemma ShortKeys(cols: seq<string>, row: Row)
    ensures forall col | cols == [col] :: Key(cols, row) == if col in row then row[col].shown else "<nil>"
    ensures forall a, b | cols == [a, b] && a in row && b in row ::
              Key(cols, row) == row[a].shown + "\0" + row[b].shown
  {
    if |cols| == 2 {
      var t := Tuple(cols, row);
      assert t[1..] == [t[1]];
      assert Join(t[1..], "\0") == t[1];
    }
  }

  function UniqueColumns(indexes: seq<Index>): seq<seq<string>> {
    if indexes == [] then []
    else
      var n := |indexes| - 1;
      UniqueColumns(indexes[..n]) + if indexes[n].isUnique then [indexes[n].columns] else []
  }

  /** Exactly the unique indexes give constraints. */
  lemma {:induction false} UniqueColumnsExactly(indexes: seq<Index>, c: seq<string>)
    ensures c in UniqueColumns(indexes) <==>
              exists i | 0 <= i < |indexes| :: indexes[i].isUnique && indexes[i].columns == c
    decreases |indexes|
  {
    if indexes != [] {
      var n := |indexes| - 1;
      UniqueColumnsExactly(indexes[..n], c);
      if i :| 0 <= i < n && indexes[..n][i].isUnique && indexes[..n][i].columns == c {
        assert indexes[i] == indexes[..n][i];
      }
      if i :| 0 <= i < |indexes| && indexes[i].isUnique && indexes[i].columns == c {
        assert i < n ==> indexes[..n][i] == indexes[i];
      }
    }
  }

  lemma {:induction false} UniqueColumnsConcat(a: seq<Index>, b: seq<Index>)
    ensures UniqueColumns(a + b) == UniqueColumns(a) + UniqueColumns(b)
    decreases |b|
  {
    if b == [] {
      assert a + b == a;
    } else {
      var n := |b| - 1;
      UniqueColumnsConcat(a, b[..n]);
      assert (a + b)[..|a| + n] == a + b[..n] && (a + b)[|a| + n] == b[n];
    }
  }

  /** An index that is not unique makes no difference, wherever it stands. */
  lemma PlainIndexIgnored(a: seq<Index>, idx: Index, b: seq<Index>)
    requires !idx.isUnique
    ensures UniqueColumns(a + [idx] + b) == UniqueColumns(a + b)
  {
    UniqueColumnsConcat(a + [idx], b);
    UniqueColumnsConcat(a, [idx]);
    UniqueColumnsConcat(a, b);
    assert [idx][..0] == [];
  }

  /** Neither does any number of them. */
  lemma {:induction false} NoUniqueIndex(indexes: seq<Index>)
    requires forall idx | idx in indexes :: !idx.isUnique
    ensures UniqueColumns(indexes) == []
    decreases |indexes|
  {
    if indexes != [] {
      NoUniqueIndex(indexes[..|indexes| - 1]);
    }
  }

  /** The keys a row enters, one for every unique index. */
  function KeysOf(constraints: seq<seq<string>>, row: Row): set<string> {
    set c | c in constraints :: Key(c, row)
  }

  function SeenBy(constraints: seq<seq<string>>, kept: seq<Row>): set<string> {
    set r, c | r in kept && c in constraints :: Key(c, r)
  }

  class UniqueTracker {
    var constraints: seq<seq<string>>
    var seen: set<string>

    constructor (table: Table)
      ensures constraints == UniqueColumns(table.indexes) && seen == {}
      ensures forall c :: c in constraints <==>
                exists i | 0 <= i < |table.indexes| :: table.indexes[i].isUnique && table.indexes[i].columns == c
    {
      constraints := [];
      seen := {};
      new;
      for i := 0 to |table.indexes|
        invariant constraints == UniqueColumns(table.indexes[..i]) && seen == {}
      {
        assert table.indexes[..i + 1][..i] == table.indexes[..i];
        var idx := table.indexes[i];
        if idx.isUnique {
          constraints := constraints + [idx.columns];
        }
      }
      assert table.indexes[..|table.indexes|] == table.indexes;
      forall c
        ensures c in constraints <==>
                  exists i | 0 <= i < |table.indexes| :: table.indexes[i].isUnique && table.indexes[i].columns == c
      {
        UniqueColumnsExactly(table.indexes, c);
      }
    }

    predicate IsEmpty()
      reads this
    {
      |constraints| == 0
    }

    method MakeKey(cols: seq<string>, row: Row) returns (key: string)
      ensures key == Key(cols, row)
      ensures forall col | cols == [col] :: key == if col in row then row[col].shown else "<nil>"
      ensures forall a, b | cols == [a, b] && a in row && b in row :: key == row[a].shown + "\0" + row[b].shown
    {
      var parts := new string[|cols|];
      for i := 0 to |cols|
        invariant forall j | 0 <= j < i :: parts[j] == Shown(row, cols[j])
      {
        parts[i] := Shown(row, cols[i]);
      }
      assert parts[..] == Tuple(cols, row);
      key := Join(parts[..], "\0");
      ShortKeys(cols, row);
    }

    method IsUnique(row: Row) returns (fresh': bool)
      ensures fresh' <==> KeysOf(constraints, row) !! seen
    {
      for i := 0 to |constraints|
        invariant forall j | 0 <= j < i :: Key(constraints[j], row) !in seen
      {
        var key := MakeKey(constraints[i], row);
        if key in seen {
          assert key in KeysOf(constraints, row);
          return false;
        }
      }
      return true;
    }

    method Add(row: Row)
      modifies this`seen
      ensures seen == old(seen) + KeysOf(constraints, row)
    {
      for i := 0 to |constraints|
        invariant seen == old(seen) + KeysOf(constraints[..i], row)
      {
        assert constraints[..i + 1] == constraints[..i] + [constraints[i]];
        var key := MakeKey(constraints[i], row);
        seen := seen + {key};
      }
      assert constraints[..|constraints|] == constraints;
    }
  }

  // ----- What the tracker keeps ---------------------------------------------------------------

  predicate Accepts(constraints: seq<seq<string>>, kept: seq<Row>, row: Row) {
    KeysOf(constraints, row) !! SeenBy(constraints, kept)
  }

  /** The rows kept after offering `rows` one by one. */
  function Keep(constraints: seq<seq<string>>, kept: seq<Row>, rows: seq<Row>): seq<Row>
    decreases |rows|
  {
    if rows == [] then kept
    else Keep(constraints, if Accepts(constraints, kept, rows[0]) then kept + [rows[0]] else kept, rows[1..])
  }

  /** No two rows share a formatted tuple on any unique index. */
  predicate DistinctOn(constraints: seq<seq<string>>, kept: seq<Row>) {
    forall c, i, j | c in constraints && 0 <= i < j < |kept| :: Tuple(c, kept[i]) != Tuple(c, kept[j])
  }

  lemma {:induction false} KeepDistinct(constraints: seq<seq<string>>, kept: seq<Row>, rows: seq<Row>)
    requires DistinctOn(constraints, kept)
    ensures DistinctOn(constraints, Keep(constraints, kept, rows))
    decreases |rows|
  {
    if rows != [] {
      if Accepts(constraints, kept, rows[0]) {
        var kept' := kept + [rows[0]];
        forall c, i, j | c in constraints && 0 <= i < j < |kept'|
          ensures Tuple(c, kept'[i]) != Tuple(c, kept'[j])
        {
          if j == |kept| {
            assert Key(c, kept[i]) in SeenBy(constraints, kept);
            assert Key(c, rows[0]) in KeysOf(constraints, rows[0]);
          }
        }
        KeepDistinct(constraints, kept', rows[1..]);
      } else {
        KeepDistinct(constraints, kept, rows[1..]);
      }
    }
  }

  lemma {:induction false} KeepAppend(constraints: seq<seq<string>>, kept: seq<Row>, rows: seq<Row>, row: Row)
    ensures var k := Keep(constraints, kept, rows);
            Keep(constraints, kept, rows + [row]) == if Accepts(constraints, k, row) then k + [row] else k
    decreases |rows|
  {
    var all := rows + [row];
    if rows == [] {
      assert all[1..] == [];
    } else {
      assert all[1..] == rows[1..] + [row];
      KeepAppend(constraints, if Accepts(constraints, kept, rows[0]) then kept + [rows[0]] else kept, rows[1..], row);
    }
  }

  lemma {:induction false} KeepSubset(constraints: seq<seq<string>>, kept: seq<Row>, rows: seq<Row>)
    ensures var k := Keep(constraints, kept, rows);
            && |kept| <= |k| <= |kept| + |rows| && k[..|kept|] == kept
            && forall r | r in k :: r in kept || r in rows
    decreases |rows|
  {
    if rows != [] {
      var kept' := if Accepts(constraints, kept, rows[0]) then kept + [rows[0]] else kept;
      KeepSubset(constraints, kept', rows[1..]);
      var k := Keep(constraints, kept', rows[1..]);
      assert k[..|kept|] == k[..|kept'|][..|kept|];
    }
  }

  // ----- One unique index: exactly the first row of each tuple --------------------------------

  predicate NulFree(parts: seq<string>) {
    forall i | 0 <= i < |parts| :: '\0' !in parts[i]
  }

  lemma {:induction false} JoinInjective(a: seq<string>, b: seq<string>)
    requires NulFree(a) && NulFree(b) && (a == [] <==> b == []) && Join(a, "\0") == Join(b, "\0")
    ensures a == b
    decreases |a|
  {
    if |a| > 1 && |b| > 1 {
      FirstPart(a[0], Join(a[1..], "\0"), b[0], Join(b[1..], "\0"));
      JoinInjective(a[1..], b[1..]);
      assert a == [a[0]] + a[1..] && b == [b[0]] + b[1..];
    } else if |a| > 1 {
      JoinHasNul(a);
    } else if |b| > 1 {
      JoinHasNul(b);
    }
  }

  lemma JoinHasNul(parts: seq<string>)
    requires |parts| > 1
    ensures '\0' in Join(parts, "\0")
  {
    var joined := Join(parts, "\0");
    assert joined == parts[0] + "\0" + Join(parts[1..], "\0");
    assert joined[|parts[0]|] == '\0';
  }

  lemma FirstPart(x: string, xs: string, y: string, ys: string)
    requires '\0' !in x && '\0' !in y && x + "\0" + xs == y + "\0" + ys
    ensures x == y && xs == ys
  {
    var s := x + "\0" + xs;
    assert s[|x|] == '\0' && s[|y|] == '\0';
    assert s[..|x|] == x && s[..|y|] == y;
    assert s[|x| + 1..] == xs && s[|y| + 1..] == ys;
  }

  /** The rows whose tuple no earlier row of `rows` has. */
  function FirstOfEach(cols: seq<string>, rows: seq<Row>): seq<Row> {
    if rows == [] then []
    else
      var n := |rows| - 1;
      var known := exists j | 0 <= j < n :: Tuple(cols, rows[j]) == Tuple(cols, rows[n]);
      FirstOfEach(cols, rows[..n]) + if known then [] else [rows[n]]
  }

  lemma {:induction false} FirstOfEachTuples(cols: seq<string>, rows: seq<Row>, t: seq<string>)
    ensures (exists r | r in FirstOfEach(cols, rows) :: Tuple(cols, r) == t) <==>
            (exists r | r in rows :: Tuple(cols, r) == t)
    decreases |rows|
  {
    if rows != [] {
      var n := |rows| - 1;
      var before := rows[..n];
      FirstOfEachTuples(cols, before, t);
      assert rows == before + [rows[n]];
      if j :| 0 <= j < n && Tuple(cols, rows[j]) == Tuple(cols, rows[n]) {
        assert before[j] in before && FirstOfEach(cols, rows) == FirstOfEach(cols, before) + [];
      } else {
        assert FirstOfEach(cols, rows) == FirstOfEach(cols, before) + [rows[n]];
      }
    }
  }

  lemma {:induction false} SingleIndexKeepsFirst(cols: seq<string>, rows: seq<Row>)
    requires forall r | r in rows :: NulFree(Tuple(cols, r))
    ensures Keep([cols], [], rows) == FirstOfEach(cols, rows)
    decreases |rows|
  {
    if rows != [] {
      var n := |rows| - 1;
      var row, before := rows[n], rows[..n];
      assert rows == before + [row];
      SingleIndexKeepsFirst(cols, before);
      KeepAppend([cols], [], before, row);
      var kept := FirstOfEach(cols, before);
      FirstOfEachTuples(cols, before, Tuple(cols, row));
      KeepSubset([cols], [], before);
      AcceptsSingle(cols, kept, row);
    }
  }

  lemma AcceptsSingle(cols: seq<string>, kept: seq<Row>, row: Row)
    requires NulFree(Tuple(cols, row)) && forall r | r in kept :: NulFree(Tuple(cols, r))
    ensures Accepts([cols], kept, row) <==> !exists r | r in kept :: Tuple(cols, r) == Tuple(cols, row)
  {
    assert Key(cols, row) in KeysOf([cols], row);
    forall r | r in kept && Key(cols, r) == Key(cols, row)
      ensures Tuple(cols, r) == Tuple(cols, row)
    {
      JoinInjective(Tuple(cols, r), Tuple(cols, row));
    }
    if r :| r in kept && Tuple(cols, r) == Tuple(cols, row) {
      assert Key(cols, r) in SeenBy([cols], kept);
    }
  }

  // ----- Several unique indexes: one shared set of keys ---------------------------------------

  /** What uniqueness asks: no kept row has the same tuple on the same index. */
  predicate Conflicts(constraints: seq<seq<string>>, kept: seq<Row>, row: Row) {
    exists c, r | c in constraints && r in kept :: Tuple(c, row) == Tuple(c, r)
  }

  /** The tuple on one index equals the tuple of a kept row on another. */
  predicate CrossTalk(constraints: seq<seq<string>>, kept: seq<Row>, row: Row) {
    exists c, d, r | c in constraints && d in constraints && c != d && r in kept :: Tuple(c, row) == Tuple(d, r)
  }

  /** Every index has columns, and the row shows no zero character in them. */
  predicate NulFreeOn(constraints: seq<seq<string>>, row: Row) {
    forall c | c in constraints :: c != [] && NulFree(Tuple(c, row))
  }

  lemma KeysAreTuples(constraints: seq<seq<string>>, kept: seq<Row>, row: Row, c: seq<string>, d: seq<string>, r: Row)
    requires c in constraints && d in constraints && r in kept
    requires NulFreeOn(constraints, row) && NulFreeOn(constraints, r)
    ensures Key(c, row) == Key(d, r) <==> Tuple(c, row) == Tuple(d, r)
  {
    if Key(c, row) == Key(d, r) {
      JoinInjective(Tuple(c, row), Tuple(d, r));
    }
  }

  /** The keys of all indexes share one set: a row is accepted exactly when no kept row has its tuple on the same
      index, which is uniqueness, and none has it on another. */
  lemma AcceptsExactly(constraints: seq<seq<string>>, kept: seq<Row>, row: Row)
    requires NulFreeOn(constraints, row) && forall r | r in kept :: NulFreeOn(constraints, r)
    ensures Accepts(constraints, kept, row) <==>
              !Conflicts(constraints, kept, row) && !CrossTalk(constraints, kept, row)
  {
    if !Accepts(constraints, kept, row) {
      var key :| key in KeysOf(constraints, row) && key in SeenBy(constraints, kept);
      var c :| c in constraints && key == Key(c, row);
      var r, d :| r in kept && d in constraints && key == Key(d, r);
      KeysAreTuples(constraints, kept, row, c, d, r);
      assert c == d ==> Conflicts(constraints, kept, row);
    }
    if Conflicts(constraints, kept, row) {
      var c, r :| c in constraints && r in kept && Tuple(c, row) == Tuple(c, r);
      SharedKeyRefused(constraints, kept, row, c, c, r);
    }
    if CrossTalk(constraints, kept, row) {
      var c, d, r :| c in constraints && d in constraints && c != d && r in kept && Tuple(c, row) == Tuple(d, r);
      SharedKeyRefused(constraints, kept, row, c, d, r);
    }
  }

  lemma SharedKeyRefused(constraints: seq<seq<string>>, kept: seq<Row>, row: Row, c: seq<string>, d: seq<string>,
                         r: Row)
    requires c in constraints && d in constraints && r in kept && Key(c, row) == Key(d, r)
    ensures !Accepts(constraints, kept, row)
  {
    assert Key(c, row) in KeysOf(constraints, row) && Key(d, r) in SeenBy(constraints, kept);
  }

  /** A row that conflicts with nothing is refused: with unique indexes on `a` and on `b`, the value 2 in
      column `a` is taken for the 2 an earlier row has in column `b`. */
  lemma CrossTalkRefuses()
    ensures var constraints := [["a"], ["b"]];
            var first: Row := map["a" := Value(0, "1"), "b" := Value(0, "2")];
            var second: Row := map["a" := Value(0, "2"), "b" := Value(0, "3")];
            !Conflicts(constraints, [first], second) && !Accepts(constraints, [first], second)
  {
    var constraints := [["a"], ["b"]];
    var first: Row := map["a" := Value(0, "1"), "b" := Value(0, "2")];
    var second: Row := map["a" := Value(0, "2"), "b" := Value(0, "3")];
    assert Tuple(["a"], first)[0] == "1" && Tuple(["b"], first)[0] == "2";
    assert Tuple(["a"], second)[0] == "2" && Tuple(["b"], second)[0] == "3";
    assert first in [first] && ["a"] in constraints && ["b"] in constraints;
    SharedKeyRefused(constraints, [first], second, ["a"], ["b"], first);
  }
}
