/** Foreign keys of several columns: pkg/generator/generator.go repairs them column by column. When is the whole key of
    a generated row the key of one stored row? Columns may repeat, as the lists of pkg/schema/inspector.go do. */
module CompositeKeys {
  import opened Schema
  import opened UniqueTracking
  import opened RowGeneration
  import opened Generation
  import opened References

  // ----- Keys drawn column by column ----------------------------------------------------------

  /** The row has the referenced columns, with one text for each column of the key. */
  predicate HoldsKey(fk: ForeignKey, r: Row)
    requires |fk.columns| <= |fk.referencedCols|
  {
    && (forall c | c in fk.columns :: RefCol(fk, c) in r)
    && forall k | 0 <= k < |fk.columns| ::
         && fk.referencedCols[k] in r
         && r[fk.referencedCols[k]].shown == r[RefCol(fk, fk.columns[k])].shown
  }

  /** Its key, in the columns of the table that refers to it. */
  function KeyIn(fk: ForeignKey, r: Row): map<string, string>
    requires |fk.columns| <= |fk.referencedCols| && HoldsKey(fk, r)
  {
    map c | c in fk.columns :: r[RefCol(fk, c)].shown
  }

  /** Its key could be drawn. */
  ghost predicate Fits(fk: ForeignKey, can: (string, string) -> bool, r: Row)
    requires |fk.columns| <= |fk.referencedCols|
  {
    HoldsKey(fk, r) && forall c | c in fk.columns :: can(c, r[RefCol(fk, c)].shown)
  }

  /** Some stored row has a key that could be drawn, if any can; and changing such a key in one column to anything
      that could be drawn there gives a stored row's key again. */
  ghost predicate Exchangeable(fk: ForeignKey, can: (string, string) -> bool, targets: seq<Row>)
    requires |fk.columns| <= |fk.referencedCols|
  {
    && ((exists key :: Drawn(fk, key, can)) ==> exists r: Row | r in targets :: Fits(fk, can, r))
    && forall r: Row, c, text | r in targets && Fits(fk, can, r) && c in fk.columns && can(c, text) ::
         Whole(fk, KeyIn(fk, r)[c := text], targets)
  }

  lemma MatchesKey(fk: ForeignKey, key: map<string, string>, r: Row)
    requires |fk.columns| <= |fk.referencedCols| && key.Keys == ColumnsOf(fk)
    ensures Matches(fk, key, r) <==> HoldsKey(fk, r) && KeyIn(fk, r) == key
  {
    if Matches(fk, key, r) {
      forall c | c in fk.columns
        ensures RefCol(fk, c) in r && r[RefCol(fk, c)].shown == key[c]
      {
        var k := PositionOf(fk.columns, c);
        assert fk.columns[k] == c;
      }
    }
    if HoldsKey(fk, r) && KeyIn(fk, r) == key {
      forall k | 0 <= k < |fk.columns|
        ensures fk.referencedCols[k] in r && r[fk.referencedCols[k]].shown == key[fk.columns[k]]
      {
        assert fk.columns[k] in fk.columns;
      }
    }
  }

  lemma ExchangedIsDrawn(fk: ForeignKey, can: (string, string) -> bool, r: Row, c: string, text: string)
    requires |fk.columns| <= |fk.referencedCols| && Fits(fk, can, r) && c in fk.columns && can(c, text)
    ensures Drawn(fk, KeyIn(fk, r)[c := text], can)
  {}

  lemma DrawnRowFits(fk: ForeignKey, can: (string, string) -> bool, key: map<string, string>, r: Row)
    requires |fk.columns| <= |fk.referencedCols| && Drawn(fk, key, can) && Matches(fk, key, r)
    ensures Fits(fk, can, r) && KeyIn(fk, r) == key
  {
    MatchesKey(fk, key, r);
    forall c | c in fk.columns
      ensures can(c, r[RefCol(fk, c)].shown)
    {
      assert c in ColumnsOf(fk) && KeyIn(fk, r)[c] == key[c];
    }
  }

  /** One column changed: another row. */
  lemma ExchangeOne(fk: ForeignKey, can: (string, string) -> bool, targets: seq<Row>, r: Row, c: string, text: string)
    returns (q: Row)
    requires |fk.columns| <= |fk.referencedCols| && Exchangeable(fk, can, targets)
    requires r in targets && Fits(fk, can, r) && c in fk.columns && can(c, text)
    ensures q in targets && Fits(fk, can, q) && KeyIn(fk, q) == KeyIn(fk, r)[c := text]
  {
    ExchangedIsDrawn(fk, can, r, c, text);
    q :| q in targets && Matches(fk, KeyIn(fk, r)[c := text], q);
    DrawnRowFits(fk, can, KeyIn(fk, r)[c := text], q);
  }

  /** The row's key is this one but for the columns left. */
  predicate Agrees(fk: ForeignKey, r: Row, key: map<string, string>, left: set<string>)
    requires |fk.columns| <= |fk.referencedCols| && HoldsKey(fk, r) && key.Keys == ColumnsOf(fk)
  {
    forall c | c in ColumnsOf(fk) - left :: KeyIn(fk, r)[c] == key[c]
  }

  lemma AgreesMore(fk: ForeignKey, r: Row, q: Row, key: map<string, string>, left: set<string>, c: string)
    requires |fk.columns| <= |fk.referencedCols| && HoldsKey(fk, r) && HoldsKey(fk, q) && key.Keys == ColumnsOf(fk)
    requires c in key && Agrees(fk, r, key, left) && KeyIn(fk, q) == KeyIn(fk, r)[c := key[c]]
    ensures Agrees(fk, q, key, left - {c})
  {}

  lemma AgreesWhole(fk: ForeignKey, r: Row, key: map<string, string>, targets: seq<Row>)
    requires |fk.columns| <= |fk.referencedCols| && HoldsKey(fk, r) && key.Keys == ColumnsOf(fk)
    requires r in targets && Agrees(fk, r, key, {})
    ensures Whole(fk, key, targets)
  {
    assert KeyIn(fk, r) == key;
    MatchesKey(fk, key, r);
  }

  lemma {:induction false} DrawnIsWhole(fk: ForeignKey, can: (string, string) -> bool, targets: seq<Row>,
                                        key: map<string, string>, r: Row, left: set<string>)
    requires |fk.columns| <= |fk.referencedCols| && Exchangeable(fk, can, targets) && Drawn(fk, key, can)
    requires r in targets && Fits(fk, can, r) && left <= ColumnsOf(fk) && Agrees(fk, r, key, left)
    ensures Whole(fk, key, targets)
    decreases left
  {
    if left == {} {
      AgreesWhole(fk, r, key, targets);
    } else {
      var c :| c in left;
      var q := ExchangeOne(fk, can, targets, r, c, key[c]);
      AgreesMore(fk, r, q, key, left, c);
      DrawnIsWhole(fk, can, targets, key, q, left - {c});
    }
  }

  /** Drawing column by column always gives the key of some row exactly when the rows' keys are closed under changing
      one column. */
  lemma DrawnWholeIff(fk: ForeignKey, can: (string, string) -> bool, targets: seq<Row>)
    requires |fk.columns| <= |fk.referencedCols|
    ensures AllDrawnWhole(fk, can, targets) <==> Exchangeable(fk, can, targets)
  {
    if Exchangeable(fk, can, targets) {
      forall key | Drawn(fk, key, can)
        ensures Whole(fk, key, targets)
      {
        var r: Row :| r in targets && Fits(fk, can, r);
        DrawnIsWhole(fk, can, targets, key, r, ColumnsOf(fk));
      }
    }
    if AllDrawnWhole(fk, can, targets) {
      if key :| Drawn(fk, key, can) {
        var r: Row :| r in targets && Matches(fk, key, r);
        DrawnRowFits(fk, can, key, r);
      }
      forall r: Row, c, text | r in targets && Fits(fk, can, r) && c in fk.columns && can(c, text)
        ensures Whole(fk, KeyIn(fk, r)[c := text], targets)
      {
        ExchangedIsDrawn(fk, can, r, c, text);
      }
    }
  }

  /** Main result, for every foreign key: no rows sent can be refused for it exactly when the keys of the stored rows
      are closed under changing one column to what it may hold. */
  lemma KeptIffExchangeable(table: Table, fk: ForeignKey, pkValues: map<string, seq<Row>>, setting: Setting,
                            targets: seq<Row>)
    requires WellFormed(table) && fk in table.foreignKeys && ColumnsOf(fk) !! Skipped(table, setting.also)
    ensures AlwaysKept(table, fk, pkValues, setting, targets) <==>
              Exchangeable(fk, Texts(table, pkValues, setting), targets)
  {
    KeptIffCovered(table, fk, pkValues, setting, targets);
    DrawnWholeIff(fk, Texts(table, pkValues, setting), targets);
  }

  // ----- With the keys of the target's rows recorded ------------------------------------------

  /** What the recorded rows have in the column that this one refers to, by its first place in the key. */
  ghost function RecordedTexts(fk: ForeignKey, recorded: seq<Row>): (string, string) -> bool
    requires |fk.columns| <= |fk.referencedCols|
  {
    (c, text) => c in fk.columns && Shows(recorded, RefCol(fk, c), text)
  }

  /** The columns of this foreign key belong to no earlier one, are sent, and have recorded values, which are not shown
      as nil is. */
  predicate KeyInUse(table: Table, fk: ForeignKey, recorded: seq<Row>, also: set<string>) {
    && WellFormed(table) && fk in table.foreignKeys && ColumnsOf(fk) !! Skipped(table, also)
    && forall c | c in fk.columns ::
         && OwnerOf(table.foreignKeys, c) == Option.Some(fk)
         && (exists r: Row | r in recorded :: RefCol(fk, c) in r)
         && !Shows(recorded, RefCol(fk, c), NIL.shown)
  }

  lemma ColumnTexts(table: Table, fk: ForeignKey, pkValues: map<string, seq<Row>>, setting: Setting,
                    recorded: seq<Row>, c: string, text: string)
    requires KeyInUse(table, fk, recorded, setting.also) && c in fk.columns
    requires fk.referencedTable in pkValues && pkValues[fk.referencedTable] == recorded
    ensures MayShow(table, pkValues, setting, c, text) <==> Shows(recorded, RefCol(fk, c), text)
  {
    var choices := Choices(table, c, pkValues, setting.database);
    RecordedShown(recorded, RefCol(fk, c));
    assert choices == Recorded(recorded, RefCol(fk, c)) != [];
    if MayShow(table, pkValues, setting, c, text) {
      var v := ValueFor(table, pkValues, setting, c, text);
      HeldIsChoice(setting.convert(c), choices, v);
    }
    if v :| v in choices && v.shown == text {
      ChoiceHeld(setting.convert(c), choices, v);
    }
  }

  lemma SameTexts(fk: ForeignKey, can: (string, string) -> bool, other: (string, string) -> bool, targets: seq<Row>)
    requires |fk.columns| <= |fk.referencedCols|
    requires forall c, text | c in fk.columns :: can(c, text) <==> other(c, text)
    ensures AllDrawnWhole(fk, can, targets) <==> AllDrawnWhole(fk, other, targets)
  {
    forall key: map<string, string>
      ensures Drawn(fk, key, can) <==> Drawn(fk, key, other)
    {}
  }

  /** Main result on one run: no rows sent can be refused for the key exactly when the stored keys are closed under
      exchanging one column with a recorded row. */
  lemma CompositeKeyWholeIff(table: Table, fk: ForeignKey, pkValues: map<string, seq<Row>>, setting: Setting,
                             recorded: seq<Row>, targets: seq<Row>)
    requires KeyInUse(table, fk, recorded, setting.also)
    requires fk.referencedTable in pkValues && pkValues[fk.referencedTable] == recorded
    ensures AlwaysKept(table, fk, pkValues, setting, targets) <==>
              Exchangeable(fk, RecordedTexts(fk, recorded), targets)
  {
    var can, texts := Texts(table, pkValues, setting), RecordedTexts(fk, recorded);
    forall c, text | c in fk.columns
      ensures can(c, text) <==> texts(c, text)
    {
      ColumnTexts(table, fk, pkValues, setting, recorded, c, text);
    }
    KeptIffCovered(table, fk, pkValues, setting, targets);
    SameTexts(fk, can, texts, targets);
    DrawnWholeIff(fk, texts, targets);
  }

  /** A key of one column whose recorded values are stored is always kept. */
  lemma SingleColumnWhole(table: Table, fk: ForeignKey, pkValues: map<string, seq<Row>>, setting: Setting,
                          recorded: seq<Row>, targets: seq<Row>)
    requires KeyInUse(table, fk, recorded, setting.also) && |fk.columns| == 1
    requires fk.referencedTable in pkValues && pkValues[fk.referencedTable] == recorded
    requires forall text | Shows(recorded, fk.referencedCols[0], text) :: Shows(targets, fk.referencedCols[0], text)
    ensures AlwaysKept(table, fk, pkValues, setting, targets)
  {
    var c := fk.columns[0];
    assert fk.columns == [c] && RefCol(fk, c) == fk.referencedCols[0];
    var choices := Choices(table, c, pkValues, setting.database);
    RecordedShown(recorded, RefCol(fk, c));
    assert choices == Recorded(recorded, RefCol(fk, c));
    SingleKeyCovered(table, fk, c, pkValues, setting, targets);
    KeptIffCovered(table, fk, pkValues, setting, targets);
  }

  // ----- Keys of two columns, as the inspector returns them -----------------------------------

  /** Every column with every referenced one. */
  predicate PairedKey(fk: ForeignKey, a: string, b: string, x: string, y: string) {
    a != b && fk.columns == [a, a, b, b] && fk.referencedCols == [x, y, x, y]
  }

  /** The row shows this text in both columns. */
  predicate ShowsTwice(rows: seq<Row>, x: string, y: string, text: string) {
    exists r: Row | r in rows :: x in r && y in r && r[x].shown == text && r[y].shown == text
  }

  lemma PairedKeyColumns(fk: ForeignKey, a: string, b: string, x: string, y: string)
    requires PairedKey(fk, a, b, x, y)
    ensures ColumnsOf(fk) == {a, b} && RefCol(fk, a) == RefCol(fk, b) == x
  {
    var cols := fk.columns;
    assert cols[0] == a && cols[2] == b;
    assert cols[1..] == [a, b, b] && cols[1..][1..] == [b, b];
    assert PositionOf(cols, b) == 1 + PositionOf([a, b, b], b) == 2 + PositionOf([b, b], b) == 2;
  }

  lemma PairedKeyWhole(fk: ForeignKey, a: string, b: string, x: string, y: string, key: map<string, string>,
                       targets: seq<Row>)
    requires PairedKey(fk, a, b, x, y) && key.Keys == {a, b} == ColumnsOf(fk)
    ensures Whole(fk, key, targets) <==> key[a] == key[b] && ShowsTwice(targets, x, y, key[a])
  {
    var cols, refs := fk.columns, fk.referencedCols;
    assert cols[0] == cols[1] == a && cols[2] == cols[3] == b;
    assert refs[0] == refs[2] == x && refs[1] == refs[3] == y;
    forall r: Row
      ensures Matches(fk, key, r) <==>
                x in r && y in r && r[x].shown == key[a] == key[b] == r[y].shown
    {}
  }

  /** A single text is recorded, and some stored row shows it in both columns. */
  ghost predicate OneTextTwice(recorded: seq<Row>, targets: seq<Row>, x: string, y: string) {
    forall t, u | Shows(recorded, x, t) && Shows(recorded, x, u) :: t == u && ShowsTwice(targets, x, y, t)
  }

  lemma PairedKeyDrawn(fk: ForeignKey, can: (string, string) -> bool, a: string, b: string, x: string, y: string,
                       recorded: seq<Row>, targets: seq<Row>)
    requires PairedKey(fk, a, b, x, y) && ColumnsOf(fk) == {a, b}
    requires forall t :: (can(a, t) <==> Shows(recorded, x, t)) && (can(b, t) <==> Shows(recorded, x, t))
    ensures AllDrawnWhole(fk, can, targets) <==> OneTextTwice(recorded, targets, x, y)
  {
    if AllDrawnWhole(fk, can, targets) {
      forall t, u | Shows(recorded, x, t) && Shows(recorded, x, u)
        ensures t == u && ShowsTwice(targets, x, y, t)
      {
        var key := map[a := t, b := u];
        assert Drawn(fk, key, can);
        PairedKeyWhole(fk, a, b, x, y, key, targets);
      }
    }
    if OneTextTwice(recorded, targets, x, y) {
      forall key | Drawn(fk, key, can)
        ensures Whole(fk, key, targets)
      {
        assert can(a, key[a]) && can(b, key[b]);
        PairedKeyWhole(fk, a, b, x, y, key, targets);
      }
    }
  }

  /** Both columns are drawn from the first referenced column, and each has to be in both: no rows sent can be refused
      exactly when a single text is recorded there and some stored row shows it in both columns. */
  lemma PairedKeyKeptIff(table: Table, fk: ForeignKey, a: string, b: string, x: string, y: string,
                         pkValues: map<string, seq<Row>>, setting: Setting, recorded: seq<Row>, targets: seq<Row>)
    requires PairedKey(fk, a, b, x, y) && KeyInUse(table, fk, recorded, setting.also)
    requires fk.referencedTable in pkValues && pkValues[fk.referencedTable] == recorded
    ensures AlwaysKept(table, fk, pkValues, setting, targets) <==> OneTextTwice(recorded, targets, x, y)
  {
    var can := Texts(table, pkValues, setting);
    PairedKeyColumns(fk, a, b, x, y);
    forall t
      ensures (can(a, t) <==> Shows(recorded, x, t)) && (can(b, t) <==> Shows(recorded, x, t))
    {
      ColumnTexts(table, fk, pkValues, setting, recorded, a, t);
      ColumnTexts(table, fk, pkValues, setting, recorded, b, t);
    }
    KeptIffCovered(table, fk, pkValues, setting, targets);
    PairedKeyDrawn(fk, can, a, b, x, y, recorded, targets);
  }

  // ----- The witness --------------------------------------------------------------------------

  const FK := ForeignKey(["a", "b"], "parent", ["x", "y"])
  const FIRST: Row := map["x" := Value(0, "1"), "y" := Value(0, "2")]
  const SECOND: Row := map["x" := Value(0, "3"), "y" := Value(0, "4")]
  const REPLIED: Row := map["a" := Value(0, "0"), "b" := Value(0, "0")]
  const MIXED: Row := map["a" := Value(0, "1"), "b" := Value(0, "4")]

  lemma RecordedBoth(col: string)
    requires col == "x" || col == "y"
    ensures Recorded([FIRST, SECOND], col) == [FIRST[col], SECOND[col]]
  {
    assert [FIRST, SECOND][..1] == [FIRST] && [FIRST][..0] == [];
    assert Recorded([FIRST], col) == Recorded([], col) + [FIRST[col]] == [FIRST[col]];
  }

  /** Repair turns a row of two unknown values into one whose key no recorded row has. */
  lemma CompositeKeysMix()
    ensures var fk := map["a" := Recorded([FIRST, SECOND], "x"), "b" := Recorded([FIRST, SECOND], "y")];
            Repaired(REPLIED, MIXED, fk) && !KeyKept(FK, MIXED, [FIRST, SECOND])
  {
    RecordedBoth("x");
    RecordedBoth("y");
    var vx, vy := Recorded([FIRST, SECOND], "x"), Recorded([FIRST, SECOND], "y");
    assert vx[0] == MIXED["a"] && vy[1] == MIXED["b"];
    assert HasKey(FK, MIXED);
    var key := KeyTexts(FK, MIXED);
    assert FK.columns[0] == "a" && FK.columns[1] == "b" && "a"[0] != "b"[0];
    assert key["a"] == "1" && key["b"] == "4";
    assert "1"[0] != "3"[0] && "4"[0] != "2"[0];
    assert !Matches(FK, key, FIRST) && !Matches(FK, key, SECOND);
  }
}
