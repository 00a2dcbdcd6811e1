/** The `generate_data` handler of cmd/gendb/serve.go: sort, select, and one run of `Generate` for every table. */
module GenerateData {
  import opened Schema
  import opened TopoSort
  import opened UniqueTracking
  import opened RowGeneration
  import opened Generation
  import opened References
  import Globs

  // ----- Which tables -------------------------------------------------------------------------

  predicate Wanted(name: string, included: string, excluded: string) {
    && (included == "" || Globs.MatchPattern(name, included))
    && (excluded == "" || !Globs.MatchPattern(name, excluded))
  }

  function Filter(included: string, excluded: string): Table -> bool {
    (t: Table) => Wanted(t.name, included, excluded)
  }

  /** For patterns with stars at their ends only: a table is selected exactly if its name matches what is to be
      included, if anything is said of that, and does not match what is to be excluded. */
  lemma SelectionIsDocumented(order: seq<Table>, included: string, excluded: string, t: Table)
    requires Globs.Simple(included) && Globs.Simple(excluded)
    ensures t in Select(order, Filter(included, excluded)) <==>
              && t in order
              && (included == "" || Globs.Glob(t.name, included))
              && (excluded == "" || !Globs.Glob(t.name, excluded))
  {
    SelectMembers(order, Filter(included, excluded), t);
    Globs.SimpleAgrees(t.name, included);
    Globs.SimpleAgrees(t.name, excluded);
  }

  method SelectTables(order: seq<Table>, included: string, excluded: string) returns (matched: seq<Table>)
    ensures matched == Select(order, Filter(included, excluded))
  {
    matched := [];
    for i := 0 to |order|
      invariant matched == Select(order[..i], Filter(included, excluded))
    {
      assert order[..i + 1][..i] == order[..i];
      var t := order[i];
      if included != "" && !Globs.MatchPattern(t.name, included) {
        continue;
      }
      if excluded != "" && Globs.MatchPattern(t.name, excluded) {
        continue;
      }
      matched := matched + [t];
    }
    assert order[..|order|] == order;
  }

  lemma SameMembers(a: seq<Table>, b: seq<Table>)
    requires multiset(a) == multiset(b)
    ensures (forall t :: t in a <==> t in b) && Names(a) == Names(b)
  {
    forall t
      ensures t in a <==> t in b
    {
      assert t in a <==> t in multiset(a);
      assert t in b <==> t in multiset(b);
    }
  }

  /** What is selected from a sorted list: the wanted tables, targets before the tables that refer to them. */
  lemma SortedSelection(tables: seq<Table>, order: seq<Table>, included: string, excluded: string)
    requires DistinctNames(tables) && DistinctNames(order) && Ordered(order, Names(tables))
    requires AllDifferent(tables) ==> multiset(order) == multiset(tables)
    ensures var chosen := Select(order, Filter(included, excluded));
            && DistinctNames(chosen) && Ordered(chosen, Names(chosen))
            && forall t :: t in chosen <==> t in tables && Wanted(t.name, included, excluded)
  {
    var keep := Filter(included, excluded);
    var chosen := Select(order, keep);
    SameMembers(order, tables);
    forall t
      ensures t in chosen <==> t in order && keep(t)
    {
      SelectMembers(order, keep, t);
    }
    SelectDistinct(order, keep);
    SelectOrdered(order, keep, Names(chosen));
  }

  // ----- The handler --------------------------------------------------------------------------

  datatype Outcome = CircularKeys | Generated(chosen: seq<Table>, inserted: seq<seq<Row>>)

  /** One run of `Generate` for each table, each with nothing recorded; the first failure ends the command. */
  ghost predicate EachRuns(chosen: seq<Table>, worlds: nat -> World, inserted: seq<seq<Row>>)
    requires forall t | t in chosen :: KeyColumnsPaired(t)
  {
    && |inserted| <= |chosen|
    && (forall i | 0 <= i < |inserted| :: Inserts(chosen[i], 0, map[], worlds(i), inserted[i]))
    && (|inserted| < |chosen| ==> Stops(chosen[|inserted|], 0, map[], worlds(|inserted|)))
  }

  /** A run over one table. */
  lemma RunOfOne(table: Table, world: World, rows: seq<seq<Row>>)
    requires KeyColumnsPaired(table) && RunOf([table], world, rows)
    ensures |rows| <= 1
    ensures if rows == [] then Stops(table, 0, map[], world) else Inserts(table, 0, map[], world, rows[0])
  {
    assert RecordedKeys([table], rows, 0) == map[];
    assert rows != [] ==> TableRuns([table], world, rows, 0);
  }

  method GenerateEach(chosen: seq<Table>, worlds: nat -> World) returns (inserted: seq<seq<Row>>)
    requires forall t | t in chosen :: KeyColumnsPaired(t)
    ensures EachRuns(chosen, worlds, inserted)
  {
    inserted := [];
    for i := 0 to |chosen|
      invariant |inserted| == i
      invariant forall j | 0 <= j < i :: Inserts(chosen[j], 0, map[], worlds(j), inserted[j])
    {
      var rows, ok := Generate([chosen[i]], worlds(i));
      RunOfOne(chosen[i], worlds(i), rows);
      if !ok {
        return;
      }
      inserted := inserted + rows;
    }
  }

  /** The handler, for a pattern or no pattern at all in `include`. */
  method GenerateMatching(tables: seq<Table>, included: string, excluded: string, worlds: nat -> World)
    returns (r: Outcome)
    requires forall t | t in tables :: KeyColumnsPaired(t)
    ensures DistinctNames(tables) ==> (r.CircularKeys? <==> HasCycle(tables))
    ensures r.Generated? ==>
              && (forall t | t in r.chosen :: t in tables && Wanted(t.name, included, excluded))
              && EachRuns(r.chosen, worlds, r.inserted)
    ensures DistinctNames(tables) && r.Generated? ==>
              && (forall t | t in tables && Wanted(t.name, included, excluded) :: t in r.chosen)
              && DistinctNames(r.chosen) && Ordered(r.chosen, Names(r.chosen))
  {
    var sorted := TopoSort.TopoSort(tables);
    if sorted.Circular? {
      return CircularKeys;
    }
    var chosen := SelectTables(sorted.tables, included, excluded);
    forall t | t in chosen
      ensures t in tables && Wanted(t.name, included, excluded)
    {
      SelectMembers(sorted.tables, Filter(included, excluded), t);
    }
    if DistinctNames(tables) {
      SortedSelection(tables, sorted.tables, included, excluded);
    }
    var inserted := GenerateEach(chosen, worlds);
    return Generated(chosen, inserted);
  }

  // ----- Where separate runs stop -------------------------------------------------------------

  const PARENT := Table("public", "parent", [Column("id", "int", false, "")], ["id"], [], [], [])
  const PARENT_ROW: Row := map["id" := Value(0, "1")]

  const NINE: string -> seq<Value> := _ => [Value(0, "9")]

  const PARENT_WORLD: World := OneRowWorld(PARENT_ROW, Setting(NOTHING, {}, AS_IS))

  function ChildWorld(rows: seq<Row>): World {
    World(_ => Batch(rows), _ => _ => Failed, _ => AS_IS, _ => NINE, _ => {},
          _ => sent => !RowsKeep(CHILD_KEY, sent, [PARENT_ROW]))
  }

  /** The model replies with a parent of key 1 and then with these children. The real parent table has key 9; the new
      tables enforce the child's foreign key. */
  function NineWorlds(rows: seq<Row>): nat -> World {
    i => if i == 0 then PARENT_WORLD else ChildWorld(rows)
  }

  lemma ParentRow(out: seq<Row>)
    requires KeyColumnsPaired(PARENT) && Sends(PARENT, 0, map[], PARENT_WORLD, out)
    ensures out == [PARENT_ROW]
  {
    NotFilled(PARENT.columns[0]);
    AsIsCoerces(PARENT.columns, PARENT_ROW);
    OnlyOneRow(PARENT, 0, map[], PARENT_WORLD, PARENT_ROW, out);
  }

  lemma NineRefused(row: Row)
    requires "parent_id" in row && row["parent_id"].shown == "9"
    ensures !KeyKept(CHILD_KEY, row, [PARENT_ROW])
  {
    ChildRefers();
    assert HasKey(CHILD_KEY, row);
    WholeIsShown(CHILD_KEY, "parent_id", KeyTexts(CHILD_KEY, row), [PARENT_ROW]);
  }

  lemma ChildIsNine(row: Row)
    requires KeyColumnsPaired(CHILD) && KeysResolved(CHILD, row, map[], NINE) && "parent_id" in row
    ensures row["parent_id"].shown == "9"
  {
    ChildRefers();
    assert Choices(CHILD, "parent_id", map[], NINE) == [Value(0, "9")];
  }

  /** The column comes through. */
  lemma ChildKept(rows: seq<Row>, out: seq<Row>, i: nat)
    requires KeyColumnsPaired(CHILD) && Sends(CHILD, 0, map[], ChildWorld(rows), out)
    requires i < |rows| && "parent_id" in rows[i]
    ensures i < |out| && "parent_id" in out[i]
  {
    ChildRefers();
    PlainRows(CHILD, 0, map[], ChildWorld(rows), out);
    AsIsCoerces(CHILD.columns, rows[i]);
    assert Coercion(CHILD, AS_IS)(rows[i]) == Option.Some(rows[i]);
  }

  lemma ChildrenRefused(rows: seq<Row>, out: seq<Row>, i: nat)
    requires KeyColumnsPaired(CHILD) && Sends(CHILD, 0, map[], ChildWorld(rows), out)
    requires i < |rows| && "parent_id" in rows[i]
    ensures Refused(CHILD, 0, ChildWorld(rows), out)
  {
    ChildRefers();
    ChildKept(rows, out, i);
    SentRowsSatisfy(CHILD, 0, map[], ChildWorld(rows), out);
    assert out[i] in out;
    ChildIsNine(out[i]);
    NineRefused(out[i]);
    SentColumnsExactly(CHILD.columns, out, "parent_id");
  }

  lemma ParentGoesThrough()
    requires KeyColumnsPaired(PARENT)
    ensures !Stops(PARENT, 0, map[], PARENT_WORLD)
  {
    AsIsCoerces(PARENT.columns, PARENT_ROW);
    assert Coercion(PARENT, AS_IS)(PARENT_ROW) == Option.Some(PARENT_ROW);
  }

  /** However that command goes, whatever children the model replies with, it stops at them. */
  lemma SeparateRunsStop(rows: seq<Row>, inserted: seq<seq<Row>>)
    requires KeyColumnsPaired(PARENT) && KeyColumnsPaired(CHILD)
    requires exists r: Row | r in rows :: "parent_id" in r
    requires EachRuns([PARENT, CHILD], NineWorlds(rows), inserted)
    ensures inserted == [[PARENT_ROW]]
  {
    var chosen, worlds := [PARENT, CHILD], NineWorlds(rows);
    assert worlds(0) == PARENT_WORLD && worlds(1) == ChildWorld(rows);
    ParentGoesThrough();
    assert |inserted| >= 1;
    assert Inserts(chosen[0], 0, map[], worlds(0), inserted[0]);
    ParentRow(inserted[0]);
    var r: Row :| r in rows && "parent_id" in r;
    var i :| 0 <= i < |rows| && rows[i] == r;
    if |inserted| == 2 {
      assert Inserts(chosen[1], 0, map[], worlds(1), inserted[1]);
      ChildrenRefused(rows, inserted[1], i);
    }
  }
}
