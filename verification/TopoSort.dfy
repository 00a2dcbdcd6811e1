/** `topoSort` of pkg/schema/toposort.go: Kahn's algorithm over the foreign keys of a list of tables. */
module TopoSort {
  import opened Schema

  // ----- What the order is about --------------------------------------------------------------

  /** The foreign key counts: it is no self-reference and its target is in the list. */
  predicate Counts(t: Table, fk: ForeignKey, names: set<string>) {
    fk.referencedTable != t.name && fk.referencedTable in names
  }

  /** Table `from` must come before table `to`. */
  predicate Edge(tables: seq<Table>, from: string, to: string) {
    exists t, fk | t in tables && fk in t.foreignKeys ::
      t.name == to && fk.referencedTable == from && Counts(t, fk, Names(tables))
  }

  predicate Walk(tables: seq<Table>, p: seq<string>) {
    forall i | 0 <= i < |p| - 1 :: Edge(tables, p[i], p[i + 1])
  }

  predicate Cycle(tables: seq<Table>, p: seq<string>) {
    |p| >= 2 && p[0] == p[|p| - 1] && Walk(tables, p)
  }

  ghost predicate HasCycle(tables: seq<Table>) {
    exists p :: Cycle(tables, p)
  }

  /** Every target that counts stands strictly before the table that references it. */
  predicate Ordered(order: seq<Table>, names: set<string>) {
    forall j, fk | 0 <= j < |order| && fk in order[j].foreignKeys && Counts(order[j], fk, names) ::
      fk.referencedTable in Names(order[..j])
  }

  datatype Result = Sorted(tables: seq<Table>) | Circular

  // ----- The edges as lists of names ----------------------------------------------------------

  /** The targets that count among the first `k` foreign keys, duplicates included. */
  function Refs(t: Table, k: nat, names: set<string>): seq<string>
    requires k <= |t.foreignKeys|
  {
    if k == 0 then []
    else
      var fk := t.foreignKeys[k - 1];
      Refs(t, k - 1, names) + if Counts(t, fk, names) then [fk.referencedTable] else []
  }

  function AllRefs(t: Table, names: set<string>): seq<string> {
    Refs(t, |t.foreignKeys|, names)
  }

  lemma {:induction false} RefsMembers(t: Table, k: nat, names: set<string>, m: string)
    requires k <= |t.foreignKeys|
    ensures m in Refs(t, k, names) <==>
            exists i | 0 <= i < k :: t.foreignKeys[i].referencedTable == m && Counts(t, t.foreignKeys[i], names)
  {
    if k > 0 {
      RefsMembers(t, k - 1, names, m);
    }
  }

  function Count(s: seq<string>, n: string): nat {
    multiset(s)[n]
  }

  lemma CountAppend(s: seq<string>, x: string, n: string)
    ensures Count(s + [x], n) == Count(s, n) + if x == n then 1 else 0
  {}

  function Dependents(dependents: map<string, seq<string>>, m: string): seq<string> {
    if m in dependents then dependents[m] else []
  }

  /** How many of the names are not done yet. */
  function Unmet(refs: seq<string>, done: set<string>): nat {
    if refs == [] then 0 else (if refs[0] in done then 0 else 1) + Unmet(refs[1..], done)
  }

  lemma {:induction false} UnmetNone(refs: seq<string>)
    ensures Unmet(refs, {}) == |refs|
  {
    if refs != [] {
      UnmetNone(refs[1..]);
    }
  }

  lemma {:induction false} UnmetZero(refs: seq<string>, done: set<string>)
    ensures Unmet(refs, done) == 0 <==> forall m | m in refs :: m in done
  {
    if refs != [] {
      UnmetZero(refs[1..], done);
    }
  }

  lemma {:induction false} UnmetAdd(refs: seq<string>, done: set<string>, m: string)
    requires m !in done
    ensures Unmet(refs, done) == Unmet(refs, done + {m}) + Count(refs, m)
  {
    if refs != [] {
      UnmetAdd(refs[1..], done, m);
      assert refs == [refs[0]] + refs[1..];
    }
  }

  // ----- First phase: in-degrees and dependents -----------------------------------------------

  /** How many foreign keys of `tables[i]` are entered once the loops stand at table `a`, key `b`. */
  function Entered(tables: seq<Table>, i: nat, a: nat, b: nat): (k: nat)
    requires i < |tables| && (a < |tables| ==> b <= |tables[a].foreignKeys|)
    ensures k <= |tables[i].foreignKeys|
  {
    if i < a then |tables[i].foreignKeys| else if i == a then b else 0
  }

  predicate LoopAt(tables: seq<Table>, a: nat, b: nat) {
    a <= |tables| && (a < |tables| ==> b <= |tables[a].foreignKeys|)
  }

  predicate DegreesBuilt(tables: seq<Table>, names: set<string>, inDegree: map<string, int>, a: nat, b: nat)
    requires LoopAt(tables, a, b)
  {
    forall i | 0 <= i < |tables| && tables[i].name in inDegree ::
      inDegree[tables[i].name] == |Refs(tables[i], Entered(tables, i, a, b), names)|
  }

  ghost predicate DependentsBuilt(tables: seq<Table>, names: set<string>, dependents: map<string, seq<string>>,
                                  a: nat, b: nat)
    requires LoopAt(tables, a, b)
  {
    forall i, m | 0 <= i < |tables| ::
      Count(Dependents(dependents, m), tables[i].name) == Count(Refs(tables[i], Entered(tables, i, a, b), names), m)
  }

  /** Every dependent has an in-degree; true with clashing names too. */
  predicate DependentsKnown(inDegree: map<string, int>, dependents: map<string, seq<string>>) {
    forall m, d | m in dependents && d in dependents[m] :: d in inDegree
  }

  lemma RefsStep(t: Table, b: nat, names: set<string>)
    requires b < |t.foreignKeys|
    ensures var fk := t.foreignKeys[b];
            Refs(t, b + 1, names) == Refs(t, b, names) + if Counts(t, fk, names) then [fk.referencedTable] else []
  {}

  /** One foreign key entered into the in-degrees. */
  lemma EnterDegree(tables: seq<Table>, names: set<string>, inDegree: map<string, int>, a: nat, b: nat)
    requires DistinctNames(tables) && a < |tables| && b < |tables[a].foreignKeys|
    requires tables[a].name in inDegree && DegreesBuilt(tables, names, inDegree, a, b)
    ensures var t := tables[a];
            var counts := Counts(t, t.foreignKeys[b], names);
            DegreesBuilt(tables, names, if counts then inDegree[t.name := inDegree[t.name] + 1] else inDegree, a, b + 1)
  {
    RefsStep(tables[a], b, names);
  }

  /** One foreign key entered into the dependents. */
  lemma EnterDependent(tables: seq<Table>, names: set<string>, dependents: map<string, seq<string>>, a: nat, b: nat)
    requires DistinctNames(tables) && a < |tables| && b < |tables[a].foreignKeys|
    requires DependentsBuilt(tables, names, dependents, a, b)
    ensures var t := tables[a];
            var r := t.foreignKeys[b].referencedTable;
            var counts := Counts(t, t.foreignKeys[b], names);
            DependentsBuilt(tables, names,
              if counts then dependents[r := Dependents(dependents, r) + [t.name]] else dependents, a, b + 1)
  {
    var t := tables[a];
    var r := t.foreignKeys[b].referencedTable;
    var counts := Counts(t, t.foreignKeys[b], names);
    RefsStep(t, b, names);
    var dependents' := if counts then dependents[r := Dependents(dependents, r) + [t.name]] else dependents;
    forall i, m | 0 <= i < |tables|
      ensures Count(Dependents(dependents', m), tables[i].name)
           == Count(Refs(tables[i], Entered(tables, i, a, b + 1), names), m)
    {
      var before := Refs(tables[i], Entered(tables, i, a, b), names);
      assert Count(Dependents(dependents, m), tables[i].name) == Count(before, m);
      if counts {
        if i == a {
          CountAppend(before, r, m);
        }
        if m == r {
          CountAppend(Dependents(dependents, r), t.name, tables[i].name);
        }
      }
    }
  }

  // ----- Second phase -------------------------------------------------------------------------

  /** `part` is what the inner loop has already taken off since `done` was last complete. */
  predicate Degrees(tables: seq<Table>, names: set<string>, inDegree: map<string, int>, done: set<string>,
                    part: seq<string>) {
    forall t | t in tables ::
      t.name in inDegree && inDegree[t.name] == Unmet(AllRefs(t, names), done) - Count(part, t.name)
  }

  predicate NoDuplicates(s: seq<string>) {
    forall i, j | 0 <= i < j < |s| :: s[i] != s[j]
  }

  /** The queue holds exactly the names whose in-degree is zero and that are not done. */
  predicate Frontier(tables: seq<Table>, inDegree: map<string, int>, queue: seq<string>, done: set<string>) {
    && NoDuplicates(queue)
    && (forall n | n in queue :: n !in done && n in Names(tables))
    && (forall t | t in tables && t.name in inDegree ::
          (t.name in done || t.name in queue) <==> inDegree[t.name] == 0)
  }

  ghost predicate Linked(tables: seq<Table>, names: set<string>, dependents: map<string, seq<string>>) {
    forall t, m | t in tables :: Count(Dependents(dependents, m), t.name) == Count(AllRefs(t, names), m)
  }

  lemma CountPrefix(s: seq<string>, i: nat, n: string)
    requires i < |s|
    ensures Count(s[..i + 1], n) == Count(s[..i], n) + if s[i] == n then 1 else 0
    ensures Count(s[..i + 1], n) <= Count(s, n)
  {
    assert s[..i + 1] == s[..i] + [s[i]];
    assert s == s[..i + 1] + s[i + 1..];
  }

  /** One iteration of the inner loop: `name` is being dequeued, `done` does not hold it yet. */
  lemma TakeOff(tables: seq<Table>, names: set<string>, inDegree: map<string, int>, dependents: map<string,
                seq<string>>,
                queue: seq<string>, done: set<string>, name: string, i: nat)
    requires names == Names(tables) && name !in done && i < |Dependents(dependents, name)|
    requires Linked(tables, names, dependents)
    requires var deps := Dependents(dependents, name);
             deps[i] in names && Degrees(tables, names, inDegree, done, deps[..i])
    requires Frontier(tables, inDegree, queue, done + {name})
    ensures var deps := Dependents(dependents, name);
            var dep := deps[i];
            dep in inDegree && inDegree[dep] > 0 &&
            var inDegree' := inDegree[dep := inDegree[dep] - 1];
            var queue' := if inDegree'[dep] == 0 then queue + [dep] else queue;
            Degrees(tables, names, inDegree', done, deps[..i + 1]) && Frontier(tables, inDegree', queue', done + {name})
  {
    var deps := Dependents(dependents, name);
    var dep := deps[i];
    var d :| d in tables && d.name == dep;
    forall t | t in tables
      ensures Count(deps[..i + 1], t.name) == Count(deps[..i], t.name) + if dep == t.name then 1 else 0
      ensures Count(deps[..i + 1], t.name) <= Unmet(AllRefs(t, names), done)
    {
      CountPrefix(deps, i, t.name);
      UnmetAdd(AllRefs(t, names), done, name);
    }
    assert inDegree[dep] > 0;
    assert dep !in queue && dep !in done + {name};
  }

  lemma FinishName(tables: seq<Table>, names: set<string>, inDegree: map<string, int>, dependents: map<string,
                   seq<string>>,
                   done: set<string>, name: string)
    requires name !in done && Linked(tables, names, dependents)
    requires Degrees(tables, names, inDegree, done, Dependents(dependents, name))
    ensures Degrees(tables, names, inDegree, done + {name}, [])
  {
    forall t | t in tables
      ensures inDegree[t.name] == Unmet(AllRefs(t, names), done + {name})
    {
      UnmetAdd(AllRefs(t, names), done, name);
    }
  }

  // ----- Termination: each dequeue is paid for by the queue or by an in-degree reaching zero --

  function Positive(inDegree: map<string, int>): set<string> {
    set n | n in inDegree && inDegree[n] > 0
  }

  lemma PayForDecrement(inDegree: map<string, int>, dep: string)
    requires dep in inDegree
    ensures var v := inDegree[dep] - 1;
            |Positive(inDegree[dep := v])| + (if v == 0 then 1 else 0) <= |Positive(inDegree)|
  {
    var before, after := Positive(inDegree), Positive(inDegree[dep := inDegree[dep] - 1]);
    if inDegree[dep] == 1 {
      assert after == before - {dep};
    } else {
      assert after <= before;
      Smaller(after, before);
    }
  }

  lemma {:induction false} Smaller<T>(a: set<T>, b: set<T>)
    requires a <= b
    ensures |a| <= |b|
    ensures a != b ==> |a| < |b|
  {
    if a != {} {
      var x :| x in a;
      Smaller(a - {x}, b - {x});
    }
  }

  // ----- Cycles -------------------------------------------------------------------------------

  lemma EdgeOfRef(tables: seq<Table>, t: Table, m: string)
    requires t in tables && m in AllRefs(t, Names(tables))
    ensures Edge(tables, m, t.name) && m in Names(tables)
  {
    RefsMembers(t, |t.foreignKeys|, Names(tables), m);
  }

  /** Following a predecessor map backwards inside its own domain, for any number of steps. */
  lemma {:induction false} BackwardWalk(pred: map<string, string>, k: nat) returns (p: seq<string>)
    requires pred != map[] && pred.Values <= pred.Keys
    ensures |p| == k + 1 && (forall i | 0 <= i < |p| :: p[i] in pred)
    ensures forall i | 0 <= i < k :: p[i] == pred[p[i + 1]]
  {
    if k == 0 {
      var n :| n in pred;
      p := [n];
    } else {
      var q := BackwardWalk(pred, k - 1);
      p := [pred[q[0]]] + q;
    }
  }

  lemma {:induction false} Pigeonhole(p: seq<string>, holes: set<string>) returns (i: nat, j: nat)
    requires |p| > |holes| && forall k | 0 <= k < |p| :: p[k] in holes
    ensures i < j < |p| && p[i] == p[j]
    decreases |p|
  {
    if k :| 1 <= k < |p| && p[k] == p[0] {
      i, j := 0, k;
    } else {
      var i', j' := Pigeonhole(p[1..], holes - {p[0]});
      i, j := i' + 1, j' + 1;
    }
  }

  lemma CycleAmong(tables: seq<Table>, pred: map<string, string>)
    requires pred != map[] && pred.Values <= pred.Keys
    requires forall n {:trigger Edge(tables, pred[n], n)} | n in pred :: Edge(tables, pred[n], n)
    ensures HasCycle(tables)
  {
    var p := BackwardWalk(pred, |pred.Keys|);
    var i, j := Pigeonhole(p, pred.Keys);
    var c := p[i..j + 1];
    forall k | 0 <= k < |c| - 1
      ensures Edge(tables, c[k], c[k + 1])
    {
      var n := c[k + 1];
      assert n == p[i + k + 1] && c[k] == p[i + k] == pred[n];
      assert Edge(tables, pred[n], n);
    }
    assert Cycle(tables, c);
  }

  /** In an ordered list an edge goes from an earlier to a later position. */
  lemma {:induction false} WalkForward(tables: seq<Table>, order: seq<Table>, p: seq<string>, i: nat)
    requires DistinctNames(order) && multiset(order) == multiset(tables) && Ordered(order, Names(tables))
    requires Walk(tables, p) && 0 < i < |p|
    ensures exists a, b | 0 <= a < b < |order| :: order[a].name == p[0] && order[b].name == p[i]
  {
    assert Edge(tables, p[i - 1], p[i]);
    var t, fk :| t in tables && fk in t.foreignKeys && t.name == p[i] && fk.referencedTable == p[i - 1]
                 && Counts(t, fk, Names(tables));
    assert t in multiset(order);
    var b :| 0 <= b < |order| && order[b] == t;
    var u :| u in order[..b] && u.name == p[i - 1];
    var c :| 0 <= c < b && order[c] == u;
    if i > 1 {
      WalkForward(tables, order, p, i - 1);
      var a, b' :| 0 <= a < b' < |order| && order[a].name == p[0] && order[b'].name == p[i - 1];
      assert b' == c;
    }
  }

  lemma OrderedHasNoCycle(tables: seq<Table>, order: seq<Table>)
    requires DistinctNames(order) && multiset(order) == multiset(tables) && Ordered(order, Names(tables))
    ensures !HasCycle(tables)
  {
    if p :| Cycle(tables, p) {
      WalkForward(tables, order, p, |p| - 1);
    }
  }

  // ----- Permutations -------------------------------------------------------------------------

  lemma MultisetHead(a: seq<Table>)
    requires a != []
    ensures multiset(a) == multiset{a[0]} + multiset(a[1..])
  {
    assert a == [a[0]] + a[1..];
  }

  lemma MultisetCut(b: seq<Table>, k: nat)
    requires k < |b|
    ensures multiset(b) == multiset{b[k]} + multiset(b[..k] + b[k + 1..])
  {
    var left, right := b[..k], b[k + 1..];
    assert b == left + ([b[k]] + right);
    assert multiset(b) == multiset(left) + multiset([b[k]] + right);
    assert multiset([b[k]] + right) == multiset{b[k]} + multiset(right);
    assert multiset(left + right) == multiset(left) + multiset(right);
  }

  lemma DistinctCut(b: seq<Table>, k: nat)
    requires DistinctNames(b) && k < |b|
    ensures DistinctNames(b[..k] + b[k + 1..])
  {
    var c := b[..k] + b[k + 1..];
    forall i, j | 0 <= i < j < |c|
      ensures c[i].name != c[j].name
    {
      var i', j' := if i < k then i else i + 1, if j < k then j else j + 1;
      assert c[i] == b[i'] && c[j] == b[j'];
    }
  }

  lemma {:induction false} SameElements(a: seq<Table>, b: seq<Table>)
    requires DistinctNames(a) && DistinctNames(b) && |a| == |b|
    requires forall t | t in a :: t in b
    ensures multiset(a) == multiset(b)
    decreases |a|
  {
    if a != [] {
      assert a[0] in a;
      var k :| 0 <= k < |b| && b[k] == a[0];
      RemoveOne(a, b, k);
      DistinctCut(b, k);
      SameElements(a[1..], b[..k] + b[k + 1..]);
      MultisetHead(a);
      MultisetCut(b, k);
    }
  }

  lemma RemoveOne(a: seq<Table>, b: seq<Table>, k: nat)
    requires a != [] && DistinctNames(a) && k < |b| && b[k] == a[0]
    requires forall t | t in a :: t in b
    ensures forall t | t in a[1..] :: t in b[..k] + b[k + 1..]
  {
    forall t | t in a[1..]
      ensures t in b[..k] + b[k + 1..]
    {
      var i :| 0 <= i < |a| - 1 && a[1..][i] == t;
      assert a[i + 1] == t && t in a;
      assert t in b && t != b[k];
      assert b == b[..k] + [b[k]] + b[k + 1..];
    }
  }

  // ----- The sort -----------------------------------------------------------------------------

  predicate ByName(tables: seq<Table>, byName: map<string, Table>) {
    && byName.Keys == Names(tables)
    && forall n | n in byName :: byName[n] in tables && byName[n].name == n
  }

  /** What the main loop keeps about the tables already emitted. */
  predicate Emitted(tables: seq<Table>, sorted: seq<Table>, done: set<string>) {
    && |sorted| == |done| && Names(sorted) == done && done <= Names(tables)
    && (forall t | t in sorted :: t in tables)
    && DistinctNames(sorted) && Ordered(sorted, Names(tables))
  }

  /** Emitting a table none of whose targets is outstanding. */
  lemma EmitNext(tables: seq<Table>, sorted: seq<Table>, done: set<string>, t: Table)
    requires Emitted(tables, sorted, done) && t in tables && t.name !in done
    requires Unmet(AllRefs(t, Names(tables)), done) == 0
    ensures Emitted(tables, sorted + [t], done + {t.name})
  {
    var names := Names(tables);
    var sorted' := sorted + [t];
    UnmetZero(AllRefs(t, names), done);
    forall fk | fk in t.foreignKeys && Counts(t, fk, names)
      ensures fk.referencedTable in Names(sorted)
    {
      var i :| 0 <= i < |t.foreignKeys| && t.foreignKeys[i] == fk;
      RefsMembers(t, |t.foreignKeys|, names, fk.referencedTable);
    }
    forall j, fk | 0 <= j < |sorted'| && fk in sorted'[j].foreignKeys && Counts(sorted'[j], fk, names)
      ensures fk.referencedTable in Names(sorted'[..j])
    {
      assert sorted'[..j] == sorted[..j];
      assert j == |sorted| ==> sorted[..j] == sorted;
    }
    assert Names(sorted') == done + {t.name};
  }

  ghost function Predecessor(tables: seq<Table>, left: set<string>, n: string): string {
    if exists m | m in left :: Edge(tables, m, n) then
      var m :| m in left && Edge(tables, m, n);
      m
    else n
  }

  predicate Precedes(tables: seq<Table>, left: set<string>, m: string, n: string) {
    m in left && Edge(tables, m, n)
  }

  lemma LeftHasPredecessor(tables: seq<Table>, inDegree: map<string, int>, done: set<string>, n: string)
    requires Degrees(tables, Names(tables), inDegree, done, []) && Frontier(tables, inDegree, [], done)
    requires n in Names(tables) - done
    ensures var left := Names(tables) - done; Precedes(tables, left, Predecessor(tables, left, n), n)
  {
    var names := Names(tables);
    var t :| t in tables && t.name == n;
    UnmetZero(AllRefs(t, names), done);
    var m :| m in AllRefs(t, names) && m !in done;
    EdgeOfRef(tables, t, m);
  }

  lemma PredecessorsMakeCycle(tables: seq<Table>, left: set<string>, pred: map<string, string>)
    requires left != {} && pred.Keys == left
    requires forall n {:trigger Precedes(tables, left, pred[n], n)} | n in pred :: Precedes(tables, left, pred[n], n)
    ensures HasCycle(tables)
  {
    forall n {:trigger Edge(tables, pred[n], n)} | n in pred
      ensures Edge(tables, pred[n], n)
    {
      assert Precedes(tables, left, pred[n], n);
    }
    forall m | m in pred.Values
      ensures m in pred.Keys
    {
      var n :| n in pred && pred[n] == m;
      assert Precedes(tables, left, pred[n], n);
    }
    CycleAmong(tables, pred);
  }

  /** The loop ended early: every name left has a predecessor left, so there is a cycle. */
  lemma StuckMeansCycle(tables: seq<Table>, inDegree: map<string, int>, done: set<string>)
    requires Degrees(tables, Names(tables), inDegree, done, []) && Frontier(tables, inDegree, [], done)
    requires done < Names(tables)
    ensures HasCycle(tables)
  {
    var left := Names(tables) - done;
    var pred := map n | n in left :: Predecessor(tables, left, n);
    forall n {:trigger Precedes(tables, left, pred[n], n)} | n in pred
      ensures Precedes(tables, left, pred[n], n)
    {
      LeftHasPredecessor(tables, inDegree, done, n);
    }
    assert Names(tables) == done + left;
    PredecessorsMakeCycle(tables, left, pred);
  }

  // ----- Cycles without edges: ranks ----------------------------------------------------------

  /** Every foreign key to a table of the list, other than one of a table to itself, leads to a lower rank. */
  ghost predicate RanksUp(tables: seq<Table>, rank: string -> int) {
    forall t, fk | t in tables && fk in t.foreignKeys && fk.referencedTable in Names(tables) ::
      fk.referencedTable == t.name || rank(fk.referencedTable) < rank(t.name)
  }

  ghost predicate Rankable(tables: seq<Table>) {
    exists rank: string -> int :: RanksUp(tables, rank)
  }

  lemma {:induction false} RankClimbs(tables: seq<Table>, rank: string -> int, p: seq<string>, i: nat)
    requires RanksUp(tables, rank) && Walk(tables, p) && 0 < i < |p|
    ensures rank(p[0]) < rank(p[i])
  {
    assert Edge(tables, p[i - 1], p[i]);
    var t, fk :| t in tables && fk in t.foreignKeys && t.name == p[i] && fk.referencedTable == p[i - 1]
                 && Counts(t, fk, Names(tables));
    if i > 1 {
      RankClimbs(tables, rank, p, i - 1);
    }
  }

  lemma RankedHasNoCycle(tables: seq<Table>, rank: string -> int)
    requires RanksUp(tables, rank)
    ensures !HasCycle(tables)
  {
    if p :| Cycle(tables, p) {
      RankClimbs(tables, rank, p, |p| - 1);
    }
  }

  /** Ranks below `k` for some names, each above what its tables refer to. */
  predicate RankedSoFar(tables: seq<Table>, done: map<string, int>, k: int) {
    && done.Keys <= Names(tables) && (forall n | n in done :: done[n] < k)
    && forall t, fk | t in tables && t.name in done && fk in t.foreignKeys && Counts(t, fk, Names(tables)) ::
         fk.referencedTable in done && done[fk.referencedTable] < done[t.name]
  }

  /** The name is next: its tables refer to ranked names only. */
  predicate RankNext(tables: seq<Table>, done: map<string, int>, n: string) {
    forall t, fk | t in tables && t.name == n && fk in t.foreignKeys && Counts(t, fk, Names(tables)) ::
      fk.referencedTable in done
  }

  lemma NotNextHasPredecessor(tables: seq<Table>, done: map<string, int>, left: set<string>, n: string)
    requires left == Names(tables) - done.Keys && !RankNext(tables, done, n)
    ensures Precedes(tables, left, Predecessor(tables, left, n), n)
  {
    var t, fk :| t in tables && t.name == n && fk in t.foreignKeys && Counts(t, fk, Names(tables))
                 && fk.referencedTable !in done;
    assert Edge(tables, fk.referencedTable, n) && fk.referencedTable in left;
  }

  lemma NoneNextMakesCycle(tables: seq<Table>, done: map<string, int>)
    requires done.Keys < Names(tables)
    requires forall n {:trigger RankNext(tables, done, n)} | n in Names(tables) - done.Keys ::
               !RankNext(tables, done, n)
    ensures HasCycle(tables)
  {
    var left := Names(tables) - done.Keys;
    var pred := map n | n in left :: Predecessor(tables, left, n);
    forall n {:trigger Precedes(tables, left, pred[n], n)} | n in pred
      ensures Precedes(tables, left, pred[n], n)
    {
      assert !RankNext(tables, done, n);
      NotNextHasPredecessor(tables, done, left, n);
    }
    assert Names(tables) == done.Keys + left;
    PredecessorsMakeCycle(tables, left, pred);
  }

  lemma SomeRankNext(tables: seq<Table>, done: map<string, int>) returns (n: string)
    requires !HasCycle(tables) && done.Keys < Names(tables)
    ensures n in Names(tables) - done.Keys && RankNext(tables, done, n)
  {
    if forall n' {:trigger RankNext(tables, done, n')} | n' in Names(tables) - done.Keys ::
         !RankNext(tables, done, n') {
      NoneNextMakesCycle(tables, done);
    }
    n :| n in Names(tables) - done.Keys && RankNext(tables, done, n);
  }

  lemma {:induction false} AcyclicIsRanked(tables: seq<Table>, done: map<string, int>, k: int)
    returns (all: map<string, int>)
    requires !HasCycle(tables) && RankedSoFar(tables, done, k)
    ensures all.Keys == Names(tables) && exists m :: RankedSoFar(tables, all, m)
    decreases Names(tables) - done.Keys
  {
    if done.Keys == Names(tables) {
      all := done;
    } else {
      var n := SomeRankNext(tables, done);
      var next := done[n := k];
      assert Names(tables) - next.Keys < Names(tables) - done.Keys;
      all := AcyclicIsRanked(tables, next, k + 1);
    }
  }

  /** A cycle is there exactly when the names cannot be ranked. */
  lemma CycleIffUnrankable(tables: seq<Table>)
    ensures HasCycle(tables) <==> !Rankable(tables)
  {
    if !HasCycle(tables) {
      var all := AcyclicIsRanked(tables, map[], 0);
      var m :| RankedSoFar(tables, all, m);
      var rank := (n: string) => if n in all then all[n] else 0;
      assert RanksUp(tables, rank);
    }
    if rank :| RanksUp(tables, rank) {
      RankedHasNoCycle(tables, rank);
    }
  }

  /** Without the references of a table to itself and to tables that are not in the list. */
  function StripKeys(fks: seq<ForeignKey>, own: string, names: set<string>): seq<ForeignKey> {
    if fks == [] then []
    else if fks[0].referencedTable == own || fks[0].referencedTable !in names then StripKeys(fks[1..], own, names)
    else [fks[0]] + StripKeys(fks[1..], own, names)
  }

  function Stripped(tables: seq<Table>): seq<Table> {
    seq(|tables|, i requires 0 <= i < |tables| =>
      tables[i].(foreignKeys := StripKeys(tables[i].foreignKeys, tables[i].name, Names(tables))))
  }

  lemma {:induction false} StripKeysMembers(fks: seq<ForeignKey>, own: string, names: set<string>, fk: ForeignKey)
    ensures fk in StripKeys(fks, own, names) <==>
              fk in fks && fk.referencedTable != own && fk.referencedTable in names
  {
    if fks != [] {
      StripKeysMembers(fks[1..], own, names, fk);
      assert fks == [fks[0]] + fks[1..];
    }
  }

  lemma StrippedNames(tables: seq<Table>)
    ensures Names(Stripped(tables)) == Names(tables)
  {
    forall n
      ensures n in Names(Stripped(tables)) <==> n in Names(tables)
    {
      if t :| t in tables && t.name == n {
        var i :| 0 <= i < |tables| && tables[i] == t;
        assert Stripped(tables)[i] in Stripped(tables);
      }
    }
  }

  lemma StrippedRanks(tables: seq<Table>, rank: string -> int)
    ensures RanksUp(Stripped(tables), rank) <==> RanksUp(tables, rank)
  {
    StrippedNames(tables);
    var names := Names(tables);
    if RanksUp(Stripped(tables), rank) {
      forall t, fk | t in tables && fk in t.foreignKeys && fk.referencedTable in names
        ensures fk.referencedTable == t.name || rank(fk.referencedTable) < rank(t.name)
      {
        var i :| 0 <= i < |tables| && tables[i] == t;
        assert Stripped(tables)[i] in Stripped(tables);
        StripKeysMembers(t.foreignKeys, t.name, names, fk);
      }
    }
    if RanksUp(tables, rank) {
      forall u, fk | u in Stripped(tables) && fk in u.foreignKeys && fk.referencedTable in names
        ensures fk.referencedTable == u.name || rank(fk.referencedTable) < rank(u.name)
      {
        var i :| 0 <= i < |tables| && Stripped(tables)[i] == u;
        assert tables[i] in tables;
        StripKeysMembers(tables[i].foreignKeys, tables[i].name, names, fk);
      }
    }
  }

  /** References of a table to itself and to tables that are not in the list never make a cycle or break one. */
  lemma StrippedVerdict(tables: seq<Table>)
    ensures HasCycle(Stripped(tables)) <==> HasCycle(tables)
  {
    CycleIffUnrankable(tables);
    CycleIffUnrankable(Stripped(tables));
    forall rank: string -> int
      ensures RanksUp(Stripped(tables), rank) <==> RanksUp(tables, rank)
    {
      StrippedRanks(tables, rank);
    }
  }

  /** One table, whatever it refers to, itself included, is no cycle. */
  lemma AloneIsNoCycle(t: Table)
    ensures !HasCycle([t])
  {
    var rank := (n: string) => 0;
    assert RanksUp([t], rank);
    RankedHasNoCycle([t], rank);
  }

  lemma {:induction false} NamesCount(tables: seq<Table>)
    requires DistinctNames(tables)
    ensures |Names(tables)| == |tables|
  {
    if tables != [] {
      NamesCount(tables[1..]);
      assert Names(tables) == {tables[0].name} + Names(tables[1..]);
    }
  }

  lemma NamesStep(tables: seq<Table>, a: nat)
    requires a < |tables|
    ensures Names(tables[..a + 1]) == Names(tables[..a]) + {tables[a].name}
  {
    assert tables[..a + 1] == tables[..a] + [tables[a]];
  }

  lemma EnteredNext(tables: seq<Table>, a: nat, i: nat)
    requires a < |tables| && i < |tables|
    ensures Entered(tables, i, a + 1, 0) == Entered(tables, i, a, |tables[a].foreignKeys|)
  {}

  lemma NextDegrees(tables: seq<Table>, names: set<string>, inDegree: map<string, int>, a: nat)
    requires a < |tables| && DegreesBuilt(tables, names, inDegree, a, |tables[a].foreignKeys|)
    ensures DegreesBuilt(tables, names, inDegree, a + 1, 0)
  {
    forall i | 0 <= i < |tables| && tables[i].name in inDegree
      ensures inDegree[tables[i].name] == |Refs(tables[i], Entered(tables, i, a + 1, 0), names)|
    {
      EnteredNext(tables, a, i);
    }
  }

  lemma NextTable(tables: seq<Table>, names: set<string>, inDegree: map<string, int>,
                  dependents: map<string, seq<string>>, a: nat)
    requires DistinctNames(tables) && a < |tables| && inDegree.Keys == Names(tables[..a + 1])
    requires DegreesBuilt(tables, names, inDegree, a, |tables[a].foreignKeys|)
    requires DependentsBuilt(tables, names, dependents, a, |tables[a].foreignKeys|)
    ensures DegreesBuilt(tables, names, inDegree, a + 1, 0) && DependentsBuilt(tables, names, dependents, a + 1, 0)
  {
    NextDegrees(tables, names, inDegree, a);
    forall i, m | 0 <= i < |tables|
      ensures Count(Dependents(dependents, m), tables[i].name) ==
              Count(Refs(tables[i], Entered(tables, i, a + 1, 0), names), m)
    {
      EnteredNext(tables, a, i);
    }
  }

  lemma GraphBuilt(tables: seq<Table>, inDegree: map<string, int>, dependents: map<string, seq<string>>)
    requires inDegree.Keys == Names(tables)
    requires DegreesBuilt(tables, Names(tables), inDegree, |tables|, 0)
    requires DependentsBuilt(tables, Names(tables), dependents, |tables|, 0)
    ensures Degrees(tables, Names(tables), inDegree, {}, []) && Linked(tables, Names(tables), dependents)
  {
    var names := Names(tables);
    forall t | t in tables
      ensures t.name in inDegree && inDegree[t.name] == Unmet(AllRefs(t, names), {}) - Count([], t.name)
      ensures forall m :: Count(Dependents(dependents, m), t.name) == Count(AllRefs(t, names), m)
    {
      var i :| 0 <= i < |tables| && tables[i] == t;
      UnmetNone(AllRefs(t, names));
      assert Entered(tables, i, |tables|, 0) == |t.foreignKeys|;
    }
  }

  /** The state of the graph-building loops after `b` foreign keys of table `a`. */
  ghost predicate Building(tables: seq<Table>, names: set<string>, inDegree: map<string, int>,
                           dependents: map<string, seq<string>>, a: nat, b: nat, distinct: bool)
    requires LoopAt(tables, a, b)
  {
    && DependentsKnown(inDegree, dependents)
    && (distinct ==> DegreesBuilt(tables, names, inDegree, a, b) && DependentsBuilt(tables, names, dependents, a, b))
  }

  lemma EnterKey(tables: seq<Table>, names: set<string>, inDegree: map<string, int>,
                 dependents: map<string, seq<string>>, a: nat, b: nat)
    requires a < |tables| && b < |tables[a].foreignKeys| && names == Names(tables)
    requires tables[a].name in inDegree && inDegree.Keys <= names
    requires Building(tables, names, inDegree, dependents, a, b, DistinctNames(tables))
    ensures !Counts(tables[a], tables[a].foreignKeys[b], names) ==>
              Building(tables, names, inDegree, dependents, a, b + 1, DistinctNames(tables))
    ensures Counts(tables[a], tables[a].foreignKeys[b], names) ==>
              var t := tables[a];
              var ref := t.foreignKeys[b].referencedTable;
              Building(tables, names, inDegree[t.name := inDegree[t.name] + 1],
                       dependents[ref := Dependents(dependents, ref) + [t.name]], a, b + 1, DistinctNames(tables))
  {
    if DistinctNames(tables) {
      EnterDegree(tables, names, inDegree, a, b);
      EnterDependent(tables, names, dependents, a, b);
    }
  }

  /** The inner loop's body; its two `continue`s are returns here. */
  method EnterForeignKey(tables: seq<Table>, byName: map<string, Table>, a: nat, b: nat, inDegree0: map<string, int>,
                         dependents0: map<string, seq<string>>)
    returns (inDegree: map<string, int>, dependents: map<string, seq<string>>)
    requires byName.Keys == Names(tables) && a < |tables| && b < |tables[a].foreignKeys|
    requires tables[a].name in inDegree0 && inDegree0.Keys <= Names(tables)
    requires Building(tables, Names(tables), inDegree0, dependents0, a, b, DistinctNames(tables))
    ensures var own, ref := tables[a].name, tables[a].foreignKeys[b].referencedTable;
            if ref == own || ref !in Names(tables) then inDegree == inDegree0 && dependents == dependents0
            else
              && inDegree == inDegree0[own := inDegree0[own] + 1]
              && dependents == dependents0[ref := Dependents(dependents0, ref) + [own]]
    ensures inDegree.Keys == inDegree0.Keys
    ensures Building(tables, Names(tables), inDegree, dependents, a, b + 1, DistinctNames(tables))
  {
    var t := tables[a];
    var fk := t.foreignKeys[b];
    EnterKey(tables, Names(tables), inDegree0, dependents0, a, b);
    if fk.referencedTable == t.name {
      return inDegree0, dependents0;
    }
    if fk.referencedTable !in byName {
      return inDegree0, dependents0;
    }
    inDegree := inDegree0[t.name := inDegree0[t.name] + 1];
    dependents := dependents0[fk.referencedTable := Dependents(dependents0, fk.referencedTable) + [t.name]];
  }

  /** The inner loop: one table's foreign keys, one at a time. */
  method EnterKeys(tables: seq<Table>, byName: map<string, Table>, a: nat, inDegree0: map<string, int>,
                   dependents0: map<string, seq<string>>)
    returns (inDegree: map<string, int>, dependents: map<string, seq<string>>)
    requires byName.Keys == Names(tables) && a < |tables| && inDegree0.Keys == Names(tables[..a + 1])
    requires Building(tables, Names(tables), inDegree0, dependents0, a, 0, DistinctNames(tables))
    ensures inDegree.Keys == inDegree0.Keys
    ensures Building(tables, Names(tables), inDegree, dependents, a, |tables[a].foreignKeys|, DistinctNames(tables))
  {
    inDegree, dependents := inDegree0, dependents0;
    NamesStep(tables, a);
    for b := 0 to |tables[a].foreignKeys|
      invariant inDegree.Keys == inDegree0.Keys
      invariant Building(tables, Names(tables), inDegree, dependents, a, b, DistinctNames(tables))
    {
      inDegree, dependents := EnterForeignKey(tables, byName, a, b, inDegree, dependents);
    }
  }

  /** In-degrees and dependents, one table at a time. */
  method BuildGraph(tables: seq<Table>, byName: map<string, Table>)
    returns (inDegree: map<string, int>, dependents: map<string, seq<string>>)
    requires ByName(tables, byName)
    ensures inDegree.Keys == Names(tables) && DependentsKnown(inDegree, dependents)
    ensures DistinctNames(tables) ==>
              Degrees(tables, Names(tables), inDegree, {}, []) && Linked(tables, Names(tables), dependents)
  {
    ghost var names := Names(tables);
    ghost var distinct := DistinctNames(tables);
    inDegree, dependents := map[], map[];
    for a := 0 to |tables|
      invariant inDegree.Keys == Names(tables[..a])
      invariant Building(tables, names, inDegree, dependents, a, 0, distinct)
    {
      if tables[a].name !in inDegree {
        inDegree := inDegree[tables[a].name := 0];
      }
      inDegree, dependents := EnterKeys(tables, byName, a, inDegree, dependents);
      if distinct {
        NextTable(tables, names, inDegree, dependents, a);
      }
    }
    assert tables[..|tables|] == tables;
    if distinct {
      GraphBuilt(tables, inDegree, dependents);
    }
  }

  /** The names with in-degree zero, in list order. */
  method StartQueue(tables: seq<Table>, inDegree: map<string, int>) returns (queue: seq<string>)
    requires inDegree.Keys == Names(tables)
    ensures forall n | n in queue :: n in Names(tables)
    ensures DistinctNames(tables) ==> Frontier(tables, inDegree, queue, {})
  {
    queue := [];
    for i := 0 to |tables|
      invariant forall n | n in queue :: n in Names(tables[..i])
      invariant forall k | 0 <= k < i :: tables[k].name in queue <==> inDegree[tables[k].name] == 0
      invariant DistinctNames(tables) ==> NoDuplicates(queue)
    {
      NamesStep(tables, i);
      if inDegree[tables[i].name] == 0 {
        queue := queue + [tables[i].name];
      }
    }
    assert tables[..|tables|] == tables;
  }

  /** The inner loop's invariant after `i` dependents, with or without clashing names. */
  ghost predicate Releasing(tables: seq<Table>, names: set<string>, dependents: map<string, seq<string>>,
                            done: set<string>,
                            name: string, inDegree: map<string, int>, queue: seq<string>, i: nat, distinct: bool)
    requires i <= |Dependents(dependents, name)|
  {
    && names == Names(tables)
    && inDegree.Keys == names && DependentsKnown(inDegree, dependents) && (forall n | n in queue :: n in names)
    && (distinct ==> name !in done && Linked(tables, names, dependents)
                     && Degrees(tables, names, inDegree, done, Dependents(dependents, name)[..i])
                     && Frontier(tables, inDegree, queue, done + {name}))
  }

  lemma ReleaseOne(tables: seq<Table>, names: set<string>, dependents: map<string, seq<string>>, done: set<string>,
                   name: string, inDegree: map<string, int>, queue: seq<string>, i: nat, distinct: bool)
    requires i < |Dependents(dependents, name)|
    requires Releasing(tables, names, dependents, done, name, inDegree, queue, i, distinct)
    ensures var dep := Dependents(dependents, name)[i];
            dep in inDegree &&
            var inDegree' := inDegree[dep := inDegree[dep] - 1];
            var queue' := if inDegree'[dep] == 0 then queue + [dep] else queue;
            && Releasing(tables, names, dependents, done, name, inDegree', queue', i + 1, distinct)
            && |queue'| + |Positive(inDegree')| <= |queue| + |Positive(inDegree)|
  {
    var dep := Dependents(dependents, name)[i];
    PayForDecrement(inDegree, dep);
    if distinct {
      TakeOff(tables, names, inDegree, dependents, queue, done, name, i);
    }
  }

  /** The inner loop: take `name` off the in-degree of each of its dependents. */
  method Release(tables: seq<Table>, ghost done: set<string>, name: string, dependents: map<string, seq<string>>,
                 inDegree0: map<string, int>, queue0: seq<string>, ghost distinct: bool)
    returns (inDegree: map<string, int>, queue: seq<string>)
    requires Releasing(tables, Names(tables), dependents, done, name, inDegree0, queue0, 0, distinct)
    ensures var n := |Dependents(dependents, name)|;
            Releasing(tables, Names(tables), dependents, done, name, inDegree, queue, n, distinct)
    ensures |queue| + |Positive(inDegree)| <= |queue0| + |Positive(inDegree0)|
  {
    ghost var names := Names(tables);
    inDegree, queue := inDegree0, queue0;
    var deps := Dependents(dependents, name);
    for i := 0 to |deps|
      invariant Releasing(tables, names, dependents, done, name, inDegree, queue, i, distinct)
      invariant |queue| + |Positive(inDegree)| <= |queue0| + |Positive(inDegree0)|
    {
      ReleaseOne(tables, names, dependents, done, name, inDegree, queue, i, distinct);
      var dep := deps[i];
      inDegree := inDegree[dep := inDegree[dep] - 1];
      if inDegree[dep] == 0 {
        queue := queue + [dep];
      }
    }
  }

  predicate Tracked(tables: seq<Table>, inDegree: map<string, int>, queue: seq<string>, sorted: seq<Table>,
                    done: set<string>) {
    && Degrees(tables, Names(tables), inDegree, done, [])
    && Frontier(tables, inDegree, queue, done)
    && Emitted(tables, sorted, done)
  }

  lemma Dequeue(tables: seq<Table>, byName: map<string, Table>, inDegree: map<string, int>, queue: seq<string>,
                sorted: seq<Table>, done: set<string>)
    requires ByName(tables, byName) && queue != [] && Tracked(tables, inDegree, queue, sorted, done)
    ensures var name := queue[0];
            && name in byName && name !in done
            && Frontier(tables, inDegree, queue[1..], done + {name})
            && Emitted(tables, sorted + [byName[name]], done + {name})
  {
    var name := queue[0];
    HeadIsFree(tables, byName, inDegree, queue, done);
    EmitNext(tables, sorted, done, byName[name]);
  }

  lemma HeadIsFree(tables: seq<Table>, byName: map<string, Table>, inDegree: map<string, int>, queue: seq<string>,
                   done: set<string>)
    requires ByName(tables, byName) && queue != [] && queue[0] in byName
    requires Degrees(tables, Names(tables), inDegree, done, []) && Frontier(tables, inDegree, queue, done)
    ensures Unmet(AllRefs(byName[queue[0]], Names(tables)), done) == 0
  {
    var t := byName[queue[0]];
    assert t in tables && t.name in queue;
  }

  lemma Released(tables: seq<Table>, dependents: map<string, seq<string>>, done: set<string>, name: string,
                 inDegree: map<string, int>, queue: seq<string>)
    requires Releasing(tables, Names(tables), dependents, done, name, inDegree, queue, |Dependents(dependents, name)|,
                       true)
    ensures Degrees(tables, Names(tables), inDegree, done + {name}, []) &&
              Frontier(tables, inDegree, queue, done + {name})
  {
    var deps := Dependents(dependents, name);
    assert deps[..|deps|] == deps;
    FinishName(tables, Names(tables), inDegree, dependents, done, name);
  }

  /** The main loop's invariant, with or without clashing names. */
  ghost predicate Running(tables: seq<Table>, byName: map<string, Table>, dependents: map<string, seq<string>>,
                    inDegree: map<string, int>, queue: seq<string>, sorted: seq<Table>, done: set<string>) {
    && inDegree.Keys == Names(tables) && DependentsKnown(inDegree, dependents)
    && (forall n | n in queue :: n in Names(tables))
    && (forall t | t in sorted :: t.name in byName && byName[t.name] == t)
    && (DistinctNames(tables) ==>
          Linked(tables, Names(tables), dependents) && Tracked(tables, inDegree, queue, sorted, done))
  }

  lemma HeadTaken(tables: seq<Table>, byName: map<string, Table>, dependents: map<string, seq<string>>,
                  inDegree: map<string, int>, queue: seq<string>, sorted: seq<Table>, done: set<string>)
    requires ByName(tables, byName) && queue != [] && Running(tables, byName, dependents, inDegree, queue, sorted, done)
    ensures var name := queue[0];
            && name in byName
            && Releasing(tables, Names(tables), dependents, done, name, inDegree, queue[1..], 0, DistinctNames(tables))
            && (forall t | t in sorted + [byName[name]] :: t.name in byName && byName[t.name] == t)
            && (DistinctNames(tables) ==> Emitted(tables, sorted + [byName[name]], done + {name}))
  {
    assert Dependents(dependents, queue[0])[..0] == [];
    if DistinctNames(tables) {
      Dequeue(tables, byName, inDegree, queue, sorted, done);
    }
  }

  /** The main loop's body: emit the head of the queue and take it off its dependents. */
  method EmitHead(tables: seq<Table>, byName: map<string, Table>, dependents: map<string, seq<string>>,
                  inDegree0: map<string, int>, queue0: seq<string>, sorted0: seq<Table>, ghost done: set<string>)
    returns (inDegree: map<string, int>, queue: seq<string>, sorted: seq<Table>)
    requires ByName(tables, byName) && queue0 != []
    requires Running(tables, byName, dependents, inDegree0, queue0, sorted0, done)
    ensures Running(tables, byName, dependents, inDegree, queue, sorted, done + {queue0[0]})
    ensures |queue| + |Positive(inDegree)| < |queue0| + |Positive(inDegree0)|
  {
    HeadTaken(tables, byName, dependents, inDegree0, queue0, sorted0, done);
    var name := queue0[0];
    queue := queue0[1..];
    sorted := sorted0 + [byName[name]];
    inDegree, queue := Release(tables, done, name, dependents, inDegree0, queue, DistinctNames(tables));
    if DistinctNames(tables) {
      Released(tables, dependents, done, name, inDegree, queue);
    }
  }

  /** The queue ran empty. */
  ghost predicate Complete(tables: seq<Table>, sorted: seq<Table>) {
    exists inDegree, done :: Tracked(tables, inDegree, [], sorted, done)
  }

  lemma RunEnds(tables: seq<Table>, byName: map<string, Table>, dependents: map<string, seq<string>>,
                inDegree: map<string, int>, queue: seq<string>, sorted: seq<Table>, done: set<string>)
    requires |queue| == 0 && Running(tables, byName, dependents, inDegree, queue, sorted, done)
    ensures forall t | t in sorted :: t.name in byName && byName[t.name] == t
    ensures DistinctNames(tables) ==> Complete(tables, sorted)
  {
    assert queue == [];
  }

  method RunQueue(tables: seq<Table>, byName: map<string, Table>, inDegree0: map<string, int>,
                  dependents: map<string, seq<string>>, queue0: seq<string>) returns (sorted: seq<Table>)
    requires ByName(tables, byName) && inDegree0.Keys == Names(tables) && DependentsKnown(inDegree0, dependents)
    requires forall n | n in queue0 :: n in Names(tables)
    requires DistinctNames(tables) ==>
               Degrees(tables, Names(tables), inDegree0, {}, []) && Linked(tables, Names(tables), dependents)
               && Frontier(tables, inDegree0, queue0, {})
    ensures forall t | t in sorted :: t.name in byName && byName[t.name] == t
    ensures DistinctNames(tables) ==> Complete(tables, sorted)
  {
    var inDegree, queue := inDegree0, queue0;
    ghost var done: set<string> := {};
    sorted := [];
    assert Running(tables, byName, dependents, inDegree, queue, sorted, done);
    while |queue| > 0
      invariant Running(tables, byName, dependents, inDegree, queue, sorted, done)
      decreases |queue| + |Positive(inDegree)|
    {
      ghost var name := queue[0];
      inDegree, queue, sorted := EmitHead(tables, byName, dependents, inDegree, queue, sorted, done);
      done := done + {name};
    }
    RunEnds(tables, byName, dependents, inDegree, queue, sorted, done);
  }

  lemma Outcome(tables: seq<Table>, sorted: seq<Table>)
    requires DistinctNames(tables)
    requires Complete(tables, sorted)
    ensures |sorted| != |tables| <==> HasCycle(tables)
    ensures |sorted| == |tables| ==>
              multiset(sorted) == multiset(tables) && DistinctNames(sorted) && Ordered(sorted, Names(tables))
  {
    var inDegree, done :| Tracked(tables, inDegree, [], sorted, done);
    NamesCount(tables);
    if |sorted| == |tables| {
      SameElements(sorted, tables);
      OrderedHasNoCycle(tables, sorted);
    } else {
      assert done != Names(tables);
      StuckMeansCycle(tables, inDegree, done);
    }
  }

  /** Tables as the inspector reads them: no table twice, though two schemas may hold the same name. */
  predicate AllDifferent(tables: seq<Table>) {
    forall i, j | 0 <= i < j < |tables| :: tables[i] != tables[j]
  }

  /** The result holds one table per name at most: with a clash some table of the list is lost. */
  lemma ClashLosesTable(tables: seq<Table>, byName: map<string, Table>, sorted: seq<Table>)
    requires AllDifferent(tables) && !DistinctNames(tables)
    requires forall t | t in sorted :: t.name in byName && byName[t.name] == t
    ensures exists t | t in tables :: t !in sorted
  {
    var i, j :| 0 <= i < j < |tables| && tables[i].name == tables[j].name;
    assert tables[i] != tables[j];
    if tables[i] in sorted {
      assert tables[j] !in sorted;
    }
  }

  /** Of any foreign key that a table has, the target is the table itself, or none of these names, or earlier. */
  predicate TargetsFirst(order: seq<Table>, names: set<string>) {
    forall j, fk | 0 <= j < |order| && fk in order[j].foreignKeys ::
      || fk.referencedTable == order[j].name || fk.referencedTable !in names
      || exists i | 0 <= i < j :: order[i].name == fk.referencedTable
  }

  lemma OrderedIsTargetsFirst(order: seq<Table>, names: set<string>)
    ensures Ordered(order, names) <==> TargetsFirst(order, names)
  {
    forall j, fk | 0 <= j < |order| && fk in order[j].foreignKeys
      ensures fk.referencedTable in Names(order[..j]) <==>
                exists i | 0 <= i < j :: order[i].name == fk.referencedTable
    {
      if i :| 0 <= i < j && order[i].name == fk.referencedTable {
        assert order[..j][i] in order[..j];
      }
    }
  }

  /** Kahn's algorithm. Any list is accepted; what is promised depends on whether names clash. */
  method TopoSort(tables: seq<Table>) returns (r: Result)
    ensures DistinctNames(tables) ==> (r.Circular? <==> HasCycle(tables))
    ensures DistinctNames(tables) ==> (r.Sorted? <==> Rankable(tables))
    ensures DistinctNames(tables) && r.Sorted? ==> TargetsFirst(r.tables, Names(tables))
    ensures r.Sorted? ==> forall t | t in r.tables :: t in tables
    ensures DistinctNames(tables) && r.Sorted? ==> DistinctNames(r.tables) && Ordered(r.tables, Names(tables))
    ensures AllDifferent(tables) && r.Sorted? ==>
              (multiset(r.tables) == multiset(tables) <==> DistinctNames(tables))
  {
    var byName: map<string, Table> := map[];
    for i := 0 to |tables|
      invariant ByName(tables[..i], byName)
    {
      NamesStep(tables, i);
      byName := byName[tables[i].name := tables[i]];
    }
    assert tables[..|tables|] == tables;
    var inDegree, dependents := BuildGraph(tables, byName);
    var queue := StartQueue(tables, inDegree);
    var sorted := RunQueue(tables, byName, inDegree, dependents, queue);
    if DistinctNames(tables) {
      Outcome(tables, sorted);
      CycleIffUnrankable(tables);
      OrderedIsTargetsFirst(sorted, Names(tables));
    } else if AllDifferent(tables) {
      ClashLosesTable(tables, byName, sorted);
      var t :| t in tables && t !in sorted;
      assert t in multiset(tables) && t !in multiset(sorted);
    }
    if |sorted| != |tables| {
      return Circular;
    }
    return Sorted(sorted);
  }
}
