/** Synthetic table names of pkg/synthetic/schema.go. */
module SyntheticNames {
  import opened Strings

  const SEPARATOR := "__"
  const DEFAULT_SCENARIO := "default"

  function SyntheticTableName(scenario: string, sourceSchema: string, tableName: string): string {
    SEPARATOR + ((if scenario == "" then DEFAULT_SCENARIO else scenario)
                 + (SEPARATOR + (sourceSchema + (SEPARATOR + tableName))))
  }

  datatype Source = Source(scenario: string, sourceSchema: string, tableName: string) | NotSynthetic

  function ParseSyntheticTableName(name: string): Source {
    if !StartsWith(name, SEPARATOR) then NotSynthetic else SplitThree(name[|SEPARATOR|..])
  }

  /** strings.SplitN(rest, "__", 3): cut at the first two separators. */
  function SplitThree(rest: string): Source {
    var first := Index(rest, SEPARATOR);
    if first < 0 then NotSynthetic else SplitTwo(rest[..first], rest[first + |SEPARATOR|..])
  }

  function SplitTwo(scenario: string, rest: string): Source {
    var second := Index(rest, SEPARATOR);
    if second < 0 then NotSynthetic else Source(scenario, rest[..second], rest[second + |SEPARATOR|..])
  }

  /** The separator cannot be found too early. */
  predicate Separable(part: string) {
    !Contains(part, SEPARATOR) && !EndsWith(part, "_")
  }

  lemma OccursTwice(s: string, i: nat)
    ensures OccursAt(s, SEPARATOR, i) <==> i + 2 <= |s| && s[i] == '_' && s[i + 1] == '_'
  {
    if i + 2 <= |s| {
      assert s[i..i + 2] == [s[i], s[i + 1]];
    }
  }

  lemma CutAt(part: string, tail: string)
    ensures var i := Index(part + (SEPARATOR + tail), SEPARATOR);
            0 <= i <= |part| && (i == |part| <==> Separable(part))
  {
    var s := part + (SEPARATOR + tail);
    OccursTwice(s, |part|);
    assert s[|part|] == '_' && s[|part| + 1] == '_';
    assert Contains(s, SEPARATOR);
    forall k: nat | k < |part|
      ensures OccursAt(s, SEPARATOR, k) <==> OccursAt(part, SEPARATOR, k) || (k == |part| - 1 && part[k] == '_')
    {
      OccursTwice(s, k);
      OccursTwice(part, k);
    }
    assert EndsWith(part, "_") <==> part != "" && part[|part| - 1] == '_';
    if Separable(part) {
      IndexIs(s, SEPARATOR, |part|);
    } else if Contains(part, SEPARATOR) {
      var k: nat :| k <= |part| && OccursAt(part, SEPARATOR, k);
    }
  }

  lemma Slices(part: string, tail: string)
    ensures var s := part + (SEPARATOR + tail); s[..|part|] == part && s[|part| + |SEPARATOR|..] == tail
  {}

  lemma TwoRoundTrip(scenario: string, sourceSchema: string, tableName: string)
    ensures SplitTwo(scenario, sourceSchema + (SEPARATOR + tableName)) == Source(scenario, sourceSchema, tableName)
        <==> Separable(sourceSchema)
  {
    CutAt(sourceSchema, tableName);
    Slices(sourceSchema, tableName);
  }

  lemma ThreeRoundTrip(scenario: string, sourceSchema: string, tableName: string)
    ensures var rest := scenario + (SEPARATOR + (sourceSchema + (SEPARATOR + tableName)));
            SplitThree(rest) == Source(scenario, sourceSchema, tableName)
            <==> Separable(scenario) && Separable(sourceSchema)
  {
    var tail := sourceSchema + (SEPARATOR + tableName);
    CutAt(scenario, tail);
    Slices(scenario, tail);
    TwoRoundTrip(scenario, sourceSchema, tableName);
  }

  lemma SeparatorFirst(rest: string)
    ensures StartsWith(SEPARATOR + rest, SEPARATOR) && (SEPARATOR + rest)[|SEPARATOR|..] == rest
  {}

  /** For a nonempty scenario the name reads back exactly when neither scenario nor schema contains the
      separator or ends in an underscore. */
  lemma NameRoundTrips(scenario: string, sourceSchema: string, tableName: string)
    requires scenario != ""
    ensures var parsed := ParseSyntheticTableName(SyntheticTableName(scenario, sourceSchema, tableName));
            parsed == Source(scenario, sourceSchema, tableName) <==> Separable(scenario) && Separable(sourceSchema)
  {
    SeparatorFirst(scenario + (SEPARATOR + (sourceSchema + (SEPARATOR + tableName))));
    ThreeRoundTrip(scenario, sourceSchema, tableName);
  }

  /** An empty scenario reads back as the default one, on the same condition for the schema. */
  lemma DefaultRoundTrips(sourceSchema: string, tableName: string)
    ensures var parsed := ParseSyntheticTableName(SyntheticTableName("", sourceSchema, tableName));
            parsed == Source("default", sourceSchema, tableName) <==> Separable(sourceSchema)
  {
    forall k: nat | k <= |DEFAULT_SCENARIO|
      ensures !OccursAt(DEFAULT_SCENARIO, SEPARATOR, k)
    {
      OccursTwice(DEFAULT_SCENARIO, k);
    }
    assert SyntheticTableName("", sourceSchema, tableName) ==
           SyntheticTableName(DEFAULT_SCENARIO, sourceSchema, tableName);
    NameRoundTrips(DEFAULT_SCENARIO, sourceSchema, tableName);
  }

  lemma Rejoin(s: string, i: nat)
    requires OccursAt(s, SEPARATOR, i)
    ensures s == s[..i] + (SEPARATOR + s[i + |SEPARATOR|..])
  {
    assert s == s[..i] + (s[i..i + |SEPARATOR|] + s[i + |SEPARATOR|..]);
  }

  /** Rebuilding what a successful parse found gives the name back. */
  lemma ParseRoundTrips(name: string)
    ensures var p := ParseSyntheticTableName(name);
            p.Source? && p.scenario != "" ==> SyntheticTableName(p.scenario, p.sourceSchema, p.tableName) == name
  {
    if ParseSyntheticTableName(name).Source? {
      var rest := name[|SEPARATOR|..];
      var first := Index(rest, SEPARATOR);
      var rest2 := rest[first + |SEPARATOR|..];
      assert name[0..|SEPARATOR|] == SEPARATOR;
      Rejoin(name, 0);
      Rejoin(rest, first);
      Rejoin(rest2, Index(rest2, SEPARATOR));
      assert name[..0] + (SEPARATOR + rest) == SEPARATOR + rest;
    }
  }

  /** Exactly the names made of three parts, each after two underscores, are synthetic. */
  lemma SyntheticIff(name: string)
    ensures ParseSyntheticTableName(name) != NotSynthetic
        <==> exists scenario: string, schema: string, table: string ::
               name == "__" + (scenario + ("__" + (schema + ("__" + table))))
  {
    if ParseSyntheticTableName(name) != NotSynthetic {
      var rest := name[|SEPARATOR|..];
      var first := Index(rest, SEPARATOR);
      var rest2 := rest[first + |SEPARATOR|..];
      var second := Index(rest2, SEPARATOR);
      assert name[0..|SEPARATOR|] == SEPARATOR && name == SEPARATOR + rest;
      Rejoin(rest, first);
      Rejoin(rest2, second);
      assert name == "__" + (rest[..first] + ("__" + (rest2[..second] + ("__" + rest2[second + |SEPARATOR|..]))));
    }
    if scenario: string, schema: string, table: string :|
       name == "__" + (scenario + ("__" + (schema + ("__" + table)))) {
      var rest := scenario + ("__" + (schema + ("__" + table)));
      SeparatorFirst(rest);
      CutAt(scenario, schema + ("__" + table));
      var first := Index(rest, SEPARATOR);
      var rest2 := rest[first + |SEPARATOR|..];
      // A first cut that comes early leaves a second one at the latest where the first was expected.
      SecondCut(scenario, schema, table);
    }
  }

  /** Wherever the first cut falls, the rest holds a separator too. */
  lemma SecondCut(scenario: string, schema: string, table: string)
    ensures var rest := scenario + (SEPARATOR + (schema + (SEPARATOR + table)));
            var first := Index(rest, SEPARATOR);
            0 <= first <= |scenario| && Contains(rest[first + |SEPARATOR|..], SEPARATOR)
  {
    var rest := scenario + (SEPARATOR + (schema + (SEPARATOR + table)));
    CutAt(scenario, schema + (SEPARATOR + table));
    var first := Index(rest, SEPARATOR);
    var at := |scenario| + |SEPARATOR| + |schema|;
    OccursTwice(rest, at);
    assert rest[at] == '_' && rest[at + 1] == '_';
    var rest2 := rest[first + |SEPARATOR|..];
    OccursTwice(rest2, at - first - |SEPARATOR|);
    assert OccursAt(rest2, SEPARATOR, at - first - |SEPARATOR|);
  }
}
