/** `MatchPattern` of pkg/generator/generator.go against the wildcard patterns of docs/guide/gendb-sql.md. */
module Globs {
  import opened Strings

  function MatchPattern(name: string, pattern: string): bool {
    if pattern == "*" then true
    else if StartsWith(pattern, "*") && EndsWith(pattern, "*") && |pattern| >= 2 then
      Contains(name, pattern[1..|pattern| - 1])
    else if StartsWith(pattern, "*") then EndsWith(name, pattern[1..])
    else if EndsWith(pattern, "*") then StartsWith(name, pattern[..|pattern| - 1])
    else name == pattern
  }

  /** `*` stands for any text and `?` for any one character. */
  predicate Glob(name: string, pattern: string)
    decreases |name| + |pattern|
  {
    if pattern == "" then name == ""
    else if pattern[0] == '*' then Glob(name, pattern[1..]) || (name != "" && Glob(name[1..], pattern))
    else name != "" && (pattern[0] == '?' || pattern[0] == name[0]) && Glob(name[1..], pattern[1..])
  }

  predicate Literal(s: string) {
    '*' !in s && '?' !in s
  }

  /** No wildcard but a star at either end. */
  predicate Simple(pattern: string) {
    Literal(pattern[(if StartsWith(pattern, "*") then 1 else 0)..
                    (if |pattern| > 1 && EndsWith(pattern, "*") then |pattern| - 1 else |pattern|)])
  }

  lemma {:induction false} LiteralThen(name: string, m: string, rest: string)
    requires Literal(m)
    ensures Glob(name, m + rest) <==> StartsWith(name, m) && Glob(name[|m|..], rest)
    decreases |m|
  {
    if m == "" {
      assert m + rest == rest && name[0..] == name;
    } else {
      assert (m + rest)[1..] == m[1..] + rest;
      if name != "" {
        LiteralThen(name[1..], m[1..], rest);
        if |name| >= |m| {
          assert name[1..][|m| - 1..] == name[|m|..];
          assert name[..|m|] == [name[0]] + name[1..][..|m| - 1];
          assert m == [m[0]] + m[1..];
        }
      }
    }
  }

  lemma {:induction false} StarThen(name: string, rest: string)
    ensures Glob(name, "*" + rest) <==> exists i: nat | i <= |name| :: Glob(name[i..], rest)
    decreases |name|
  {
    var p := "*" + rest;
    assert p[1..] == rest && name[0..] == name;
    if name != "" {
      StarThen(name[1..], rest);
      assert forall i: nat | i < |name| :: name[1..][i..] == name[i + 1..];
      if i: nat :| 0 < i <= |name| && Glob(name[i..], rest) {
        assert name[1..][i - 1..] == name[i..];
      }
    }
  }

  lemma LiteralAlone(name: string, m: string)
    requires Literal(m)
    ensures Glob(name, m) <==> name == m
  {
    LiteralThen(name, m, "");
    assert m + "" == m;
  }

  lemma LiteralStar(name: string, m: string)
    requires Literal(m)
    ensures Glob(name, m + "*") <==> StartsWith(name, m)
  {
    LiteralThen(name, m, "*");
    if StartsWith(name, m) {
      StarThen(name[|m|..], "");
      assert name[|m|..][|name| - |m|..] == "" && "*" + "" == "*";
    }
  }

  lemma BothEnds(name: string, m: string)
    requires Literal(m)
    ensures Glob(name, "*" + (m + "*")) <==> Contains(name, m)
  {
    StarThen(name, m + "*");
    forall i: nat | i <= |name|
      ensures Glob(name[i..], m + "*") <==> OccursAt(name, m, i)
    {
      LiteralStar(name[i..], m);
      if i + |m| <= |name| {
        assert name[i..][..|m|] == name[i..i + |m|];
      }
    }
  }

  lemma StarLiteral(name: string, m: string)
    requires Literal(m)
    ensures Glob(name, "*" + m) <==> EndsWith(name, m)
  {
    StarThen(name, m);
    forall i: nat | i <= |name|
      ensures Glob(name[i..], m) <==> name[i..] == m
    {
      LiteralAlone(name[i..], m);
    }
    if EndsWith(name, m) {
      assert name[|name| - |m|..] == m;
    }
  }

  lemma SimpleAgrees(name: string, pattern: string)
    requires Simple(pattern)
    ensures MatchPattern(name, pattern) <==> Glob(name, pattern)
  {
    if pattern == "*" {
      LiteralStar(name, "");
      assert "" + "*" == "*";
    } else if StartsWith(pattern, "*") && EndsWith(pattern, "*") {
      var m := pattern[1..|pattern| - 1];
      assert pattern == "*" + (m + "*");
      BothEnds(name, m);
    } else if StartsWith(pattern, "*") {
      assert pattern == "*" + pattern[1..];
      StarLiteral(name, pattern[1..]);
    } else if EndsWith(pattern, "*") {
      var m := pattern[..|pattern| - 1];
      assert pattern == m + "*";
      LiteralStar(name, m);
    } else {
      assert pattern[0..|pattern|] == pattern;
      LiteralAlone(name, pattern);
    }
  }

  /** A name every wildcard of the pattern fits: stars stand for nothing, question marks for an x. */
  function Instance(pattern: string): string {
    if pattern == "" then ""
    else (if pattern[0] == '*' then "" else if pattern[0] == '?' then "x" else [pattern[0]]) + Instance(pattern[1..])
  }

  lemma {:induction false} InstanceMatches(pattern: string)
    ensures Glob(Instance(pattern), pattern) && Literal(Instance(pattern))
    decreases |pattern|
  {
    if pattern != "" {
      InstanceMatches(pattern[1..]);
      if pattern[0] == '*' {
        assert Instance(pattern) == Instance(pattern[1..]);
      } else {
        assert Instance(pattern)[1..] == Instance(pattern[1..]);
      }
    }
  }

  lemma LiteralSlice(name: string, m: string, i: nat)
    requires Literal(name) && OccursAt(name, m, i)
    ensures Literal(m)
  {
    assert forall k | 0 <= k < |m| :: m[k] == name[i + k];
  }

  /** Names without wildcards are matched by simple patterns only. */
  lemma MatchIsSimple(name: string, pattern: string)
    requires Literal(name) && MatchPattern(name, pattern)
    ensures Simple(pattern)
  {
    if pattern == "*" {
    } else if StartsWith(pattern, "*") && EndsWith(pattern, "*") {
      var i: nat :| i <= |name| && OccursAt(name, pattern[1..|pattern| - 1], i);
      LiteralSlice(name, pattern[1..|pattern| - 1], i);
    } else if StartsWith(pattern, "*") {
      LiteralSlice(name, pattern[1..], |name| - |pattern| + 1);
      assert pattern[1..|pattern|] == pattern[1..];
    } else if EndsWith(pattern, "*") {
      LiteralSlice(name, pattern[..|pattern| - 1], 0);
      assert pattern[0..|pattern| - 1] == pattern[..|pattern| - 1];
    } else {
      assert pattern[0..|pattern|] == pattern;
    }
  }

  lemma NotSimpleDiffers(pattern: string)
    requires !Simple(pattern)
    ensures Glob(Instance(pattern), pattern) && !MatchPattern(Instance(pattern), pattern)
  {
    InstanceMatches(pattern);
    if MatchPattern(Instance(pattern), pattern) {
      MatchIsSimple(Instance(pattern), pattern);
    }
  }

  /** The matcher is the documented one exactly on patterns without `?` whose stars stand at the ends. */
  lemma AgreesIffSimple(pattern: string)
    ensures (forall name :: MatchPattern(name, pattern) <==> Glob(name, pattern)) <==> Simple(pattern)
  {
    if Simple(pattern) {
      forall name
        ensures MatchPattern(name, pattern) <==> Glob(name, pattern)
      {
        SimpleAgrees(name, pattern);
      }
    } else {
      NotSimpleDiffers(pattern);
    }
  }
}
