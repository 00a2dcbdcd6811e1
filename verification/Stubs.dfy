/** The schema fingerprint of pkg/lang/stubs.go: stamping a body of SQL and finding the body again. */
module Stubs {
  import opened Strings

  const MARK := "\nCOMMENT ON SCHEMA gendb IS 'gendb-stubs:"
  const CLOSING := "';\n"

  predicate HexText(s: string) {
    |s| == 16 && forall i | 0 <= i < |s| :: '0' <= s[i] <= '9' || 'a' <= s[i] <= 'f'
  }

  /** The end of `BuildSetupSQL`: the body, then a comment with the body's fingerprint. */
  function Stamp(body: string, fingerprint: string -> string): string {
    body + (MARK + (fingerprint(body) + CLOSING))
  }

  function StripTrailingComment(sql: string): string {
    var idx := LastIndex(sql, MARK);
    if idx == -1 then sql else sql[..idx]
  }

  /** `SetupSQLFingerprint`: hash again what stands before the comment. */
  function Recomputed(sql: string, fingerprint: string -> string): string {
    fingerprint(StripTrailingComment(sql))
  }

  /** For every body, even one that holds such comments itself, the exact body that was hashed is found
      again, so the recomputed fingerprint is the stamped one. */
  lemma StampIsRecomputed(body: string, fingerprint: string -> string)
    requires HexText(fingerprint(body))
    ensures Stamp(body, fingerprint)
         == body + ("\nCOMMENT ON SCHEMA gendb IS 'gendb-stubs:" + (fingerprint(body) + "';\n"))
    ensures StripTrailingComment(Stamp(body, fingerprint)) == body
    ensures Recomputed(Stamp(body, fingerprint), fingerprint) == fingerprint(body)
  {
    var sql := Stamp(body, fingerprint);
    var n := |body|;
    assert sql[n..n + |MARK|] == MARK && OccursAt(sql, MARK, n);
    forall k: nat | n < k <= |sql|
      ensures !OccursAt(sql, MARK, k)
    {
      NewlineOnlyAtEnd(body, fingerprint, k);
      if k + |MARK| <= |sql| {
        assert sql[k..k + |MARK|][0] == sql[k];
      }
    }
    assert LastIndex(sql, MARK) == n;
    assert sql[..n] == body;
  }

  lemma NewlineOnlyAtEnd(body: string, fingerprint: string -> string, k: nat)
    requires HexText(fingerprint(body))
    ensures var sql := Stamp(body, fingerprint); |body| < k < |sql| - 1 ==> sql[k] != '\n'
  {
    var fp := fingerprint(body);
    var after := MARK + (fp + CLOSING);
    if |body| < k < |body| + |after| - 1 {
      assert (body + after)[k] == after[k - |body|];
    }
  }

}
