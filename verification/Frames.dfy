/** The frame readers of pkg/proxy/proxy.go: `drainExtendedQuery`, `extractQuery`, `extractParseQuery`, against
    the frontend frames of section 55.7 of the PostgreSQL 16 documentation. */
module Frames {
  type byte = x: int | 0 <= x < 256

  type Bytes = seq<byte>

  const SYNC: byte := 'S' as int
  const QUERY: byte := 'Q' as int
  const PARSE: byte := 'P' as int

  // ----- Frames -------------------------------------------------------------------------------

  /** A type byte, a four-byte big-endian length that counts itself and the payload, the payload. */
  datatype Frame = Frame(kind: byte, payload: Bytes)

  predicate FrameOk(f: Frame) {
    |f.payload| + 4 < 0x1_0000_0000
  }

  function Be32(n: nat): (b: Bytes)
    requires n < 0x1_0000_0000
    ensures |b| == 4
  {
    var n1 := n / 0x100;
    var n2 := n1 / 0x100;
    [n2 / 0x100, n2 % 0x100, n1 % 0x100, n % 0x100]
  }

  function Encode(f: Frame): (b: Bytes)
    requires FrameOk(f)
    ensures |b| == 5 + |f.payload|
  {
    [f.kind] + Be32(|f.payload| + 4) + f.payload
  }

  /** The header of an encoded frame: its type, then its length with itself but without the type. */
  lemma HeaderBytes(f: Frame)
    requires FrameOk(f)
    ensures var b := Encode(f);
            b[0] == f.kind && b[5..] == f.payload
            && 16777216 * (b[1] as int) + 65536 * (b[2] as int) + 256 * (b[3] as int) + (b[4] as int)
               == 4 + |f.payload|
  {}

  predicate AllFramesOk(fs: seq<Frame>) {
    forall i | 0 <= i < |fs| :: FrameOk(fs[i])
  }

  function Codes(fs: seq<Frame>): (codes: seq<Bytes>)
    requires AllFramesOk(fs)
    ensures |codes| == |fs|
  {
    seq(|fs|, i requires 0 <= i < |fs| => Encode(fs[i]))
  }

  function Concat(codes: seq<Bytes>): Bytes {
    if codes == [] then [] else codes[0] + Concat(codes[1..])
  }

  function EncodeAll(fs: seq<Frame>): Bytes
    requires AllFramesOk(fs)
  {
    Concat(Codes(fs))
  }

  predicate HasSync(fs: seq<Frame>) {
    exists i | 0 <= i < |fs| :: fs[i].kind == SYNC
  }

  /** Where each frame up to and including the first Sync starts, the first one at `at`. */
  function StartsToSync(fs: seq<Frame>, at: nat): seq<nat> {
    if fs == [] then []
    else if fs[0].kind == SYNC then [at]
    else [at] + StartsToSync(fs[1..], at + 5 + |fs[0].payload|)
  }

  // ----- Walking a buffer ---------------------------------------------------------------------

  /** `int(a)<<24 | int(b)<<16 | int(c)<<8 | int(d)`, the bits being disjoint. */
  function ReadBe32(a: int, b: int, c: int, d: int): int {
    a * 0x100_0000 + b * 0x1_0000 + c * 0x100 + d
  }

  function Length(data: Bytes, pos: nat): nat
    requires pos + 5 <= |data|
  {
    ReadBe32(data[pos + 1], data[pos + 2], data[pos + 3], data[pos + 4])
  }

  datatype Walk = Walk(visited: seq<nat>, sync: bool)

  function Visit(pos: nat, w: Walk): Walk {
    Walk([pos] + w.visited, w.sync)
  }

  /** The positions the loop inspects from `pos` on, and whether it stops at a Sync. */
  function WalkFrom(data: Bytes, pos: nat): Walk
    decreases |data| - pos
  {
    if pos >= |data| || pos + 5 > |data| then Walk([], false)
    else if data[pos] == SYNC then Walk([pos], true)
    else
      var total := 1 + Length(data, pos);
      if pos + total > |data| then Walk([pos], false) else Visit(pos, WalkFrom(data, pos + total))
  }

  /** `w` after having visited `before`. */
  function Prepend(before: seq<nat>, w: Walk): Walk {
    Walk(before + w.visited, w.sync)
  }

  lemma WalkOnce(before: seq<nat>, data: Bytes, pos: nat)
    requires pos + 5 <= |data|
    ensures var total := 1 + Length(data, pos);
            var next := before + [pos];
            Prepend(before, WalkFrom(data, pos)) ==
            if data[pos] == SYNC then Walk(next, true)
            else if pos + total > |data| then Walk(next, false)
            else Prepend(next, WalkFrom(data, pos + total))
  {
    var total := 1 + Length(data, pos);
    if data[pos] != SYNC && pos + total <= |data| {
      var rest := WalkFrom(data, pos + total).visited;
      assert before + ([pos] + rest) == before + [pos] + rest;
    }
  }

  /** One buffer of `drainExtendedQuery`; the loop is the same for both buffers. */
  method FindSync(data: Bytes) returns (found: bool, ghost visited: seq<nat>)
    ensures found == WalkFrom(data, 0).sync && visited == WalkFrom(data, 0).visited
  {
    var n := |data|;
    var pos := 0;
    visited := [];
    ghost var goal := WalkFrom(data, 0);
    assert [] + goal.visited == goal.visited;
    while pos < n
      invariant 0 <= pos <= n
      invariant goal == Prepend(visited, WalkFrom(data, pos))
    {
      if pos + 5 > n {
        break;
      }
      WalkOnce(visited, data, pos);
      var msgType := data[pos];
      var msgLen := Length(data, pos);
      var totalLen := 1 + msgLen;
      visited := visited + [pos];
      if msgType == SYNC {
        return true, visited;
      }
      if totalLen <= 0 || pos + totalLen > n {
        return false, visited;
      }
      pos := pos + totalLen;
    }
    return false, visited;
  }

  /** What the reader makes of the first five bytes of a frame. */
  predicate Heads(code: Bytes, kind: byte, n: nat) {
    |code| == n + 5 && code[0] == kind && ReadBe32(code[1], code[2], code[3], code[4]) == n + 4
  }

  predicate AllHead(codes: seq<Bytes>, fs: seq<Frame>) {
    |codes| == |fs| && forall i | 0 <= i < |fs| :: Heads(codes[i], fs[i].kind, |fs[i].payload|)
  }

  /** `data` holds the frames `fs` from `pos` on. */
  predicate FramesAt(data: Bytes, pos: nat, fs: seq<Frame>)
    decreases |fs|
  {
    if fs == [] then pos <= |data|
    else
      var next := pos + 5 + |fs[0].payload|;
      next <= |data| && Heads(data[pos..next], fs[0].kind, |fs[0].payload|) && FramesAt(data, next, fs[1..])
  }

  function EndOf(fs: seq<Frame>, pos: nat): nat {
    if fs == [] then pos else EndOf(fs[1..], pos + 5 + |fs[0].payload|)
  }

  /** What the walk does after whole frames: it has stopped at a Sync, or goes on behind them. */
  function Beyond(fs: seq<Frame>, at: nat, data: Bytes, pos: nat): Walk {
    if HasSync(fs) then Walk(StartsToSync(fs, at), true) else Prepend(StartsToSync(fs, at), WalkFrom(data, pos))
  }

  lemma BeyondFirst(f: Frame, fs: seq<Frame>, at: nat, data: Bytes, pos: nat)
    ensures Beyond([f] + fs, at, data, pos)
         == if f.kind == SYNC then Walk([at], true) else Visit(at, Beyond(fs, at + 5 + |f.payload|, data, pos))
  {
    var all := [f] + fs;
    assert all[1..] == fs;
    assert HasSync(all) <==> f.kind == SYNC || HasSync(fs) by {
      if HasSync(fs) {
        var i :| 0 <= i < |fs| && fs[i].kind == SYNC;
        assert all[i + 1].kind == SYNC;
      }
    }
    var starts := StartsToSync(fs, at + 5 + |f.payload|);
    assert [at] + (starts + WalkFrom(data, pos).visited) == [at] + starts + WalkFrom(data, pos).visited;
  }

  /** One turn of the walk at a whole frame. */
  lemma WalkHead(data: Bytes, pos: nat, kind: byte, n: nat)
    requires pos + 5 + n <= |data| && Heads(data[pos..pos + 5 + n], kind, n)
    ensures WalkFrom(data, pos) == if kind == SYNC then Walk([pos], true) else Visit(pos, WalkFrom(data, pos + n + 5))
  {
    var code := data[pos..pos + 5 + n];
    assert code[0] == data[pos];
    assert Length(data, pos) == ReadBe32(code[1], code[2], code[3], code[4]);
  }

  lemma Middle(before: Bytes, code: Bytes, rest: Bytes)
    ensures (before + code + rest)[|before|..|before| + |code|] == code
  {}

  lemma WalkFirst(data: Bytes, pos: nat, f: Frame, fs: seq<Frame>, end: nat)
    requires pos + 5 + |f.payload| <= |data| && Heads(data[pos..pos + 5 + |f.payload|], f.kind, |f.payload|)
    requires WalkFrom(data, pos + 5 + |f.payload|) == Beyond(fs, pos + 5 + |f.payload|, data, end)
    ensures WalkFrom(data, pos) == Beyond([f] + fs, pos, data, end)
  {
    WalkHead(data, pos, f.kind, |f.payload|);
    BeyondFirst(f, fs, pos, data, end);
  }

  lemma {:induction false} WalkFrames(data: Bytes, pos: nat, fs: seq<Frame>)
    requires FramesAt(data, pos, fs)
    ensures WalkFrom(data, pos) == Beyond(fs, pos, data, EndOf(fs, pos))
    decreases |fs|
  {
    if fs == [] {
      assert [] + WalkFrom(data, pos).visited == WalkFrom(data, pos).visited;
    } else {
      var f, rest := fs[0], fs[1..];
      WalkFrames(data, pos + 5 + |f.payload|, rest);
      WalkFirst(data, pos, f, rest, EndOf(rest, pos + 5 + |f.payload|));
      assert fs == [f] + rest;
    }
  }

  lemma {:induction false} CodesAt(before: Bytes, codes: seq<Bytes>, fs: seq<Frame>, tail: Bytes)
    requires AllHead(codes, fs)
    ensures FramesAt(before + (Concat(codes) + tail), |before|, fs)
    ensures EndOf(fs, |before|) == |before| + |Concat(codes)|
    decreases |fs|
  {
    if fs != [] {
      var code, rest := codes[0], Concat(codes[1..]) + tail;
      assert Heads(code, fs[0].kind, |fs[0].payload|);
      assert before + (Concat(codes) + tail) == before + code + rest;
      Middle(before, code, rest);
      CodesAt(before + code, codes[1..], fs[1..], tail);
    }
  }

  lemma WalkCodes(before: Bytes, codes: seq<Bytes>, fs: seq<Frame>, tail: Bytes)
    requires AllHead(codes, fs)
    ensures var data := before + (Concat(codes) + tail);
            WalkFrom(data, |before|) == Beyond(fs, |before|, data, |before| + |Concat(codes)|)
  {
    CodesAt(before, codes, fs, tail);
    WalkFrames(before + (Concat(codes) + tail), |before|, fs);
  }

  lemma WalkAll(data: Bytes, pos: nat, fs: seq<Frame>)
    requires FramesAt(data, pos, fs) && EndOf(fs, pos) == |data|
    ensures WalkFrom(data, pos) == Walk(StartsToSync(fs, pos), HasSync(fs))
  {
    WalkFrames(data, pos, fs);
    assert StartsToSync(fs, pos) + [] == StartsToSync(fs, pos);
  }

  lemma CodesHead(fs: seq<Frame>)
    requires AllFramesOk(fs)
    ensures AllHead(Codes(fs), fs)
  {
    forall i | 0 <= i < |fs|
      ensures Heads(Codes(fs)[i], fs[i].kind, |fs[i].payload|)
    {}
  }

  /** On whole frames the walk visits exactly the frame starts, up to the first Sync, and stops there: no
      byte of any payload is ever taken for a type. */
  lemma WalkIsExact(before: Bytes, fs: seq<Frame>)
    requires AllFramesOk(fs)
    ensures WalkFrom(before + EncodeAll(fs), |before|) == Walk(StartsToSync(fs, |before|), HasSync(fs))
  {
    CodesHead(fs);
    CodesAt(before, Codes(fs), fs, []);
    assert EncodeAll(fs) + [] == EncodeAll(fs);
    WalkAll(before + EncodeAll(fs), |before|, fs);
  }

  /** A buffer that ends inside a frame, or right after it: that frame is visited exactly if the five bytes
      of its header arrived, and its `S` counts from then on. */
  lemma WalkCut(fs: seq<Frame>, f: Frame, cut: nat)
    requires AllFramesOk(fs) && FrameOk(f) && cut <= |Encode(f)|
    ensures var w := WalkFrom(EncodeAll(fs) + Encode(f)[..cut], 0);
            w.sync == (HasSync(fs) || (5 <= cut && f.kind == 'S' as int))
            && w.visited == StartsToSync(fs, 0) + if HasSync(fs) || cut < 5 then [] else [|EncodeAll(fs)|]
  {
    CodesHead(fs);
    var tail := Encode(f)[..cut];
    WalkCodes([], Codes(fs), fs, tail);
    assert [] + (EncodeAll(fs) + tail) == EncodeAll(fs) + tail;
    CutFrame(EncodeAll(fs), f, cut);
  }

  lemma CutFrame(before: Bytes, f: Frame, cut: nat)
    requires FrameOk(f) && cut <= |Encode(f)|
    ensures WalkFrom(before + Encode(f)[..cut], |before|)
         == if cut < 5 then Walk([], false) else Walk([|before|], f.kind == SYNC)
  {
    var data := before + Encode(f)[..cut];
    if 5 <= cut {
      assert data[|before|..][..5] == Encode(f)[..5];
      assert Length(data, |before|) == |f.payload| + 4;
    }
  }

  // ----- Draining -----------------------------------------------------------------------------

  /** What each further read of the client returns; past the end the read fails. */
  datatype Read = Data(bytes: Bytes) | Failed

  /** How many reads the second loop makes. */
  function ReadsUntilSync(chunks: seq<Read>): nat {
    if chunks == [] then 1
    else match chunks[0]
      case Failed => 1
      case Data(bytes) => if WalkFrom(bytes, 0).sync then 1 else 1 + ReadsUntilSync(chunks[1..])
  }

  method DrainExtendedQuery(data: Bytes, chunks: seq<Read>) returns (used: nat)
    ensures used == if WalkFrom(data, 0).sync then 0 else ReadsUntilSync(chunks)
  {
    var found, visited := FindSync(data);
    if found {
      return 0;
    }
    used := 0;
    assert chunks[0..] == chunks;
    while true
      invariant 0 <= used <= |chunks|
      invariant ReadsUntilSync(chunks) == used + ReadsUntilSync(chunks[used..])
      decreases |chunks| - used
    {
      var read := if used < |chunks| then chunks[used] else Failed;
      assert used < |chunks| ==> chunks[used..][1..] == chunks[used + 1..];
      used := used + 1;
      if read.Failed? {
        return;
      }
      found, visited := FindSync(read.bytes);
      if found {
        return;
      }
    }
  }

  predicate WholeFrames(chunks: seq<Read>, frames: seq<seq<Frame>>) {
    |chunks| == |frames| &&
    forall i | 0 <= i < |chunks| :: AllFramesOk(frames[i]) && chunks[i] == Data(EncodeAll(frames[i]))
  }

  /** Reads of whole frames without a Sync are all used up, and what follows decides. */
  lemma {:induction false} DrainPasses(chunks: seq<Read>, frames: seq<seq<Frame>>, more: seq<Read>)
    requires WholeFrames(chunks, frames)
    requires forall i | 0 <= i < |frames| :: !HasSync(frames[i])
    ensures ReadsUntilSync(chunks + more) == |chunks| + ReadsUntilSync(more)
    decreases |chunks|
  {
    if chunks == [] {
      assert chunks + more == more;
    } else {
      WalkIsExact([], frames[0]);
      assert [] + EncodeAll(frames[0]) == EncodeAll(frames[0]);
      assert (chunks + more)[1..] == chunks[1..] + more;
      DrainPasses(chunks[1..], frames[1..], more);
    }
  }

  /** After reads of whole frames without a Sync, a read that fails ends the draining, as does the end of the
      stream, where every read fails. */
  lemma DrainStopsAtFailure(chunks: seq<Read>, frames: seq<seq<Frame>>, more: seq<Read>)
    requires WholeFrames(chunks, frames)
    requires forall i | 0 <= i < |frames| :: !HasSync(frames[i])
    ensures ReadsUntilSync(chunks + ([Failed] + more)) == |chunks| + 1
    ensures ReadsUntilSync(chunks) == |chunks| + 1
  {
    DrainPasses(chunks, frames, [Failed] + more);
    DrainPasses(chunks, frames, []);
    assert chunks + [] == chunks;
  }

  /** After such reads, a read of frames of which the last may be cut ends the draining exactly if it holds
      the five header bytes of a Sync. */
  lemma DrainStopsAtSync(chunks: seq<Read>, frames: seq<seq<Frame>>, fs: seq<Frame>, f: Frame, cut: nat,
                         more: seq<Read>)
    requires WholeFrames(chunks, frames)
    requires forall i | 0 <= i < |frames| :: !HasSync(frames[i])
    requires AllFramesOk(fs) && FrameOk(f) && cut <= |Encode(f)|
    ensures ReadsUntilSync(chunks + ([Data(EncodeAll(fs) + Encode(f)[..cut])] + more)) == |chunks| + 1
        <==> (exists k | 0 <= k < |fs| :: fs[k].kind == 'S' as int) || (5 <= cut && f.kind == 'S' as int)
  {
    var last := [Data(EncodeAll(fs) + Encode(f)[..cut])];
    DrainPasses(chunks, frames, last + more);
    assert (last + more)[1..] == more;
    WalkCut(fs, f, cut);
  }

  /** But the loop starts every read at a frame: a Sync whose header is split over two reads is missed, and
      the client is asked for a third. */
  lemma SplitSyncMissed(cut: nat, more: seq<Read>)
    requires 0 < cut < 5
    ensures var sync := [83, 0, 0, 0, 4];
            sync == Encode(Frame('S' as int, []))
            && ReadsUntilSync([Data(sync[..cut]), Data(sync[cut..])] + more) == 2 + ReadsUntilSync(more)
  {
    var chunks := [Data([83, 0, 0, 0, 4][..cut]), Data([83, 0, 0, 0, 4][cut..])];
    assert (chunks + more)[1..][1..] == more;
  }

  /** And the rest of a frame split over two reads is taken for a frame of its own: a query that goes on with
      an `S` and four more bytes ends the draining without a Sync. */
  lemma RestTakenForSync(f: Frame, cut: nat, more: seq<Read>)
    requires FrameOk(f) && f.kind != 'S' as int && cut + 5 <= |Encode(f)|
    requires Encode(f)[cut] == 'S' as int
    ensures ReadsUntilSync([Data(Encode(f)[..cut]), Data(Encode(f)[cut..])] + more) == 2
  {
    var chunks := [Data(Encode(f)[..cut]), Data(Encode(f)[cut..])];
    CutFrame([], f, cut);
    assert [] + Encode(f)[..cut] == Encode(f)[..cut];
    assert (chunks + more)[1..][0] == chunks[1];
  }

  // ----- extractQuery, extractParseQuery ------------------------------------------------------

  function ExtractQuery(data: Bytes): Bytes {
    if |data| < 6 || data[0] != QUERY then []
    else
      var query := data[5..];
      if |query| > 0 && query[|query| - 1] == 0 then query[..|query| - 1] else query
  }

  /** Everything before the first zero byte. */
  function BeforeNul(s: Bytes): (t: Bytes)
    ensures |t| <= |s|
  {
    if s == [] || s[0] == 0 then [] else [s[0]] + BeforeNul(s[1..])
  }

  /** Everything after the first zero byte, or the whole if there is none. */
  function AfterNul(s: Bytes): Bytes {
    var k := |BeforeNul(s)|;
    if k < |s| then s[k + 1..] else s
  }

  lemma {:induction false} NulAt(s: Bytes, k: nat)
    requires k <= |s| && 0 !in s[..k] && (k < |s| ==> s[k] == 0)
    ensures BeforeNul(s) == s[..k]
    decreases k
  {
    if k > 0 {
      assert s[..k][0] == s[0] && s[1..][..k - 1] == s[..k][1..];
      NulAt(s[1..], k - 1);
    }
  }

  function ParseQuery(data: Bytes): Bytes {
    if |data| < 6 || data[0] != PARSE then [] else BeforeNul(AfterNul(data[5..]))
  }

  /** A loop over the bytes, up to the first zero or the end. */
  method FindNul(s: Bytes) returns (i: nat)
    ensures i == |BeforeNul(s)| && BeforeNul(s) == s[..i]
  {
    i := 0;
    while i < |s| && s[i] != 0
      invariant 0 <= i <= |s| && 0 !in s[..i]
    {
      i := i + 1;
    }
    NulAt(s, i);
  }

  method ExtractParseQuery(data: Bytes) returns (query: Bytes)
    ensures query == ParseQuery(data)
  {
    if |data| < 6 || data[0] != PARSE {
      return [];
    }
    var rest := data[5..];
    var i := FindNul(rest);
    if i < |rest| {
      rest := rest[i + 1..];
    }
    i := FindNul(rest);
    return rest[..i];
  }

  lemma FieldRead(field: Bytes, rest: Bytes)
    requires 0 !in field
    ensures BeforeNul(field + ([0] + rest)) == field && AfterNul(field + ([0] + rest)) == rest
  {
    var s := field + ([0] + rest);
    assert s[..|field|] == field && s[|field|] == 0;
    NulAt(s, |field|);
    assert s[|field| + 1..] == rest;
  }

  lemma FrameContents(kind: byte, payload: Bytes, after: Bytes)
    requires FrameOk(Frame(kind, payload))
    ensures var data := Encode(Frame(kind, payload)) + after; data[0] == kind && data[5..] == payload + after
  {
    var code := Encode(Frame(kind, payload));
    assert code[5..] == payload;
    assert (code + after)[5..] == code[5..] + after;
  }

  lemma ParsePayload(name: Bytes, query: Bytes, types: Bytes, after: Bytes)
    ensures name + [0] + query + [0] + types + after == name + ([0] + (query + ([0] + (types + after))))
  {}

  /** The query of a leading Parse frame is found whatever follows it in the frame and in the buffer. */
  lemma ParseFrameRead(name: Bytes, query: Bytes, types: Bytes, after: Bytes)
    requires 0 !in name && 0 !in query && FrameOk(Frame('P' as int, name + [0] + query + [0] + types))
    ensures ParseQuery(Encode(Frame('P' as int, name + [0] + query + [0] + types)) + after) == query
  {
    FrameContents(PARSE, name + [0] + query + [0] + types, after);
    ParsePayload(name, query, types, after);
    FieldRead(name, query + ([0] + (types + after)));
    FieldRead(query, types + after);
  }

  /** What is read where a zero byte is missing, as in a frame the buffer cuts off: without the second one
      the rest after the name, without any the name itself. */
  lemma CutParseRead(head: Bytes, name: Bytes, query: Bytes)
    requires |head| == 5 && head[0] == 'P' as int && 0 !in name && 0 !in query
    ensures ParseQuery(head + (name + ([0] + query))) == query
    ensures ParseQuery(head + name) == name
  {
    assert (head + (name + ([0] + query)))[5..] == name + ([0] + query) && (head + name)[5..] == name;
    FieldRead(name, query);
    NulAt(query, |query|);
    NulAt(name, |name|);
  }

  /** A Query frame is read back exactly when it is the whole buffer. */
  lemma QueryFrameRead(query: Bytes, after: Bytes)
    requires FrameOk(Frame('Q' as int, query + [0]))
    ensures ExtractQuery(Encode(Frame('Q' as int, query + [0])) + after) == query <==> after == []
  {
    var data := Encode(Frame(QUERY, query + [0])) + after;
    assert data[5..] == query + [0] + after;
    if after == [] {
      assert data[5..] == query + [0];
    }
  }

  /** A query the buffer cuts off is read as far as it goes. */
  lemma CutQueryRead(head: Bytes, query: Bytes)
    requires |head| == 5 && head[0] == 'Q' as int && 0 !in query
    ensures ExtractQuery(head + query) == query
  {
    assert (head + query)[5..] == query;
  }

  /** Buffers of any other type, and those with no byte after a header, hold no query. */
  lemma NoQuery(data: Bytes)
    ensures |data| <= 5 || data[0] != 'Q' as int ==> ExtractQuery(data) == []
    ensures |data| <= 5 || data[0] != 'P' as int ==> ParseQuery(data) == []
  {}
}
