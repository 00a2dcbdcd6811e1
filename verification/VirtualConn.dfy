/** The virtual handshake connection of pkg/proxy/conn.go: reads come from a prepared buffer, then from the
    backend connection; the first write is swallowed. */
module VirtualConn {
  import opened Frames

  function Min(a: nat, b: nat): nat {
    if a <= b then a else b
  }

  /** The real connection. `incoming` is everything the backend is still going to send. */
  class Backend {
    var incoming: Bytes
    var written: seq<Bytes>

    constructor (incoming: Bytes)
      ensures this.incoming == incoming && written == []
    {
      this.incoming := incoming;
      written := [];
    }

    /** Some of the next bytes, at most `size`; the end of the stream only when nothing is left. */
    method Read(size: nat) returns (out: Bytes, eof: bool)
      modifies this`incoming
      ensures old(incoming) == out + incoming && |out| <= size
      ensures size > 0 && old(incoming) != [] ==> |out| > 0
      ensures eof <==> size > 0 && old(incoming) == []
    {
      var n: nat :| n <= size && n <= |incoming| && (size > 0 && |incoming| > 0 ==> n > 0);
      out := incoming[..n];
      incoming := incoming[n..];
      eof := n == 0 && size > 0 && |incoming| == 0;
    }

    method Write(b: Bytes) returns (n: nat)
      modifies this`written
      ensures written == old(written) + [b] && n == |b|
    {
      written := written + [b];
      n := |b|;
    }
  }

  class BytesReader {
    const data: Bytes
    var pos: nat

    constructor (data: Bytes)
      ensures this.data == data && pos == 0
    {
      this.data := data;
      pos := 0;
    }

    predicate Valid()
      reads this
    {
      pos <= |data|
    }

    function Left(): Bytes
      requires Valid()
      reads this
    {
      data[pos..]
    }

    /** `copy` fills as much of the caller's buffer as it can; a used-up reader reports the end. */
    method Read(size: nat) returns (out: Bytes, eof: bool)
      requires Valid()
      modifies this`pos
      ensures Valid() && old(Left()) == out + Left()
      ensures eof <==> old(Left()) == []
      ensures !eof ==> |out| == Min(size, |old(Left())|)
    {
      if pos >= |data| {
        return [], true;
      }
      var n := Min(size, |data| - pos);
      out := data[pos..pos + n];
      pos := pos + n;
      eof := false;
    }
  }

  class VirtualHandshakeConn {
    const backend: Backend
    const handshake: BytesReader
    var readersLeft: nat      // of the two readers of the io.MultiReader
    var startupEaten: bool

    constructor (backend: Backend, handshakeData: Bytes)
      ensures Valid() && fresh(handshake) && this.backend == backend && !startupEaten
      ensures Remaining() == handshakeData + backend.incoming
    {
      this.backend := backend;
      handshake := new BytesReader(handshakeData);
      readersLeft := 2;
      startupEaten := false;
    }

    predicate Valid()
      reads this, handshake, backend
    {
      && readersLeft <= 2 && handshake.Valid()
      && (readersLeft < 2 ==> handshake.Left() == []) && (readersLeft == 0 ==> backend.incoming == [])
    }

    /** The one stream the caller sees: the rest of the handshake, then the backend's bytes. */
    function Remaining(): Bytes
      requires Valid()
      reads this, handshake, backend
    {
      handshake.Left() + backend.incoming
    }

    /** `io.MultiReader`: a reader at its end is dropped and the next one asked in the same call. */
    method Read(size: nat) returns (out: Bytes, eof: bool)
      requires Valid()
      modifies this`readersLeft, handshake`pos, backend`incoming
      ensures Valid() && old(Remaining()) == out + Remaining()
      ensures |out| <= size
      ensures size > 0 && old(Remaining()) != [] ==> |out| > 0
      ensures size > 0 ==> (eof <==> old(Remaining()) == [])
      ensures eof ==> out == [] && Remaining() == []
      ensures old(handshake.Left()) != [] ==> |out| == Min(size, |old(handshake.Left())|)
    {
      while readersLeft > 0
        invariant Valid() && Remaining() == old(Remaining())
        invariant handshake.Left() == old(handshake.Left()) && backend.incoming == old(backend.incoming)
        invariant readersLeft <= old(readersLeft)
        invariant readersLeft < old(readersLeft) ==> old(handshake.Left()) == []
        decreases readersLeft
      {
        ghost var before := handshake.Left();
        if readersLeft == 2 {
          out, eof := handshake.Read(size);
          assert before + backend.incoming == out + (handshake.Left() + backend.incoming);
        } else {
          out, eof := backend.Read(size);
        }
        if eof {
          readersLeft := readersLeft - 1;
        }
        if |out| > 0 || !eof {
          if eof && readersLeft > 0 {
            eof := false;
          }
          return out, eof;
        }
      }
      return [], true;
    }

    method Write(b: Bytes) returns (n: nat)
      modifies this`startupEaten, backend`written
      ensures startupEaten && n == |b|
      ensures backend.written == if old(startupEaten) then old(backend.written) + [b] else old(backend.written)
    {
      if !startupEaten {
        startupEaten := true;
        return |b|;
      }
      n := backend.Write(b);
    }
  }

  // ----- Sequences of calls -------------------------------------------------------------------

  function Flatten(outs: seq<Bytes>): Bytes {
    if outs == [] then [] else Flatten(outs[..|outs| - 1]) + outs[|outs| - 1]
  }

  /** For every sequence of reads of any sizes, what was delivered followed by what is left is the handshake
      data followed by the backend's bytes: nothing is lost or repeated at the boundary. As many reads of at least
      one byte as there are bytes deliver everything. */
  method ReadAll(conn: VirtualHandshakeConn, sizes: seq<nat>) returns (outs: seq<Bytes>)
    requires conn.Valid()
    modifies conn`readersLeft, conn.handshake`pos, conn.backend`incoming
    ensures conn.Valid() && old(conn.Remaining()) == Flatten(outs) + conn.Remaining()
    ensures |outs| == |sizes| && forall i | 0 <= i < |sizes| :: |outs[i]| <= sizes[i]
    ensures (forall i | 0 <= i < |sizes| :: sizes[i] > 0) && |sizes| >= |old(conn.Remaining())| ==>
              Flatten(outs) == old(conn.Remaining())
  {
    outs := [];
    for i := 0 to |sizes|
      invariant conn.Valid() && old(conn.Remaining()) == Flatten(outs) + conn.Remaining()
      invariant |outs| == i && forall j | 0 <= j < i :: |outs[j]| <= sizes[j]
      invariant (forall j | 0 <= j < i :: sizes[j] > 0) ==> conn.Remaining() == [] || |Flatten(outs)| >= i
    {
      ghost var before := conn.Remaining();
      var out, eof := conn.Read(sizes[i]);
      assert Flatten(outs) + (out + conn.Remaining()) == Flatten(outs) + out + conn.Remaining();
      assert (outs + [out])[..|outs|] == outs;
      outs := outs + [out];
    }
  }

  /** The backend receives all writes but the first. */
  method WriteAll(conn: VirtualHandshakeConn, bs: seq<Bytes>)
    requires !conn.startupEaten
    modifies conn`startupEaten, conn.backend`written
    ensures conn.backend.written == old(conn.backend.written) + if bs == [] then [] else bs[1..]
  {
    for i := 0 to |bs|
      invariant conn.startupEaten <==> i > 0
      invariant conn.backend.written == old(conn.backend.written) + if i == 0 then [] else bs[1..i]
    {
      var n := conn.Write(bs[i]);
      if i > 0 {
        assert bs[1..i + 1] == bs[1..i] + [bs[i]];
      }
    }
    assert bs != [] ==> bs[1..|bs|] == bs[1..];
  }
}
