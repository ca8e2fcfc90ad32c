/**
 * `byteByByteReadFn`: a pull function that re-chunks the compression
 * stream's output into values of at most one byte. It keeps the reader's
 * latest chunk and a cursor into it; it serves the chunk's bytes one per
 * call and reads the next chunk only once the current one is used up.
 */
module ByteByByte {
  import opened Chunks
  import opened ChunkReader

  /**
   * The values one reader chunk turns into: one value per byte, or a single
   * empty value when the chunk itself is empty.
   */
  function ChunkSteps(c: Chunk): seq<Chunk>
  {
    if c == [] then [[]] else Singletons(c)
  }

  /**
   * The values of all non-done results, in call order, when the reader
   * yields `cs`. Every value holds at most one byte, and every chunk
   * accounts for at least one call.
   */
  function ByteTrace(cs: seq<Chunk>): (r: seq<Chunk>)
    ensures |r| >= |cs|
  {
    if cs == [] then [] else ChunkSteps(cs[0]) + ByteTrace(cs[1..])
  }

  /** Every value holds at most one byte. */
  lemma {:induction false} ByteTraceAtMostOne(cs: seq<Chunk>, k: nat)
    requires k < |ByteTrace(cs)|
    ensures |ByteTrace(cs)[k]| <= 1
  {
    var steps := ChunkSteps(cs[0]);
    if k < |steps| {
      if cs[0] != [] {
        SingletonsAt(cs[0], k);
      }
    } else {
      ByteTraceAtMostOne(cs[1..], k - |steps|);
    }
  }

  /** The trace of one chunk followed by more chunks. */
  lemma ByteTraceCons(c: Chunk, cs: seq<Chunk>)
    ensures ByteTrace([c] + cs) == ChunkSteps(c) + ByteTrace(cs)
  {
    assert ([c] + cs)[1..] == cs;
  }

  /** No byte is lost, repeated or reordered: the values join up to the reader's bytes. */
  lemma {:induction false} ByteTraceConcat(cs: seq<Chunk>)
    ensures Concat(ByteTrace(cs)) == Concat(cs)
  {
    if cs != [] {
      ConcatAppend(ChunkSteps(cs[0]), ByteTrace(cs[1..]));
      if cs[0] != [] {
        ConcatSingletons(cs[0]);
      }
      ByteTraceConcat(cs[1..]);
    }
  }

  /** The trace is computed chunk by chunk, so it splits where the chunks do. */
  lemma {:induction false} ByteTraceAppend(a: seq<Chunk>, b: seq<Chunk>)
    ensures ByteTrace(a + b) == ByteTrace(a) + ByteTrace(b)
  {
    if a == [] {
      assert a + b == b;
    } else {
      assert (a + b)[1..] == a[1..] + b;
      ByteTraceAppend(a[1..], b);
    }
  }

  /**
   * If the values returned so far, then the unserved bytes of the current
   * chunk one per call, then the trace of the unread chunks make up the
   * trace of `consumed + remaining`, then the bytes returned so far followed
   * by the unserved ones are exactly the bytes of the chunks read so far.
   */
  lemma DeliveredBytes(emitted: seq<Chunk>, unserved: Chunk, consumed: seq<Chunk>, remaining: seq<Chunk>)
    requires emitted + Singletons(unserved) + ByteTrace(remaining) == ByteTrace(consumed + remaining)
    ensures Concat(emitted) + unserved == Concat(consumed)
  {
    ByteTraceAppend(consumed, remaining);
    var whole := ByteTrace(consumed + remaining);
    var n := |whole| - |ByteTrace(remaining)|;
    assert emitted + Singletons(unserved) == whole[..n];
    assert ByteTrace(consumed) == whole[..n];
    ConcatAppend(emitted, Singletons(unserved));
    ConcatSingletons(unserved);
    ByteTraceConcat(consumed);
  }

  /**
   * Without empty chunks the adapter forgets how the reader chunked its
   * output: the calls return exactly the bytes, one per call.
   */
  lemma {:induction false} ByteTraceNormalizes(cs: seq<Chunk>)
    requires forall k :: 0 <= k < |cs| ==> cs[k] != []
    ensures ByteTrace(cs) == Singletons(Concat(cs))
  {
    if cs != [] {
      ByteTraceNormalizes(cs[1..]);
      SingletonsAppend(cs[0], Concat(cs[1..]));
    }
  }

  /** Serving byte `i` of chunk `b` takes the head off what is still to come. */
  lemma ServeStep(b: Chunk, i: nat, rest: seq<Chunk>)
    requires i < |b|
    ensures Subarray(b, i, i + 1) == [b[i]]
    ensures b[i..] == [b[i]] + b[i + 1..]
    ensures Singletons(b[i..]) + ByteTrace(rest) == [[b[i]]] + (Singletons(b[i + 1..]) + ByteTrace(rest))
  {
    SubarrayOne(b, i);
    assert b[i..] == [b[i]] + b[i + 1..];
    SingletonsAppend([b[i]], b[i + 1..]);
    ConsAssoc([b[i]], Singletons(b[i + 1..]), ByteTrace(rest));
  }

  /** The bytes of chunk `c` after its first one (none for an empty chunk). */
  function AfterFirst(c: Chunk): Chunk
  {
    if c == [] then [] else c[1..]
  }

  /**
   * Taking a fresh chunk `c` from the reader: its one-byte window and the
   * bytes left over split the trace of `[c] + rest` as head and tail.
   */
  lemma ChunkStep(c: Chunk, rest: seq<Chunk>)
    ensures Subarray(c, 0, 1) + AfterFirst(c) == c
    ensures ByteTrace([c] + rest) == [Subarray(c, 0, 1)] + (Singletons(AfterFirst(c)) + ByteTrace(rest))
  {
    ByteTraceCons(c, rest);
    SubarrayOne(c, 0);
    assert ChunkSteps(c) == [Subarray(c, 0, 1)] + Singletons(AfterFirst(c)) by {
      if c != [] {
        assert c == [c[0]] + c[1..];
        SingletonsAppend([c[0]], c[1..]);
      }
    }
    ConsAssoc(Subarray(c, 0, 1), Singletons(AfterFirst(c)), ByteTrace(rest));
  }

  /** The closure returned by `byteByByteReadFn`, with its captured state as fields. */
  class ByteByByteReadFn {
    const reader: Reader
    /** The reader's latest chunk; `None` until the first chunk arrives. */
    var buffer: Option<Chunk>
    var bufferIndex: nat
    /** The values of the non-done results returned so far, in call order. */
    ghost var emitted: seq<Chunk>

    /** The current chunk still has a byte to serve. */
    predicate HasBuffered()
      reads this
    {
      buffer.Some? && bufferIndex < |buffer.value|
    }

    /** The bytes of the current chunk not yet served. */
    ghost function Unserved(): Chunk
      reads this
    {
      if HasBuffered() then buffer.value[bufferIndex..] else []
    }

    /** The values that the remaining non-done calls will return. */
    ghost function Pending(): seq<Chunk>
      reads this, reader
      requires reader.Valid()
    {
      Singletons(Unserved()) + ByteTrace(reader.Remaining())
    }

    ghost predicate Valid()
      reads this, reader
    {
      && reader.Valid()
      // nothing is emitted before the reader has produced a chunk
      && (buffer.None? ==> reader.pos == 0 && emitted == [])
      // the cursor never runs more than one past the start of an empty chunk
      && (buffer.Some? ==> 1 <= bufferIndex && (bufferIndex <= |buffer.value| || bufferIndex == 1))
      // what was returned, then what is still to come, is the whole trace
      && emitted + Pending() == ByteTrace(reader.chunks)
    }

    /** `byteByByteReadFn(dataIn)`, where compressing `dataIn` yields `compressed`. */
    constructor (compressed: seq<Chunk>)
      ensures Valid() && fresh(reader)
      ensures reader.chunks == compressed && reader.pos == 0
      ensures buffer.None? && emitted == []
      ensures Pending() == ByteTrace(compressed)
    {
      reader := new Reader(compressed);
      buffer := None;
      bufferIndex := 0;
      emitted := [];
    }

    /** One call of the pull function. */
    method Pull() returns (value: Chunk, done: bool)
      requires Valid()
      modifies this, reader
      ensures Valid()
      // the result is the next value of the trace, or done once there is none
      ensures done <==> old(Pending()) == []
      ensures !done ==> old(Pending()) == [value] + Pending() && emitted == old(emitted) + [value]
      ensures done ==> value == [] && emitted == old(emitted) && emitted == ByteTrace(reader.chunks)
      ensures done ==> Concat(emitted) == Concat(reader.chunks)
      // the bytes returned so far and the unserved ones are what the reader has handed out
      ensures Concat(emitted) + Unserved() == Concat(reader.Consumed())
      ensures |value| <= 1
      // a buffered byte is served without reading
      ensures old(HasBuffered()) ==>
        && !done && value == [old(buffer).value[old(bufferIndex)]]
        && buffer == old(buffer) && bufferIndex == old(bufferIndex) + 1 && reader.pos == old(reader.pos)
      // otherwise the reader is read once, and its done is passed through
      ensures !old(HasBuffered()) ==> (done <==> old(reader.pos) == |reader.chunks|)
      ensures !old(HasBuffered()) && !done ==>
        && reader.pos == old(reader.pos) + 1 && buffer == Some(reader.chunks[old(reader.pos)])
        && bufferIndex == 1 && value == Subarray(buffer.value, 0, 1)
      // an empty value comes only from an empty chunk
      ensures !done && value == [] ==> !old(HasBuffered()) && buffer == Some([])
      // the terminal state stays put
      ensures done ==> buffer == old(buffer) && bufferIndex == old(bufferIndex) && reader.pos == old(reader.pos)
    {
      if HasBuffered() {
        value := ServeBuffered();
        done := false;
      } else {
        value, done := ReadChunk();
      }
      DeliveredSoFar();
    }

    /**
     * In every valid state the bytes returned so far, followed by the
     * unserved bytes of the current chunk, are the bytes the reader has
     * handed out; once nothing is pending, they are all of its bytes.
     */
    lemma DeliveredSoFar()
      requires Valid()
      ensures Concat(emitted) + Unserved() == Concat(reader.Consumed())
      ensures Pending() == [] ==> Concat(emitted) == Concat(reader.chunks)
    {
      ghost var c, r, u := reader.Consumed(), reader.Remaining(), Unserved();
      assert reader.chunks == c + r;
      assert Pending() == Singletons(u) + ByteTrace(r);
      SeqAssoc(emitted, Singletons(u), ByteTrace(r));
      DeliveredBytes(emitted, u, c, r);
      if Pending() == [] {
        assert c == reader.chunks;
      }
    }

    /** The first branch of the pull function: the next byte of the current chunk. */
    method ServeBuffered() returns (value: Chunk)
      requires Valid() && HasBuffered()
      modifies this
      ensures Valid()
      ensures old(Pending()) == [value] + Pending() && emitted == old(emitted) + [value]
      ensures value == [old(buffer).value[old(bufferIndex)]]
      ensures buffer == old(buffer) && bufferIndex == old(bufferIndex) + 1
    {
      ghost var e0, p0, b, i, rest := emitted, Pending(), buffer.value, bufferIndex, reader.Remaining();
      assert p0 == Singletons(b[i..]) + ByteTrace(rest);
      value := Subarray(buffer.value, bufferIndex, bufferIndex + 1);
      bufferIndex := bufferIndex + 1;
      emitted := e0 + [value];
      assert value == [b[i]] by {
        SubarrayOne(b, i);
      }
      ghost var p1 := Pending();
      assert p1 == Singletons(b[i + 1..]) + ByteTrace(rest) by {
        assert Unserved() == b[i + 1..];
      }
      assert p0 == [value] + p1 by {
        ServeStep(b, i, rest);
      }
      assert emitted + p1 == ByteTrace(reader.chunks) by {
        SnocAssoc(e0, value, p1);
      }
    }

    /**
     * The second branch: the current chunk is used up, so ask the reader.
     * Its `done` is passed straight through; a new chunk replaces the
     * buffer and its first byte (if any) is returned.
     */
    method ReadChunk() returns (value: Chunk, done: bool)
      requires Valid() && !HasBuffered()
      modifies this, reader
      ensures Valid()
      ensures done <==> old(reader.pos) == |reader.chunks|
      ensures done <==> old(Pending()) == []
      ensures !done ==> old(Pending()) == [value] + Pending() && emitted == old(emitted) + [value]
      ensures done ==> value == [] && emitted == old(emitted)
      ensures done ==> buffer == old(buffer) && bufferIndex == old(bufferIndex) && reader.pos == old(reader.pos)
      ensures !done ==>
        && reader.pos == old(reader.pos) + 1 && buffer == Some(reader.chunks[old(reader.pos)])
        && bufferIndex == 1 && value == Subarray(buffer.value, 0, 1)
    {
      ghost var e0, p0 := emitted, Pending();
      assert p0 == ByteTrace(reader.Remaining());
      var chunk, readerDone := reader.Read();
      if readerDone {
        value, done := chunk, true;
        return;
      }
      ghost var rest := reader.Remaining();
      buffer := Some(chunk);
      bufferIndex := 0;
      value := Subarray(buffer.value, bufferIndex, bufferIndex + 1);
      bufferIndex := bufferIndex + 1;
      done := false;
      emitted := e0 + [value];
      ghost var p1 := Pending();
      assert p1 == Singletons(AfterFirst(chunk)) + ByteTrace(rest) by {
        assert Unserved() == AfterFirst(chunk);
      }
      assert p0 == [value] + p1 by {
        ChunkStep(chunk, rest);
      }
      assert emitted + p1 == ByteTrace(reader.chunks) by {
        SnocAssoc(e0, value, p1);
      }
    }
  }
}
