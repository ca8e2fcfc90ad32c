/**
 * `singleChunkReadFn`: a pull function that drains the compression stream
 * on its first call, growing one buffer chunk by chunk, and returns the
 * whole concatenation as a single non-done value. Every later call reports
 * `done` without touching the reader.
 */
module SingleChunk {
  import opened Chunks
  import opened ChunkReader

  /**
   * One step of the drain loop: a new array as long as both parts, with the
   * old buffer copied to its start and the chunk copied at offset
   * `buffer.Length`.
   */
  method Grow(buffer: array<bv8>, chunk: Chunk) returns (newBuffer: array<bv8>)
    ensures fresh(newBuffer)
    ensures newBuffer.Length == buffer.Length + |chunk|
    ensures newBuffer[..buffer.Length] == buffer[..]
    ensures newBuffer[buffer.Length..] == chunk
    ensures newBuffer[..] == buffer[..] + chunk
  {
    newBuffer := new bv8[buffer.Length + |chunk|];
    SetFrom(newBuffer, buffer[..], 0);
    SetFrom(newBuffer, chunk, buffer.Length);
  }

  /** The non-done values of the single-shot adapter, in call order: one value holding every byte. */
  function SingleTrace(cs: seq<Chunk>): seq<Chunk>
  {
    [Concat(cs)]
  }

  /** The closure returned by `singleChunkReadFn`, with its captured state as fields. */
  class SingleChunkReadFn {
    const reader: Reader
    /** The bytes gathered so far; replaced by a new array on every chunk. */
    var buffer: array<bv8>
    /** The single non-done result has been returned. */
    var returned: bool
    /** The values of the non-done results returned so far, in call order. */
    ghost var emitted: seq<Chunk>

    ghost predicate Valid()
      reads this, reader, buffer
    {
      && reader.Valid()
      // before the first call nothing has been read or returned
      && (!returned ==> reader.pos == 0 && buffer.Length == 0 && emitted == [])
      // afterwards the reader is drained and its bytes went out in one value
      && (returned ==> reader.pos == |reader.chunks| && buffer[..] == Concat(reader.chunks) && emitted == SingleTrace(reader.chunks))
    }

    /** `singleChunkReadFn(dataIn)`, where compressing `dataIn` yields `compressed`. */
    constructor (compressed: seq<Chunk>)
      ensures Valid() && fresh(reader) && fresh(buffer)
      ensures reader.chunks == compressed && reader.pos == 0
      ensures !returned && buffer.Length == 0 && emitted == []
    {
      reader := new Reader(compressed);
      buffer := new bv8[0];
      returned := false;
      emitted := [];
    }

    /** One call of the pull function. */
    method Pull() returns (value: Chunk, done: bool)
      requires Valid()
      modifies this, reader
      ensures Valid() && returned
      ensures done == old(returned)
      // the first call returns every byte of the reader as one value, even when there are none
      ensures !done ==> value == Concat(reader.chunks) && emitted == old(emitted) + [value]
      ensures !done ==> reader.pos == |reader.chunks| && old(reader.pos) == 0
      // later calls report done and change nothing
      ensures done ==> value == [] && reader.pos == old(reader.pos) && buffer == old(buffer) && emitted == old(emitted)
      ensures emitted == SingleTrace(reader.chunks)
    {
      if returned {
        return [], true;
      }
      while true
        invariant reader.Valid() && !returned && emitted == []
        invariant buffer[..] == Concat(reader.Consumed())
        decreases |reader.chunks| - reader.pos
      {
        ghost var consumed := reader.Consumed();
        var chunk, readerDone := reader.Read();
        if readerDone {
          assert reader.Consumed() == reader.chunks;
          returned := true;
          value, done := buffer[..], false;
          emitted := [value];
          return;
        }
        buffer := Grow(buffer, chunk);
        ConcatSnoc(consumed, chunk);
      }
    }
  }
}
