/**
 * The read side of the gzip `CompressionStream` each adapter creates. Only
 * its output matters here: the chunks it yields, in order. Once they are
 * used up, every further `read()` reports `done`; the `undefined` value
 * that comes with it is modelled as the empty chunk.
 */
module ChunkReader {
  import opened Chunks

  class Reader {
    /** Everything the compression stream yields, chunk by chunk. */
    const chunks: seq<Chunk>
    /** How many chunks `Read` has handed out so far. */
    var pos: nat

    ghost predicate Valid()
      reads this
    {
      pos <= |chunks|
    }

    /** The chunks already handed out. */
    ghost function Consumed(): seq<Chunk>
      reads this
      requires Valid()
    {
      chunks[..pos]
    }

    /** The chunks still to come. */
    ghost function Remaining(): seq<Chunk>
      reads this
      requires Valid()
    {
      chunks[pos..]
    }

    constructor (chunks: seq<Chunk>)
      ensures Valid()
      ensures this.chunks == chunks && pos == 0
    {
      this.chunks := chunks;
      pos := 0;
    }

    /** `reader.read()`: the next chunk, or `done` once there is none. */
    method Read() returns (value: Chunk, done: bool)
      requires Valid()
      modifies this
      ensures Valid()
      ensures done <==> old(Remaining()) == []
      ensures done ==> value == [] && pos == old(pos)
      ensures !done ==> value == chunks[old(pos)] && pos == old(pos) + 1
      ensures !done ==> old(Remaining()) == [value] + Remaining()
      ensures !done ==> Consumed() == old(Consumed()) + [value]
    {
      if pos == |chunks| {
        value, done := [], true;
      } else {
        value, done := chunks[pos], false;
        pos := pos + 1;
        assert chunks[..pos] == chunks[..pos - 1] + [value];
        assert chunks[pos - 1..] == [value] + chunks[pos..];
      }
    }
  }
}
