/**
 * The two adapters side by side, as the archiver sees them: it pulls from
 * a source until `done` and uses the bytes of the non-done values. Whatever
 * the granularity, those bytes are the compression stream's output.
 */
module Invariance {
  import opened Chunks
  import opened ByteByByte
  import opened SingleChunk

  /** Over the same reader chunks both adapters deliver the same bytes, in the same order. */
  lemma ChunkingInvariance(cs: seq<Chunk>)
    ensures Concat(ByteTrace(cs)) == Concat(SingleTrace(cs)) == Concat(cs)
  {
    ByteTraceConcat(cs);
    assert Concat(SingleTrace(cs)) == Concat(cs) + Concat([]);
  }

  /**
   * Two chunkings of the same bytes without empty chunks make the
   * byte-granular adapter return the very same values.
   */
  lemma ByteByByteIgnoresChunking(cs: seq<Chunk>, ds: seq<Chunk>)
    requires forall k :: 0 <= k < |cs| ==> cs[k] != []
    requires forall k :: 0 <= k < |ds| ==> ds[k] != []
    requires Concat(cs) == Concat(ds)
    ensures ByteTrace(cs) == ByteTrace(ds)
  {
    ByteTraceNormalizes(cs);
    ByteTraceNormalizes(ds);
  }

  /**
   * Drives a byte-granular source until `done`, collecting its values and
   * their bytes; `pulls` counts the calls, the terminal one included.
   */
  method DrainByteByByte(compressed: seq<Chunk>) returns (values: seq<Chunk>, bytes: seq<bv8>, pulls: nat)
    ensures values == ByteTrace(compressed)
    ensures bytes == Concat(compressed)
    ensures pulls == |values| + 1
    ensures forall k :: 0 <= k < |values| ==> |values[k]| <= 1
  {
    var source := new ByteByByteReadFn(compressed);
    values, bytes, pulls := [], [], 0;
    while true
      invariant fresh(source) && fresh(source.reader)
      invariant source.Valid() && source.reader.chunks == compressed
      invariant values == source.emitted && bytes == Concat(values) && pulls == |values|
      decreases |source.Pending()|
    {
      ghost var before := values;
      var value, done := source.Pull();
      pulls := pulls + 1;
      if done {
        break;
      }
      values, bytes := values + [value], bytes + value;
      assert bytes == Concat(values) by {
        ConcatSnoc(before, value);
      }
    }
    ByteTraceConcat(compressed);
    forall k | 0 <= k < |values|
      ensures |values[k]| <= 1
    {
      ByteTraceAtMostOne(compressed, k);
    }
  }

  /** Drives a single-shot source until `done`, the same way. */
  method DrainSingleChunk(compressed: seq<Chunk>) returns (values: seq<Chunk>, bytes: seq<bv8>, pulls: nat)
    ensures values == SingleTrace(compressed)
    ensures bytes == Concat(compressed)
    ensures pulls == 2
  {
    var source := new SingleChunkReadFn(compressed);
    values, bytes, pulls := [], [], 0;
    while true
      invariant fresh(source) && fresh(source.reader)
      invariant source.Valid() && source.reader.chunks == compressed
      invariant values == source.emitted && bytes == Concat(values) && pulls == |values|
      decreases if source.returned then 0 else 1
    {
      var value, done := source.Pull();
      pulls := pulls + 1;
      if done {
        break;
      }
      values, bytes := values + [value], bytes + value;
      assert bytes == Concat(values) by {
        assert Concat(values) == value + Concat([]);
      }
    }
  }
}
