# Chunk-source adapters of littlezip, modelled in Dafny

littlezip builds ZIP archives while streaming each entry's compressed data
from a pull function: every call returns either `{ value, done: false }`
(a chunk of bytes, possibly empty) or `{ done: true }`. The test driver
`test.ts` defines two such pull functions over a gzip `CompressionStream`
and hands each to the same archiver. The archive must not depend on how its
data is chunked:

- `byteByByteReadFn` keeps the reader's latest chunk and a cursor into it.
  Each call returns the next single byte. It reads a new chunk only when the
  current one is used up, and it passes the reader's `done` straight through.
- `singleChunkReadFn` drains the reader on its first call. It grows one
  buffer chunk by chunk, each time copying it into a new array as long as
  the old buffer plus the chunk. It returns the whole concatenation as one
  non-done value, and every later call returns `done`.

The model has five modules:

- `Chunks`: chunks as `seq<bv8>`, their concatenation `Concat`,
  `Uint8Array.subarray` (`Subarray`) and `Uint8Array.set` (`SetFrom`).
- `ChunkReader`: the stream's reader, a class over the fixed sequence of
  chunks the compression stream yields, with a read position.
- `ByteByByte`: the closure of `byteByByteReadFn` as a class with fields
  `buffer` and `bufferIndex`, plus `ByteTrace`, the exact sequence of values
  its non-done calls return.
- `SingleChunk`: the closure of `singleChunkReadFn` as a class with the
  fields `buffer` (an `array<bv8>` replaced on every chunk) and `returned`,
  plus `SingleTrace`, its one non-done value.
- `Invariance`: the archiver's view. It pulls either adapter until `done`,
  and it states that both deliver the reader's bytes unchanged and in order.

Each class carries a ghost field `emitted` that holds the values returned so
far, and an invariant `Valid()`. For the byte-granular adapter, `Valid()`
says that `emitted` followed by the values still pending is the whole of
`ByteTrace(chunks)`.

A pull source is not meant to be called after it reports `done`. Both
adapters still accept further calls, and the model follows them:
`byteByByteReadFn` asks the reader again and gets `done`,
`singleChunkReadFn` returns `done` without reading, and neither changes its
state.

## Model

| member | source | states |
|---|---|---|
| `ChunkReader.Reader.constructor` | test.ts:36-41 | the reader starts before the first chunk of the compression stream's output |
| `ChunkReader.Reader.Read` | test.ts:51 | `read()` returns the next chunk and advances by one; once the chunks are used up it reports `done`, with the empty chunk standing for the value `undefined`, and stays put |
| `Chunks.Subarray` | test.ts:49 | `subarray(begin, end)` is the window of `buf` from `begin` to `end`, both clamped to the length: its length is `min(end, len) - min(begin, len)`, its bytes are those of `buf` from `begin` on, and it is empty when `begin` is past the end |
| `Chunks.SubarrayOne` | test.ts:58 | a one-byte window is `[buf[i]]`, or empty past the end (an empty chunk gives an empty value) |
| `Chunks.SetFrom` | test.ts:87-88 | `target.set(source, offset)` puts `source` at `offset` and leaves the rest of `target` as it was |
| `Chunks.ConcatAppend` | test.ts:86-89 | concatenation splits where the chunk sequence splits, so appending chunk by chunk builds the whole concatenation |
| `Chunks.ConcatSingletons` | test.ts:47-60 | handing out a byte sequence one byte per value loses, repeats and reorders nothing |
| `ByteByByte.ByteTrace` | test.ts:47-60 | the values of the non-done calls: at least one per reader chunk |
| `ByteByByte.ByteTraceAtMostOne` | test.ts:49-58 | every non-done value holds at most one byte |
| `ByteByByte.ByteTraceAppend` | test.ts:47-60 | the values for two runs of chunks are the values for each run, one after the other |
| `ByteByByte.ByteTraceConcat` | test.ts:47-60 | joining all non-done values, in call order, gives exactly the bytes of the reader's chunks |
| `ByteByByte.ByteTraceNormalizes` | test.ts:47-60 | with no empty chunks the values are the stream's bytes, one per call, however the reader chunked them |
| `ByteByByte.ServeStep` | test.ts:48-49 | serving byte `bufferIndex` of the buffer removes exactly that byte from the front of what is still to come |
| `ByteByByte.ChunkStep` | test.ts:56-58 | a fresh chunk's first-byte window plus its remaining bytes is the chunk, and they head the values still to come |
| `ByteByByte.DeliveredBytes` | test.ts:48-58 | if the trace invariant holds, the bytes returned so far followed by the unserved buffered bytes are the bytes of the chunks read so far |
| `ByteByByte.ByteByByteReadFn.constructor` | test.ts:34-45 | no buffer and no output yet; the pending values are the whole trace of the stream's chunks |
| `ByteByByte.ByteByByteReadFn.Pull` | test.ts:47-60 | returns the next value of the trace (at most one byte), or `done` exactly when nothing is pending; buffered bytes are served without reading; the reader is read only when the buffer is used up, and its `done` is passed through; an empty value comes only from an empty chunk; `done` leaves the state unchanged and means all bytes went out |
| `ByteByByte.ByteByByteReadFn.ServeBuffered` | test.ts:48-50 | with a byte left in the buffer: returns `[buffer[bufferIndex]]`, advances the cursor by one, does not touch the reader |
| `ByteByByte.ByteByByteReadFn.ReadChunk` | test.ts:51-59 | with the buffer used up: reads once; on `done` returns it unchanged; otherwise the chunk becomes the buffer with the cursor at 1 and its first-byte window is returned |
| `ByteByByte.ByteByByteReadFn.DeliveredSoFar` | test.ts:47-60 | in every valid state, the bytes returned so far followed by the unserved buffered bytes are the bytes read so far; when nothing is pending, they are all of the stream's bytes |
| `SingleChunk.Grow` | test.ts:86-89 | the new buffer is as long as the old one plus the chunk, with the old buffer as its prefix and the chunk at offset `old length` |
| `SingleChunk.SingleChunkReadFn.constructor` | test.ts:63-74 | an empty buffer, `returned` false, nothing read |
| `SingleChunk.SingleChunkReadFn.Pull` | test.ts:76-91 | the first call drains the reader and returns one non-done value equal to the concatenation of all chunks (empty for an empty stream); afterwards `returned` is true and every later call returns `done` without touching the reader or the buffer |
| `Invariance.ChunkingInvariance` | test.ts:97 | over the same reader chunks both adapters deliver the same bytes before `done`, namely the stream's bytes |
| `Invariance.ByteByByteIgnoresChunking` | test.ts:47-60 | two chunkings of the same bytes without empty chunks make the byte-granular adapter return identical values |
| `Invariance.DrainByteByByte` | test.ts:97 | pulling the byte-granular adapter until `done` yields exactly `ByteTrace`, values of at most one byte, the stream's bytes, and one terminal call |
| `Invariance.DrainSingleChunk` | test.ts:97 | pulling the single-shot adapter until `done` yields one value holding the stream's bytes, in two calls |

## Left out

- `makeTestData` (test.ts:8-28) is left out. Its output comes from `Math.random` and `crypto.getRandomValues`, so there is no deterministic behaviour to state.
- The gzip compression inside `CompressionStream` (test.ts:36-41, test.ts:65-70) is a foreign library. Its output is a parameter: the chunk sequence handed to each constructor.
- `async`/`await` are left out. Each call of a pull function, and each `reader.read()`, is one sequential method call.
- A `read()` that rejects is not modelled. The model's reader never fails, so an error from the stream does not propagate.
- `test()` (test.ts:94-107) is I/O: writing files, running `unzip -t`, logging.
- `createZip` and all of the ZIP format are not part of this model: headers, CRC-32, data descriptors, the central directory and zip64. Their source is not among the files modelled. `Invariance.DrainByteByByte` and `Invariance.DrainSingleChunk` stand in for the archiver's read loop only.
- `ChunkReader.Reader.Read`: the `undefined` value that comes with `done` is modelled as the empty chunk. The same holds for the `done` results of both adapters (test.ts:53, test.ts:78). No caller reads that value.
- `Chunks.Subarray`: `subarray` returns a view that shares memory with the reader's chunk. It is modelled as a copy of the bytes, since nothing writes to those chunks.
- `SingleChunk.SingleChunkReadFn.Pull`: it returns the contents of `buffer`, not the array object itself, so aliasing between the returned value and the adapter's buffer is not captured.
- `Chunks.SetFrom`: the `RangeError` that `set` throws when the source does not fit is excluded by a precondition. Both call sites in test.ts:87-88 fit by construction.
- JavaScript number limits on `bufferIndex` and on buffer lengths (exact up to 2^53) are not modelled. Indices are unbounded naturals.
