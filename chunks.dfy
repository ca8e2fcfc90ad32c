/**
 * Byte chunks as a stream reader hands them out, their in-order
 * concatenation, and the two Uint8Array operations the adapters rely on:
 * `subarray` (a clamped window) and `set` (copy into place at an offset).
 */
module Chunks {

  /** One chunk of bytes, as a Uint8Array holds it. */
  type Chunk = seq<bv8>

  /** A value that may be absent (`undefined` on the TypeScript side). */
  datatype Option<+T> = None | Some(value: T)

  function Min(a: int, b: int): int
  {
    if a <= b then a else b
  }

  /** The bytes of all chunks, in order. */
  function Concat(cs: seq<Chunk>): seq<bv8>
  {
    if cs == [] then [] else cs[0] + Concat(cs[1..])
  }

  /** Concatenation distributes over appending chunk sequences. */
  lemma {:induction false} ConcatAppend(a: seq<Chunk>, b: seq<Chunk>)
    ensures Concat(a + b) == Concat(a) + Concat(b)
  {
    if a == [] {
      assert a + b == b;
    } else {
      assert (a + b)[1..] == a[1..] + b;
      ConcatAppend(a[1..], b);
    }
  }

  /** Appending one chunk appends its bytes. */
  lemma ConcatSnoc(a: seq<Chunk>, c: Chunk)
    ensures Concat(a + [c]) == Concat(a) + c
  {
    ConcatAppend(a, [c]);
    assert Concat([c]) == c + Concat([]);
  }

  /** Putting one element in front commutes with appending. */
  lemma ConsAssoc<T>(x: T, a: seq<T>, b: seq<T>)
    ensures ([x] + a) + b == [x] + (a + b)
  {
  }

  /** Appending is associative. */
  lemma SeqAssoc<T>(a: seq<T>, b: seq<T>, c: seq<T>)
    ensures (a + b) + c == a + (b + c)
  {
  }

  /** Moving one element across an append. */
  lemma SnocAssoc<T>(a: seq<T>, x: T, b: seq<T>)
    ensures (a + [x]) + b == a + ([x] + b)
  {
  }

  /** Each byte of `s` as a chunk of its own, in order. */
  function Singletons(s: seq<bv8>): (r: seq<Chunk>)
    ensures |r| == |s|
  {
    if s == [] then [] else [[s[0]]] + Singletons(s[1..])
  }

  /** The `k`-th singleton holds the `k`-th byte. */
  lemma {:induction false} SingletonsAt(s: seq<bv8>, k: nat)
    requires k < |s|
    ensures Singletons(s)[k] == [s[k]]
  {
    if k > 0 {
      SingletonsAt(s[1..], k - 1);
    }
  }

  /** Splitting a byte sequence into singletons and joining them again gives it back. */
  lemma {:induction false} ConcatSingletons(s: seq<bv8>)
    ensures Concat(Singletons(s)) == s
  {
    if s != [] {
      assert Singletons(s)[1..] == Singletons(s[1..]);
      ConcatSingletons(s[1..]);
    }
  }

  /** Singletons of a concatenation are the singletons of each part. */
  lemma SingletonsAppend(a: seq<bv8>, b: seq<bv8>)
    ensures Singletons(a + b) == Singletons(a) + Singletons(b)
  {
    forall k | 0 <= k < |a + b|
      ensures Singletons(a + b)[k] == (Singletons(a) + Singletons(b))[k]
    {
      SingletonsAt(a + b, k);
      if k < |a| {
        SingletonsAt(a, k);
      } else {
        SingletonsAt(b, k - |a|);
      }
    }
  }

  /**
   * `buf.subarray(begin, end)` for non-negative arguments: a window onto
   * `buf` that is clamped to its length and empty when `end` does not
   * exceed `begin`.
   */
  function Subarray(buf: seq<bv8>, begin: nat, end: nat): (r: seq<bv8>)
    ensures |r| <= |buf|
    ensures begin <= end ==> |r| <= end - begin
    ensures begin <= end <= |buf| ==> |r| == end - begin
    ensures begin <= end ==> |r| == Min(end, |buf|) - Min(begin, |buf|)
    ensures begin >= |buf| || end <= begin ==> r == []
    ensures forall k :: 0 <= k < |r| ==> begin + k < |buf| && r[k] == buf[begin + k]
  {
    var lo, hi := Min(begin, |buf|), Min(end, |buf|);
    if hi <= lo then [] else buf[lo..hi]
  }

  /** A one-byte window holds the byte at `i`, or nothing when `i` is past the end. */
  lemma SubarrayOne(buf: seq<bv8>, i: nat)
    ensures Subarray(buf, i, i + 1) == if i < |buf| then [buf[i]] else []
  {
  }

  /**
   * `target.set(source, offset)`: copies `source` into `target` starting at
   * `offset` and leaves every other element as it was.
   */
  method SetFrom(target: array<bv8>, source: seq<bv8>, offset: nat)
    requires offset + |source| <= target.Length
    modifies target
    ensures target[..] == old(target[..offset]) + source + old(target[offset + |source|..])
  {
    for i := 0 to |source|
      invariant forall k :: 0 <= k < target.Length ==>
        target[k] == if offset <= k < offset + i then source[k - offset] else old(target[k])
    {
      target[offset + i] := source[i];
    }
    ghost var want := old(target[..offset]) + source + old(target[offset + |source|..]);
    assert |want| == target.Length;
    forall k | 0 <= k < target.Length
      ensures target[..][k] == want[k]
    {
      if k < offset {
        assert want[k] == old(target[..offset])[k];
      } else if k < offset + |source| {
        assert want[k] == source[k - offset];
      } else {
        assert want[k] == old(target[offset + |source|..])[k - offset - |source|];
      }
    }
  }
}
