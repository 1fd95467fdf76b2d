/**
 * How a bulk delivery cuts a message list: consecutive slices of
 * MaxMessageSize messages, the last one holding whatever is left.
 */
module Chunking {
  import opened Config

  /** Math.min. */
  function Min(a: int, b: int): (m: int)
    ensures m <= a && m <= b && (m == a || m == b)
  {
    if a < b then a else b
  }

  /** The slices of `s`, front to back: each takes the next MaxMessageSize elements, or all that remain. */
  function Chunks<T>(s: seq<T>): seq<seq<T>>
    decreases |s|
  {
    if |s| == 0 then []
    else
      var k := Min(MaxMessageSize, |s|);
      [s[..k]] + Chunks(s[k..])
  }

  /** The slices joined back together, in order. */
  function Flatten<T>(ss: seq<seq<T>>): seq<T>
    decreases |ss|
  {
    if |ss| == 0 then [] else ss[0] + Flatten(ss[1..])
  }

  /** The number of slices of a list of `n` elements: n / MaxMessageSize rounded up. */
  function ChunkCount(n: nat): nat
  {
    (n + MaxMessageSize - 1) / MaxMessageSize
  }

  /** The slices cover the list with no gap and no overlap, in the original order. */
  lemma {:induction false} FlattenChunks<T>(s: seq<T>)
    ensures Flatten(Chunks(s)) == s
    decreases |s|
  {
    if |s| > 0 {
      var k := Min(MaxMessageSize, |s|);
      FlattenChunks(s[k..]);
      assert Chunks(s)[1..] == Chunks(s[k..]);
      assert s == s[..k] + s[k..];
    }
  }

  /** There are ChunkCount(|s|) slices. */
  lemma {:induction false} ChunkCountOf<T>(s: seq<T>)
    ensures |Chunks(s)| == ChunkCount(|s|)
    decreases |s|
  {
    if |s| > 0 {
      ChunkCountOf(s[Min(MaxMessageSize, |s|)..]);
    }
  }

  /** Slice `j` starts at j * MaxMessageSize and runs to the next multiple of MaxMessageSize or the end. */
  lemma {:induction false} ChunkIndex<T>(s: seq<T>, j: nat)
    requires j < |Chunks(s)|
    ensures j * MaxMessageSize < |s|
    ensures Chunks(s)[j] == s[j * MaxMessageSize .. Min(j * MaxMessageSize + MaxMessageSize, |s|)]
    decreases j
  {
    var k := Min(MaxMessageSize, |s|);
    var rest := s[k..];
    assert Chunks(s) == [s[..k]] + Chunks(rest);
    if j > 0 {
      ChunkIndex(rest, j - 1);
      var lo := (j - 1) * MaxMessageSize;
      var hi := Min(lo + MaxMessageSize, |rest|);
      assert k == MaxMessageSize && k + lo == j * MaxMessageSize;
      assert k + hi == Min(j * MaxMessageSize + MaxMessageSize, |s|);
      assert rest[lo .. hi] == s[k + lo .. k + hi];
    }
  }

  /**
   * Slice `j` is the elements from j * MaxMessageSize up to the next multiple
   * of MaxMessageSize or the end, and there are ChunkCount(|s|) slices.
   */
  lemma ChunkAt<T>(s: seq<T>)
    ensures |Chunks(s)| == ChunkCount(|s|)
    ensures forall j | 0 <= j < |Chunks(s)| ::
      j * MaxMessageSize < |s| &&
      Chunks(s)[j] == s[j * MaxMessageSize .. Min(j * MaxMessageSize + MaxMessageSize, |s|)]
  {
    ChunkCountOf(s);
    forall j | 0 <= j < |Chunks(s)|
      ensures j * MaxMessageSize < |s|
      ensures Chunks(s)[j] == s[j * MaxMessageSize .. Min(j * MaxMessageSize + MaxMessageSize, |s|)]
    {
      ChunkIndex(s, j);
    }
  }

  /** Every slice holds between 1 and MaxMessageSize elements, and all but the last hold exactly MaxMessageSize. */
  lemma ChunkSizes<T>(s: seq<T>)
    ensures forall j | 0 <= j < |Chunks(s)| :: 1 <= |Chunks(s)[j]| <= MaxMessageSize
    ensures forall j | 0 <= j < |Chunks(s)| - 1 :: |Chunks(s)[j]| == MaxMessageSize
  {
    ChunkAt(s);
    var cs := Chunks(s);
    forall j | 0 <= j < |cs| - 1
      ensures |cs[j]| == MaxMessageSize
    {
      assert (j + 1) * MaxMessageSize < |s|;
    }
  }

  /** A list of 2 * MaxMessageSize + k elements, 0 < k < MaxMessageSize, is sent as three slices of MaxMessageSize, MaxMessageSize and k. */
  lemma ThreeChunks<T>(s: seq<T>, k: nat)
    requires 0 < k < MaxMessageSize && |s| == 2 * MaxMessageSize + k
    ensures |Chunks(s)| == 3
    ensures |Chunks(s)[0]| == MaxMessageSize && |Chunks(s)[1]| == MaxMessageSize && |Chunks(s)[2]| == k
  {
    ChunkAt(s);
  }
}
