/** The generic list chunker (`ChunkList`). */
module Chunking {

  function Min(a: int, b: int): (m: int)
  {
    if a <= b then a else b
  }

  /** The chunks of `s`: consecutive runs of `n` elements, the last one possibly shorter. */
  function Chunks<T>(s: seq<T>, n: int): (chunks: seq<seq<T>>)
    requires n > 0 || s == []
    decreases |s|
  {
    if s == [] then [] else [s[..Min(n, |s|)]] + Chunks(s[Min(n, |s|)..], n)
  }

  /** The concatenation of a list of lists. */
  function Flatten<T>(chunks: seq<seq<T>>): (s: seq<T>)
  {
    if chunks == [] then [] else chunks[0] + Flatten(chunks[1..])
  }

  /** Walks the list in steps of `chunkSize`, copying out each range of at most
      `chunkSize` elements. */
  method ChunkList<T>(source: seq<T>, chunkSize: int) returns (chunks: seq<seq<T>>)
    requires chunkSize > 0 || source == []
    ensures chunks == Chunks(source, chunkSize)
  {
    chunks := [];
    var i := 0;
    while i < |source|
      invariant 0 <= i
      invariant chunks + Chunks(source[Min(i, |source|)..], chunkSize) == Chunks(source, chunkSize)
      decreases |source| - i
    {
      var count := Min(chunkSize, |source| - i);
      var chunk := source[i..i + count];
      assert source[i..][..count] == chunk;
      assert source[i..][count..] == source[i + count..];
      chunks := chunks + [chunk];
      i := i + chunkSize;
      assert Min(i, |source|) == i - chunkSize + count;
    }
    assert Chunks(source[|source|..], chunkSize) == [];
    assert chunks + [] == chunks;
  }

  /** Concatenating the chunks gives back the list. */
  lemma {:induction false} ChunksFlatten<T>(s: seq<T>, n: int)
    requires n > 0 || s == []
    ensures Flatten(Chunks(s, n)) == s
    decreases |s|
  {
    if s != [] {
      var m := Min(n, |s|);
      var rest := Chunks(s[m..], n);
      assert ([s[..m]] + rest)[1..] == rest;
      ChunksFlatten(s[m..], n);
      assert s[..m] + s[m..] == s;
    }
  }

  /** Every chunk is non-empty and holds at most `n` elements; all but the last hold exactly `n`. */
  lemma {:induction false} ChunksSizes<T>(s: seq<T>, n: int)
    requires n > 0 || s == []
    ensures forall k :: 0 <= k < |Chunks(s, n)| ==> 0 < |Chunks(s, n)[k]| <= n
    ensures forall k :: 0 <= k < |Chunks(s, n)| - 1 ==> |Chunks(s, n)[k]| == n
    decreases |s|
  {
    if s != [] {
      var m := Min(n, |s|);
      var rest := Chunks(s[m..], n);
      ChunksSizes(s[m..], n);
      assert Chunks(s, n) == [s[..m]] + rest;
      assert |rest| > 0 ==> m == n;
    }
  }

  /** There are as few chunks as can hold the list: `n` times one chunk fewer does not reach
      its length, `n` times the number of chunks does. */
  lemma {:induction false} ChunksCountBounds<T>(s: seq<T>, n: int)
    requires n > 0
    ensures (|Chunks(s, n)| - 1) * n < |s| <= |Chunks(s, n)| * n
    decreases |s|
  {
    if s != [] {
      var m := Min(n, |s|);
      var q := |Chunks(s[m..], n)|;
      ChunksCountBounds(s[m..], n);
      if |s| <= n {
        assert q == 0;
      } else {
        assert (q + 1) * n == q * n + n;
      }
    }
  }

  lemma MulAtLeast(x: int, n: int)
    requires x >= 1 && n > 0
    ensures x * n >= n
  {
  }

  lemma DivisionByBounds(a: int, n: int, q: int)
    requires n > 0 && q * n <= a < q * n + n
    ensures a / n == q
  {
    var r := a / n;
    assert a == r * n + a % n;
    if r < q {
      assert (q - r) * n == q * n - r * n;
      MulAtLeast(q - r, n);
    } else if r > q {
      assert (r - q) * n == r * n - q * n;
      MulAtLeast(r - q, n);
    }
  }

  /** The number of chunks is the length divided by `n`, rounded up. */
  lemma ChunksCount<T>(s: seq<T>, n: int)
    requires n > 0
    ensures |Chunks(s, n)| == (|s| + n - 1) / n
  {
    var q := |Chunks(s, n)|;
    ChunksCountBounds(s, n);
    assert (q - 1) * n == q * n - n;
    DivisionByBounds(|s| + n - 1, n, q);
  }
}
