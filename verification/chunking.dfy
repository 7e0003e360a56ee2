/** `chunked_iterable(seq, size)` (etl.py:111-113): consecutive slices
    `seq[i:i+size]` for `i` in `range(0, len(seq), size)`. */
module Chunking {
  import opened Wrappers
  import opened Seqs

  /** The slices for a positive step: none is empty, none is longer than
      `size`, and all but the last are exactly `size` long. */
  function Chunks<T>(s: seq<T>, size: nat): (r: seq<seq<T>>)
    requires size > 0
    ensures forall k :: 0 <= k < |r| ==> 0 < |r[k]| <= size
    ensures forall k :: 0 <= k < |r| - 1 ==> |r[k]| == size
    decreases |s|
  {
    if s == [] then []
    else if |s| <= size then [s]
    else [s[..size]] + Chunks(s[size..], size)
  }

  /** Concatenating the chunks gives back the input: no row is lost,
      repeated or reordered by chunking. */
  lemma {:induction false} ChunksFlatten<T>(s: seq<T>, size: nat)
    requires size > 0
    ensures Flatten(Chunks(s, size)) == s
    decreases |s|
  {
    if s == [] {
    } else if |s| <= size {
      assert Flatten([s]) == s + Flatten([]);
    } else {
      var rest := Chunks(s[size..], size);
      ChunksFlatten(s[size..], size);
      assert ([s[..size]] + rest)[1..] == rest;
      assert s[..size] + s[size..] == s;
    }
  }

  /** The start offset of chunk `k`: `k * size`, counted up one step at a time. */
  function Offset(k: nat, size: nat): nat {
    if k == 0 then 0 else Offset(k - 1, size) + size
  }

  lemma {:induction false} OffsetIsProduct(k: nat, size: nat)
    ensures Offset(k, size) == k * size
  {
    if k > 0 {
      OffsetIsProduct(k - 1, size);
      assert k * size == (k - 1) * size + size;
    }
  }

  /** Chunk `k` is exactly the slice `s[k*size : k*size + size]` (clamped at
      the end, as Python clamps slices). */
  lemma {:induction false} ChunkIsSlice<T>(s: seq<T>, size: nat, k: nat)
    requires size > 0
    requires k < |Chunks(s, size)|
    ensures Offset(k, size) < |s|
    ensures Chunks(s, size)[k] == s[Offset(k, size)..Min(Offset(k, size) + size, |s|)]
    decreases |s|
  {
    var r := Chunks(s, size);
    assert s != [];
    if |s| <= size {
      assert r == [s];
    } else {
      var t := s[size..];
      var rest := Chunks(t, size);
      assert r == [s[..size]] + rest;
      if k > 0 {
        assert r[k] == rest[k - 1];
        ChunkIsSlice(t, size, k - 1);
        var a := Offset(k - 1, size);
        assert Offset(k, size) == a + size;
        var e := Min(a + size, |t|);
        assert rest[k - 1] == t[a..e];
        SliceOfSuffix(s, size, a, e);
        assert e + size == Min(Offset(k, size) + size, |s|);
      }
    }
  }

  lemma SliceOfSuffix<T>(s: seq<T>, d: nat, a: nat, e: nat)
    requires d <= |s| && a <= e <= |s| - d
    ensures s[d..][a..e] == s[d + a..d + e]
  {
  }

  /** The chunks before chunk `k` hold exactly the first `k * size`
      elements. */
  lemma {:induction false} ChunksPrefix<T>(s: seq<T>, size: nat, k: nat)
    requires size > 0
    requires k < |Chunks(s, size)|
    ensures Offset(k, size) < |s|
    ensures Flatten(Chunks(s, size)[..k]) == s[..Offset(k, size)]
    decreases |s|
  {
    var r := Chunks(s, size);
    ChunkIsSlice(s, size, k);
    if k > 0 {
      assert |s| > size;
      var t := s[size..];
      var rest := Chunks(t, size);
      assert r == [s[..size]] + rest;
      ChunksPrefix(t, size, k - 1);
      assert r[..k] == [s[..size]] + rest[..k - 1];
      assert (r[..k])[1..] == rest[..k - 1];
      assert Flatten(r[..k]) == s[..size] + t[..Offset(k - 1, size)];
      assert s[..size] + t[..Offset(k - 1, size)] == s[..Offset(k, size)];
    } else {
      assert r[..k] == [];
    }
  }

  /** There is one chunk per start offset `0, size, 2*size, ...` below `len(s)`. */
  lemma {:induction false} ChunkCount<T>(s: seq<T>, size: nat)
    requires size > 0
    ensures |Chunks(s, size)| == 0 <==> |s| == 0
    ensures |Chunks(s, size)| > 0 ==>
      Offset(|Chunks(s, size)| - 1, size) < |s| <= Offset(|Chunks(s, size)|, size)
    decreases |s|
  {
    if |s| > size {
      ChunkCount(s[size..], size);
    }
  }

  /** Why `chunked_iterable` can yield nothing at all or stop the load. */
  datatype ChunkError = ZeroStep

  /** `chunked_iterable` for any integer step, with `range` semantics: a zero
      step raises (`range() arg 3 must not be zero`), a negative step yields no
      chunk at all, a positive one yields `Chunks`. */
  function ChunkedIterable<T>(s: seq<T>, size: int): (r: Result<seq<seq<T>>, ChunkError>)
    ensures size == 0 <==> r.Failure?
    ensures size < 0 ==> r == Success([])
    ensures size > 0 ==> r.Success? && Flatten(r.value) == s
  {
    if size == 0 then Failure(ZeroStep)
    else if size < 0 then Success([])
    else
      ChunksFlatten(s, size);
      Success(Chunks(s, size))
  }
}
