/** Cutting the queued batch items into consecutive slices of a fixed size,
    as `for i in range(0, len(items), size): items[i:i+size]` does. */
module Chunking {

  function Chunks<T>(items: seq<T>, size: nat): seq<seq<T>>
    requires size > 0
    decreases |items|
  {
    if items == [] then []
    else if |items| <= size then [items]
    else [items[..size]] + Chunks(items[size..], size)
  }

  function Flatten<T>(xss: seq<seq<T>>): seq<T>
    decreases |xss|
  {
    if xss == [] then [] else xss[0] + Flatten(xss[1..])
  }

  /** Number of chunks that reached the full size. */
  function CountFull<T>(xss: seq<seq<T>>, size: nat): nat
    decreases |xss|
  {
    if xss == [] then 0 else (if |xss[0]| >= size then 1 else 0) + CountFull(xss[1..], size)
  }

  /** The slices cover every item exactly once, in order. */
  lemma {:induction false} ChunksCover<T>(items: seq<T>, size: nat)
    requires size > 0
    ensures Flatten(Chunks(items, size)) == items
    decreases |items|
  {
    if items != [] && |items| > size {
      ChunksCover(items[size..], size);
      assert items == items[..size] + items[size..];
    }
  }

  /** Every slice is non-empty and at most `size` long, and every slice but
      the last is exactly `size` long. */
  lemma {:induction false} ChunksShape<T>(items: seq<T>, size: nat)
    requires size > 0
    ensures forall i | 0 <= i < |Chunks(items, size)| :: 0 < |Chunks(items, size)[i]| <= size
    ensures forall i | 0 <= i < |Chunks(items, size)| - 1 :: |Chunks(items, size)[i]| == size
    decreases |items|
  {
    if items != [] && |items| > size {
      ChunksShape(items[size..], size);
      var r := Chunks(items, size);
      assert forall i | 1 <= i < |r| :: r[i] == Chunks(items[size..], size)[i - 1];
    }
  }

  /** The number of full slices is |items| / size: the pauses taken after
      full slices number exactly the whole multiples of the slice size. */
  lemma {:induction false} CountFullChunks<T>(items: seq<T>, size: nat)
    requires size > 0
    ensures CountFull(Chunks(items, size), size) * size <= |items|
    ensures |items| < (CountFull(Chunks(items, size), size) + 1) * size
    decreases |items|
  {
    if items == [] {
    } else if |items| <= size {
      assert Chunks(items, size) == [items];
      assert Chunks(items, size)[1..] == [];
    } else {
      var rest := Chunks(items[size..], size);
      CountFullChunks(items[size..], size);
      assert Chunks(items, size)[1..] == rest;
      var c := CountFull(rest, size);
      assert CountFull(Chunks(items, size), size) == c + 1;
      assert (c + 1) * size == c * size + size;
      assert (c + 2) * size == (c + 1) * size + size;
    }
  }

  /** One more step of the slicing loop: the slice starting at `i`. */
  lemma ChunksStep<T>(items: seq<T>, size: nat, i: nat)
    requires size > 0 && i < |items|
    ensures var j := if i + size <= |items| then i + size else |items|;
      Chunks(items[i..], size) == [items[i..j]] + Chunks(items[j..], size)
  {
    var j := if i + size <= |items| then i + size else |items|;
    if |items[i..]| <= size {
      assert items[j..] == [];
      assert items[i..] == items[i..j];
    } else {
      assert items[i..][..size] == items[i..j];
      assert items[i..][size..] == items[j..];
    }
  }

  /** Appending one more slice. */
  lemma {:induction false} FlattenSnoc<T>(xss: seq<seq<T>>, xs: seq<T>)
    ensures Flatten(xss + [xs]) == Flatten(xss) + xs
    decreases |xss|
  {
    if xss != [] {
      assert (xss + [xs])[1..] == xss[1..] + [xs];
      FlattenSnoc(xss[1..], xs);
    }
  }

  lemma {:induction false} CountFullSnoc<T>(xss: seq<seq<T>>, xs: seq<T>, size: nat)
    ensures CountFull(xss + [xs], size) == CountFull(xss, size) + (if |xs| >= size then 1 else 0)
    decreases |xss|
  {
    if xss != [] {
      assert (xss + [xs])[1..] == xss[1..] + [xs];
      CountFullSnoc(xss[1..], xs, size);
    }
  }

  /** The slicing loop's bookkeeping: the slices taken so far followed by
      the slices of the rest are all the slices. */
  lemma ChunksAdvance<T>(items: seq<T>, size: nat, i: nat, done: seq<seq<T>>)
    requires size > 0 && i < |items|
    requires Chunks(items, size) == done + Chunks(items[i..], size)
    ensures var j := if i + size <= |items| then i + size else |items|;
      Chunks(items, size) == (done + [items[i..j]]) + Chunks(items[j..], size)
  {
    ChunksStep(items, size, i);
    var j := if i + size <= |items| then i + size else |items|;
    assert done + ([items[i..j]] + Chunks(items[j..], size)) == (done + [items[i..j]]) + Chunks(items[j..], size);
  }

  /** When the slicing loop ends, the slices taken are all the slices. */
  lemma ChunksDone<T>(items: seq<T>, size: nat, done: seq<seq<T>>)
    requires size > 0
    requires Chunks(items, size) == done + Chunks(items[|items|..], size)
    ensures Chunks(items, size) == done
  {
    assert items[|items|..] == [];
    assert done + [] == done;
  }
}
