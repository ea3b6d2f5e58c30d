/** Cutting a sequence into consecutive batches of a fixed size, as the
    batching loop of `build_inserts` does, and the facts about those
    batches: their number, their sizes, their positions, their order. */
module Batching {

  /** `xs` cut, from the front, into consecutive pieces of `b` elements,
      the last piece holding what remains. */
  function Chunks<T>(xs: seq<T>, b: nat): seq<seq<T>>
    requires b >= 1
    decreases |xs|
  {
    if |xs| == 0 then []
    else if |xs| <= b then [xs]
    else [xs[..b]] + Chunks(xs[b..], b)
  }

  function Flatten<T>(xss: seq<seq<T>>): seq<T>
  {
    if xss == [] then [] else xss[0] + Flatten(xss[1..])
  }

  /** Concatenating the chunks gives back the original sequence, in order. */
  lemma {:induction false} ChunksFlatten<T>(xs: seq<T>, b: nat)
    requires b >= 1
    ensures Flatten(Chunks(xs, b)) == xs
    decreases |xs|
  {
    if |xs| > b {
      ChunksFlatten(xs[b..], b);
      var c := Chunks(xs, b);
      assert c[0] == xs[..b] && c[1..] == Chunks(xs[b..], b);
      assert xs[..b] + xs[b..] == xs;
    } else if |xs| > 0 {
      assert Flatten([xs]) == xs + Flatten([]);
    }
  }

  /** Every chunk holds between 1 and `b` elements, and all but the last
      hold exactly `b`. */
  lemma {:induction false} ChunksSizes<T>(xs: seq<T>, b: nat)
    requires b >= 1
    ensures forall k :: 0 <= k < |Chunks(xs, b)| ==> 1 <= |Chunks(xs, b)[k]| <= b
    ensures forall k :: 0 <= k < |Chunks(xs, b)| - 1 ==> |Chunks(xs, b)[k]| == b
    decreases |xs|
  {
    if |xs| > b {
      ChunksSizes(xs[b..], b);
      var c := Chunks(xs, b);
      assert c == [xs[..b]] + Chunks(xs[b..], b);
      forall k | 0 <= k < |c|
        ensures 1 <= |c[k]| <= b
        ensures k < |c| - 1 ==> |c[k]| == b
      {
        if k > 0 {
          assert c[k] == Chunks(xs[b..], b)[k - 1];
        }
      }
    }
  }

  /** Integer division is determined by quotient and remainder. */
  lemma DivisionByParts(n: int, b: int, q: int, r: int)
    requires b >= 1 && 0 <= r < b && n == q * b + r
    ensures n / b == q
  {
    var q', r' := n / b, n % b;
    assert n == q' * b + r' && 0 <= r' < b;
    assert (q - q') * b == r' - r;
    if q > q' {
      ProductAtLeast(q - q', b);
    } else if q < q' {
      ProductAtLeast(q' - q, b);
    }
  }

  lemma ProductAtLeast(x: int, b: int)
    requires x >= 1 && b >= 1
    ensures x * b >= b
  {
    assert x * b == (x - 1) * b + b;
  }

  /** There are ceil(|xs| / b) chunks. */
  lemma {:induction false} ChunksCount<T>(xs: seq<T>, b: nat)
    requires b >= 1
    ensures |Chunks(xs, b)| == (|xs| + b - 1) / b
    decreases |xs|
  {
    if |xs| == 0 {
      DivisionByParts(b - 1, b, 0, b - 1);
    } else if |xs| <= b {
      DivisionByParts(|xs| + b - 1, b, 1, |xs| - 1);
    } else {
      ChunksCount(xs[b..], b);
      var n' := |xs| - b;
      var q := (n' + b - 1) / b;
      var r := (n' + b - 1) % b;
      DivisionByParts(|xs| + b - 1, b, q + 1, r);
    }
  }

  /** A full first batch is a chunk of its own. */
  lemma ChunksFullFirst<T>(x: seq<T>, rest: seq<T>, b: nat)
    requires b >= 1 && |x| == b
    ensures Chunks(x + rest, b) == [x] + Chunks(rest, b)
  {
    var xs := x + rest;
    assert xs[..b] == x && xs[b..] == rest;
    if rest == [] {
      assert xs == x;
    }
  }

  function Min(a: int, b: int): int
  {
    if a < b then a else b
  }

  lemma SliceOfDrop<T>(xs: seq<T>, d: nat, lo: nat, hi: nat)
    requires d <= |xs| && lo <= hi <= |xs| - d
    ensures xs[d..][lo..hi] == xs[d + lo .. d + hi]
  {
  }

  /** Chunk `k` holds the elements from position k * b up to (k + 1) * b,
      or up to the end for the last chunk. */
  lemma {:induction false} ChunkAt<T>(xs: seq<T>, b: nat, k: nat)
    requires b >= 1 && k < |Chunks(xs, b)|
    ensures k * b < |xs|
    ensures Chunks(xs, b)[k] == xs[k * b .. Min((k + 1) * b, |xs|)]
    decreases |xs|
  {
    if |xs| <= b {
      assert Chunks(xs, b) == [xs];
      assert xs[0..|xs|] == xs;
    } else {
      var c := Chunks(xs, b);
      assert c == [xs[..b]] + Chunks(xs[b..], b);
      if k > 0 {
        ChunkAt(xs[b..], b, k - 1);
        assert c[k] == Chunks(xs[b..], b)[k - 1];
        var lo, hi := (k - 1) * b, Min(k * b, |xs| - b);
        assert b + lo == k * b && k * b + b == (k + 1) * b;
        assert b + hi == Min((k + 1) * b, |xs|);
        SliceOfDrop(xs, b, lo, hi);
      }
    }
  }

  /** Chunk `k` of every chunking is the slice from k * b up to (k + 1) * b,
      cut at the end of the sequence. */
  lemma ChunksPositions<T>(xs: seq<T>, b: nat)
    requires b >= 1
    ensures forall k :: 0 <= k < |Chunks(xs, b)| ==>
      k * b < |xs| && Chunks(xs, b)[k] == xs[k * b .. Min((k + 1) * b, |xs|)]
  {
    forall k | 0 <= k < |Chunks(xs, b)|
      ensures k * b < |xs| && Chunks(xs, b)[k] == xs[k * b .. Min((k + 1) * b, |xs|)]
    {
      ChunkAt(xs, b, k);
    }
  }

  /** Appending the next element to the pending batch keeps the batches
      still to come the same. */
  lemma PendingStep<T>(done: seq<seq<T>>, pending: seq<T>, xs: seq<T>, i: nat, b: nat, whole: seq<seq<T>>)
    requires b >= 1 && i < |xs|
    requires done + Chunks(pending + xs[i..], b) == whole
    ensures done + Chunks((pending + [xs[i]]) + xs[i + 1..], b) == whole
  {
    assert xs[i..] == [xs[i]] + xs[i + 1..];
    assert pending + xs[i..] == (pending + [xs[i]]) + xs[i + 1..];
  }

  /** A full batch is emitted as the next chunk. */
  lemma FlushStep<T>(done: seq<seq<T>>, batch: seq<T>, rest: seq<T>, b: nat, whole: seq<seq<T>>)
    requires b >= 1 && |batch| == b
    requires done + Chunks(batch + rest, b) == whole
    ensures (done + [batch]) + Chunks([] + rest, b) == whole
  {
    ChunksFullFirst(batch, rest, b);
    assert [] + rest == rest;
    assert done + ([batch] + Chunks(rest, b)) == (done + [batch]) + Chunks(rest, b);
  }

  /** After the last element, what is pending is the last chunk, if any. */
  lemma FinalStep<T>(done: seq<seq<T>>, batch: seq<T>, xs: seq<T>, b: nat, whole: seq<seq<T>>)
    requires b >= 1 && |batch| < b
    requires done + Chunks(batch + xs[|xs|..], b) == whole
    ensures (if |batch| > 0 then done + [batch] else done) == whole
  {
    assert batch + xs[|xs|..] == batch;
    if |batch| == 0 {
      assert done + [] == done;
    }
  }
}
