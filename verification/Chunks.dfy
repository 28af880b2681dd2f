/** Ranges handed to workers: chunks that together reach every index, in any order and however they overlap. */
module Chunks {
  type Chunk = (nat, nat)

  ghost predicate InSome(chunks: seq<Chunk>, t: nat) {
    exists i :: 0 <= i < |chunks| && chunks[i].0 <= t < chunks[i].1
  }

  ghost predicate Within(chunks: seq<Chunk>, n: nat) {
    forall i :: 0 <= i < |chunks| ==> chunks[i].0 <= chunks[i].1 <= n
  }

  ghost predicate Cover(chunks: seq<Chunk>, n: nat) {
    Within(chunks, n) && forall t: nat :: t < n ==> InSome(chunks, t)
  }

  lemma InSomeMore(chunks: seq<Chunk>, chunk: Chunk, t: nat)
    ensures InSome(chunks + [chunk], t) <==> InSome(chunks, t) || chunk.0 <= t < chunk.1
  {
    var all := chunks + [chunk];
    if InSome(chunks, t) {
      var i :| 0 <= i < |chunks| && chunks[i].0 <= t < chunks[i].1;
      assert all[i] == chunks[i];
    }
    if chunk.0 <= t < chunk.1 { assert all[|chunks|] == chunk; }
    if InSome(all, t) {
      var i :| 0 <= i < |all| && all[i].0 <= t < all[i].1;
      assert i < |chunks| ==> all[i] == chunks[i];
    }
  }

  lemma InSomeNext(chunks: seq<Chunk>, i: nat, t: nat)
    requires i < |chunks|
    ensures InSome(chunks[..i + 1], t) <==> InSome(chunks[..i], t) || chunks[i].0 <= t < chunks[i].1
  {
    assert chunks[..i + 1] == chunks[..i] + [chunks[i]];
    InSomeMore(chunks[..i], chunks[i], t);
  }
}
