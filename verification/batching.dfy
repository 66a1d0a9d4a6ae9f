/** `slice_orders` and the batch calls of the streaming client that use it:
    creates and cancels go out in chunks of 5, edits in chunks of 20. */
module Batching {
  import opened Orders
  import opened Seqs
  import opened DeltaUtility
  import opened EditAggregation

  const CreateChunk := 5
  const CancelChunk := 5
  const EditChunk := 20

  /** `islice` chunks of `size` until an empty chunk comes back. With size 0
      the first chunk is already empty, so there are none. */
  function SliceOrders<T>(xs: seq<T>, size: nat): seq<seq<T>>
    decreases |xs|
  {
    if size == 0 || |xs| == 0 then []
    else
      var n := Min(size, |xs|);
      [xs[..n]] + SliceOrders(xs[n..], size)
  }

  function Concat<T>(chunks: seq<seq<T>>): seq<T>
  {
    if |chunks| == 0 then [] else chunks[0] + Concat(chunks[1..])
  }

  /** With a positive size the chunks put back together give the input; every
      chunk is nonempty and at most `size` long, and all but the last are
      exactly `size` long. */
  lemma {:induction false} SliceOrdersMeaning<T>(xs: seq<T>, size: nat)
    requires size > 0
    ensures Concat(SliceOrders(xs, size)) == xs
    ensures var c := SliceOrders(xs, size);
      forall k :: 0 <= k < |c| ==> 0 < |c[k]| <= size && (k < |c| - 1 ==> |c[k]| == size)
    decreases |xs|
  {
    if |xs| > 0 {
      var n := Min(size, |xs|);
      SliceOrdersMeaning(xs[n..], size);
      var rest := SliceOrders(xs[n..], size);
      var c := SliceOrders(xs, size);
      assert c == [xs[..n]] + rest;
      assert c[1..] == rest;
      assert xs == xs[..n] + xs[n..];
      if |xs| <= size {
        assert xs[n..] == [];
      }
      forall k | 0 <= k < |c|
        ensures 0 < |c[k]| <= size && (k < |c| - 1 ==> |c[k]| == size)
      {
        if k > 0 {
          assert c[k] == rest[k - 1];
        }
      }
    }
  }

  /** `batch_create`: the request orders of each call. */
  function CreateBatches(orders: seq<Order>): seq<seq<Order>>
  {
    SliceOrders(orders, CreateChunk)
  }

  /** `batch_cancel`: each chunk becomes a list of cancel records. */
  function CancelBatches(orders: seq<Order>): seq<seq<CancelRequest>>
  {
    var chunks := SliceOrders(orders, CancelChunk);
    seq(|chunks|, k requires 0 <= k < |chunks| => CancelsOf(chunks[k]))
  }

  /** The cancel record of each order, in order. */
  function CancelsOf(os: seq<Order>): (r: seq<CancelRequest>)
    ensures |r| == |os|
    ensures forall k :: 0 <= k < |os| ==> r[k] == CancelOrderFormat(os[k])
  {
    seq(|os|, k requires 0 <= k < |os| => CancelOrderFormat(os[k]))
  }

  lemma CancelsOfAppend(a: seq<Order>, b: seq<Order>)
    ensures CancelsOf(a + b) == CancelsOf(a) + CancelsOf(b)
  {
    assert forall k :: 0 <= k < |a + b| ==> CancelsOf(a + b)[k] == (CancelsOf(a) + CancelsOf(b))[k];
  }

  /** Formatting chunk by chunk and joining gives the records of the joined
      chunks. */
  lemma {:induction false} ConcatCancels(chunks: seq<seq<Order>>)
    ensures Concat(seq(|chunks|, k requires 0 <= k < |chunks| => CancelsOf(chunks[k]))) == CancelsOf(Concat(chunks))
    decreases |chunks|
  {
    if |chunks| > 0 {
      var mapped := seq(|chunks|, k requires 0 <= k < |chunks| => CancelsOf(chunks[k]));
      var tail := chunks[1..];
      assert mapped[1..] == seq(|tail|, k requires 0 <= k < |tail| => CancelsOf(tail[k]));
      ConcatCancels(tail);
      CancelsOfAppend(chunks[0], Concat(tail));
    }
  }

  /** `batch_edit`. */
  function EditBatches(edits: seq<EditRequest>): seq<seq<EditRequest>>
  {
    SliceOrders(edits, EditChunk)
  }

  /** Every order is sent exactly once, in order, in calls of at most five
      orders (twenty edits), and only the last call may be short. */
  lemma BatchesMeaning(creates: seq<Order>, cancels: seq<Order>, edits: seq<EditRequest>)
    ensures Concat(CreateBatches(creates)) == creates
    ensures Concat(EditBatches(edits)) == edits
    ensures var all := Concat(CancelBatches(cancels));
      |all| == |cancels| && forall k :: 0 <= k < |all| ==> all[k] == CancelOrderFormat(cancels[k])
    ensures var c := CancelBatches(cancels);
      && |c| == |SliceOrders(cancels, CancelChunk)|
      && forall k :: 0 <= k < |c| ==> 0 < |c[k]| <= CancelChunk && (k < |c| - 1 ==> |c[k]| == CancelChunk)
    ensures forall b :: b in CreateBatches(creates) ==> 0 < |b| <= CreateChunk
    ensures forall b :: b in EditBatches(edits) ==> 0 < |b| <= EditChunk
  {
    SliceOrdersMeaning(creates, CreateChunk);
    SliceOrdersMeaning(cancels, CancelChunk);
    ConcatCancels(SliceOrders(cancels, CancelChunk));
    SliceOrdersMeaning(edits, EditChunk);
  }

  /** A chunk size of zero sends nothing at all. */
  lemma SliceByZero<T>(xs: seq<T>)
    ensures SliceOrders(xs, 0) == []
  {
  }
}
