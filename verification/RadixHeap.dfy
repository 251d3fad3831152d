/** The radix heap as the source has it: an array of vectors and an array of cached minima,
    changed in place. */
module RadixHeaps {
  import opened BucketIndex
  import opened HeapModel

  class RadixHeap {
    const buckets: array<seq<uint64>>
    const bucketMins: array<uint64>
    var sizeVal: nat
    /** How many values pops have moved between buckets so far. */
    ghost var moves: nat

    ghost function Repr(): set<object> { {this, buckets, bucketMins} }

    ghost predicate Shaped()
    {
      buckets.Length == NUM_BUCKETS && bucketMins.Length == NUM_BUCKETS
    }

    ghost function State(): Heap
      reads Repr()
    {
      Heap(buckets[..], bucketMins[..], sizeVal)
    }

    ghost predicate Valid()
      reads Repr()
    {
      Shaped() && HeapModel.Valid(State())
    }

    constructor ()
      ensures Valid() && State() == EMPTY && moves == 0
      ensures fresh(Repr())
    {
      buckets := new seq<uint64>[NUM_BUCKETS](_ => []);
      bucketMins := new uint64[NUM_BUCKETS](_ => MAX);
      sizeVal := 0;
      moves := 0;
      new;
      assert State().buckets == EMPTY.buckets && State().mins == EMPTY.mins;
      EmptyIsValid();
    }

    method Empty() returns (b: bool)
      ensures b == (sizeVal == 0)
    {
      b := sizeVal == 0;
    }

    method Size() returns (n: nat)
      requires Valid()
      ensures n == |Contents(State())|
    {
      n := sizeVal;
    }

    method Peek() returns (v: uint64)
      requires Valid() && State().size > 0
      ensures v == State().Head()
    {
      v := buckets[0][0];
    }

    method Push(val: uint64)
      requires Valid()
      modifies Repr()
      ensures Valid() && State() == HeapModel.Push(old(State()), val)
      ensures moves == old(moves)
    {
      PushLaws(State(), val);
      ghost var want := HeapModel.Push(State(), val);
      sizeVal := sizeVal + 1;
      if sizeVal == 1 {
        buckets[0] := buckets[0] + [val];
        assert State().buckets == want.buckets;
        return;
      }
      var minVal := buckets[0][0];
      var bucketIdx := GetBucketIndex(minVal, val);
      buckets[bucketIdx] := buckets[bucketIdx] + [val];
      bucketMins[bucketIdx] := Min(bucketMins[bucketIdx], val);
      assert State().buckets == want.buckets && State().mins == want.mins;
    }

    method Pop()
      requires Valid() && State().size > 0
      modifies Repr()
      ensures Valid() && State() == HeapModel.Pop(old(State()))
      ensures moves == old(moves) + Moves(old(State()))
    {
      ghost var h := State();
      DropHeadLaws(h);
      PopLaws(h);
      PopUnfolds(h);
      hide GetBucketIndex, Deal, MinOf, WithIndex, Elements, MinsExact, Filed, HeapModel.Valid, HeapModel.Pop, Moves;
      ghost var d := DropHead(h);
      sizeVal := sizeVal - 1;
      buckets[0] := buckets[0][..|buckets[0]| - 1];
      assert State() == d;
      if buckets[0] != [] || sizeVal == 0 { return; }
      var bucketIdx := FindNonEmpty();
      DealtGoLower(h, bucketIdx);
      Redistribute(bucketIdx);
    }

    /** The search for the bucket to deal out. */
    method FindNonEmpty() returns (k: nat)
      requires Shaped() && sizeVal == |Contents(State())| && MustDeal(State())
      ensures k == DealtIndex(State())
    {
      ghost var i := DealtIndex(State());
      k := 1;
      while buckets[k] == []
        invariant 1 <= k <= i
        decreases i - k
      {
        assert State().buckets[k] == buckets[k];
        k := k + 1;
      }
      assert State().buckets[k] == buckets[k];
    }

    /** The loop that deals bucket `i` out relative to its minimum. */
    method Redistribute(i: nat)
      requires Shaped() && 1 <= i < NUM_BUCKETS
      requires forall v | v in buckets[i] :: GetBucketIndex(bucketMins[i], v) < i
      modifies buckets, bucketMins, this`moves
      ensures State() == Deal(old(State()), i) && moves == old(moves) + |old(buckets[i])|
    {
      ghost var h := State();
      var minVal := bucketMins[i];
      var b := buckets[i];
      DealtSoFarStart(h, i);
      hide GetBucketIndex, DealtSoFar;
      for k := 0 to |b|
        invariant State() == DealtSoFar(h, i, k)
        invariant buckets[i] == b && moves == old(moves) + k
      {
        var val := b[k];
        var newIdx := GetBucketIndex(minVal, val);
        assert val in b;
        DealtSoFarStep(h, i, k);
        buckets[newIdx] := buckets[newIdx] + [val];
        bucketMins[newIdx] := Min(bucketMins[newIdx], val);
        moves := moves + 1;
        assert State().buckets == DealtSoFar(h, i, k + 1).buckets;
        assert State().mins == DealtSoFar(h, i, k + 1).mins;
      }
      DealtSoFarEnd(h, i);
      bucketMins[i] := MAX;
      buckets[i] := [];
      assert State().buckets == Deal(h, i).buckets;
      assert State().mins == Deal(h, i).mins;
    }
  }

  lemma PopUnfolds(h: Heap)
    requires HeapModel.Valid(h) && h.size > 0
    ensures h.buckets[0] != [] && |Contents(DropHead(h))| == DropHead(h).size
    ensures HeapModel.Pop(h) ==
      if MustDeal(DropHead(h)) then Deal(DropHead(h), DealtIndex(DropHead(h))) else DropHead(h)
    ensures Moves(h) == if MustDeal(DropHead(h)) then |DropHead(h).buckets[DealtIndex(DropHead(h))]| else 0
  {
    DropHeadLaws(h);
  }

  lemma DealtGoLower(h: Heap, i: nat)
    requires HeapModel.Valid(h) && h.size > 0 && |Contents(DropHead(h))| == DropHead(h).size
    requires MustDeal(DropHead(h)) && i == DealtIndex(DropHead(h))
    ensures forall v | v in DropHead(h).buckets[i] :: GetBucketIndex(DropHead(h).mins[i], v) < i
  {
    hide GetBucketIndex, MinOf, Elements;
    var d := DropHead(h);
    MinOfIsLeast(d.buckets[i]);
    DealFiles(d.buckets, h.Head(), i, d.mins[i]);
  }

  // ---------- the redistribution loop, one value at a time ----------

  /** The heap after the first `k` values of bucket `i` have been copied to their new buckets. */
  ghost function DealtSoFar(h: Heap, i: nat, k: nat): (r: Heap)
    requires h.Shaped() && i < NUM_BUCKETS && k <= |h.buckets[i]|
    ensures r.Shaped() && r.size == h.size
  {
    var m, b := h.mins[i], h.buckets[i][..k];
    Heap(
      seq(NUM_BUCKETS, j requires 0 <= j < NUM_BUCKETS =>
        if j < i then h.buckets[j] + WithIndex(m, b, j) else h.buckets[j]),
      seq(NUM_BUCKETS, j requires 0 <= j < NUM_BUCKETS =>
        if j < i then Min(h.mins[j], MinOf(WithIndex(m, b, j))) else h.mins[j]),
      h.size)
  }

  lemma DealtSoFarStart(h: Heap, i: nat)
    requires h.Shaped() && i < NUM_BUCKETS
    ensures DealtSoFar(h, i, 0) == h
  {
    hide GetBucketIndex;
    var d := DealtSoFar(h, i, 0);
    assert forall j | 0 <= j < NUM_BUCKETS :: d.buckets[j] == h.buckets[j] && d.mins[j] == h.mins[j];
  }

  lemma WithIndexStep(m: uint64, b: seq<uint64>, k: nat, j: nat)
    requires k < |b|
    ensures WithIndex(m, b[..k + 1], j) == WithIndex(m, b[..k], j) + if j == GetBucketIndex(m, b[k]) then [b[k]] else []
    ensures MinOf(WithIndex(m, b[..k + 1], j)) ==
      Min(MinOf(WithIndex(m, b[..k], j)), if j == GetBucketIndex(m, b[k]) then b[k] else MAX)
  {
    hide GetBucketIndex;
    var w := WithIndex(m, b[..k], j);
    assert b[..k + 1][..k] == b[..k];
    assert (w + [b[k]])[..|w|] == w;
  }

  lemma DealtSoFarStep(h: Heap, i: nat, k: nat)
    requires h.Shaped() && i < NUM_BUCKETS && k < |h.buckets[i]|
    requires GetBucketIndex(h.mins[i], h.buckets[i][k]) < i
    ensures var d, v := DealtSoFar(h, i, k), h.buckets[i][k];
      var n := GetBucketIndex(h.mins[i], v);
      DealtSoFar(h, i, k + 1) == Heap(d.buckets[n := d.buckets[n] + [v]], d.mins[n := Min(d.mins[n], v)], h.size)
  {
    hide GetBucketIndex, WithIndex, MinOf;
    var d, e, v := DealtSoFar(h, i, k), DealtSoFar(h, i, k + 1), h.buckets[i][k];
    var n := GetBucketIndex(h.mins[i], v);
    forall j | 0 <= j < NUM_BUCKETS
      ensures e.buckets[j] == if j == n then d.buckets[j] + [v] else d.buckets[j]
      ensures e.mins[j] == if j == n then Min(d.mins[j], v) else d.mins[j]
    {
      WithIndexStep(h.mins[i], h.buckets[i], k, j);
    }
    assert e.buckets == d.buckets[n := d.buckets[n] + [v]];
    assert e.mins == d.mins[n := Min(d.mins[n], v)];
  }

  lemma DealtSoFarEnd(h: Heap, i: nat)
    requires h.Shaped() && i < NUM_BUCKETS
    ensures var d := DealtSoFar(h, i, |h.buckets[i]|);
      Deal(h, i) == Heap(d.buckets[i := []], d.mins[i := MAX], h.size)
  {
    hide GetBucketIndex, WithIndex, MinOf;
    var d, e := DealtSoFar(h, i, |h.buckets[i]|), Deal(h, i);
    assert h.buckets[i][..|h.buckets[i]|] == h.buckets[i];
    assert e.buckets == d.buckets[i := []];
    assert e.mins == d.mins[i := MAX];
  }
}
