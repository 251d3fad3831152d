/** Whole runs of a radix heap: arbitrary sequences of pushes and pops. */
module HeapRuns {
  import opened BucketIndex
  import opened HeapModel

  datatype Op = PushOp(v: uint64) | PopOp

  datatype Run = Run(heap: Heap, popped: seq<uint64>, moves: nat)

  /** No pop meets an empty heap when the run starts with `n` values. */
  predicate Legal(n: nat, ops: seq<Op>)
    decreases |ops|
  {
    ops == [] ||
    match ops[0] {
      case PushOp(_) => Legal(n + 1, ops[1..])
      case PopOp => n > 0 && Legal(n - 1, ops[1..])
    }
  }

  function Pushes(ops: seq<Op>): nat
  {
    if ops == [] then 0 else (if ops[0].PushOp? then 1 else 0) + Pushes(ops[1..])
  }

  ghost function RunHeap(h: Heap, ops: seq<Op>): Run
    requires Valid(h) && Legal(h.size, ops)
    decreases |ops|
  {
    if ops == [] then Run(h, [], 0)
    else
      match ops[0] {
        case PushOp(v) =>
          PushLaws(h, v);
          RunHeap(Push(h, v), ops[1..])
        case PopOp =>
          PopLaws(h);
          var r := RunHeap(Pop(h), ops[1..]);
          Run(r.heap, [h.Head()] + r.popped, Moves(h) + r.moves)
      }
  }

  // ---------- the amortised bound ----------

  /** Over any run, of arbitrary values in any order, the moves made and the moves still possible
      are paid for by sixty-four moves a push. */
  lemma {:induction false} MovesArePaidFor(h: Heap, ops: seq<Op>)
    requires Valid(h) && Legal(h.size, ops)
    ensures Valid(RunHeap(h, ops).heap)
    ensures RunHeap(h, ops).moves + Weight(RunHeap(h, ops).heap.buckets) <= Weight(h.buckets) + NUM_BITS * Pushes(ops)
    decreases |ops|
  {
    hide Push, Pop, Moves, Weight, GetBucketIndex;
    if ops != [] {
      match ops[0] {
        case PushOp(v) =>
          PushLaws(h, v);
          PushWeight(h, v);
          MovesArePaidFor(Push(h, v), ops[1..]);
        case PopOp =>
          PopLaws(h);
          PopPaysMoves(h);
          MovesArePaidFor(Pop(h), ops[1..]);
      }
    }
  }

  lemma AmortisedBound(ops: seq<Op>)
    requires Legal(0, ops)
    ensures Valid(EMPTY) && RunHeap(EMPTY, ops).moves <= NUM_BITS * Pushes(ops)
  {
    EmptyIsValid();
    MovesArePaidFor(EMPTY, ops);
  }

  // ---------- refinement of a sorted multiset ----------

  ghost predicate IsLeast(x: uint64, ms: multiset<uint64>) { x in ms && forall y | y in ms :: x <= y }

  lemma {:induction false} LeastExists(ms: multiset<uint64>)
    requires ms != multiset{}
    ensures exists x :: IsLeast(x, ms)
    decreases |ms|
  {
    var x :| x in ms;
    var rest := ms - multiset{x};
    assert ms == rest + multiset{x};
    if rest == multiset{} {
      assert IsLeast(x, ms);
    } else {
      LeastExists(rest);
      var y :| IsLeast(y, rest);
      assert IsLeast(Min(x, y), ms);
    }
  }

  ghost function Least(ms: multiset<uint64>): (x: uint64)
    requires ms != multiset{}
    ensures IsLeast(x, ms)
  {
    LeastExists(ms);
    var x :| IsLeast(x, ms); x
  }

  datatype Sorted = Sorted(left: multiset<uint64>, popped: seq<uint64>)

  /** The reference: a bag from which every pop takes the least member. */
  ghost function RunSorted(ms: multiset<uint64>, ops: seq<Op>): Sorted
    requires Legal(|ms|, ops)
    decreases |ops|
  {
    if ops == [] then Sorted(ms, [])
    else
      match ops[0] {
        case PushOp(v) => RunSorted(ms + multiset{v}, ops[1..])
        case PopOp =>
          var r := RunSorted(ms - multiset{Least(ms)}, ops[1..]);
          Sorted(r.left, [Least(ms)] + r.popped)
      }
  }

  /** Each push meets an empty bag or one whose least member is no larger than the value. */
  ghost predicate Monotone(ms: multiset<uint64>, ops: seq<Op>)
    requires Legal(|ms|, ops)
    decreases |ops|
  {
    ops == [] ||
    match ops[0] {
      case PushOp(v) => (ms == multiset{} || Least(ms) <= v) && Monotone(ms + multiset{v}, ops[1..])
      case PopOp => Monotone(ms - multiset{Least(ms)}, ops[1..])
    }
  }

  /** The head is the least value exactly when nothing lies below it. */
  lemma HeadIsLeastIff(h: Heap)
    requires Valid(h) && h.size > 0
    ensures InOrder(h) <==> Contents(h) != multiset{} && h.Head() == Least(Contents(h))
  {
    DropHeadLaws(h);
  }

  lemma {:induction false} RunRefinesSorted(h: Heap, ops: seq<Op>)
    requires Valid(h) && InOrder(h) && Legal(h.size, ops) && Monotone(Contents(h), ops)
    ensures var r, s := RunHeap(h, ops), RunSorted(Contents(h), ops);
      r.popped == s.popped && Valid(r.heap) && InOrder(r.heap) && Contents(r.heap) == s.left
    decreases |ops|
  {
    hide Push, Pop, Moves, Contents, GetBucketIndex;
    if ops != [] {
      match ops[0] {
        case PushOp(v) =>
          PushLaws(h, v);
          if h.size > 0 { HeadIsLeastIff(h); }
          PushKeepsOrderIff(h, v);
          RunRefinesSorted(Push(h, v), ops[1..]);
        case PopOp =>
          PopLaws(h);
          HeadIsLeastIff(h);
          PopKeepsOrder(h);
          RunRefinesSorted(Pop(h), ops[1..]);
      }
    }
  }

  /** No push meets an empty heap. */
  predicate NeverRefilled(n: nat, ops: seq<Op>)
    requires Legal(n, ops)
    decreases |ops|
  {
    ops == [] ||
    match ops[0] {
      case PushOp(_) => n > 0 && NeverRefilled(n + 1, ops[1..])
      case PopOp => NeverRefilled(n - 1, ops[1..])
    }
  }

  predicate NonDecreasing(s: seq<uint64>)
  {
    forall i, j | 0 <= i < j < |s| :: s[i] <= s[j]
  }

  lemma {:induction false} SortedPopsRise(ms: multiset<uint64>, ops: seq<Op>)
    requires Legal(|ms|, ops) && Monotone(ms, ops) && NeverRefilled(|ms|, ops)
    ensures NonDecreasing(RunSorted(ms, ops).popped)
    ensures forall x | x in RunSorted(ms, ops).popped :: ms != multiset{} && Least(ms) <= x
    decreases |ops|
  {
    if ops != [] {
      match ops[0] {
        case PushOp(v) =>
          SortedPopsRise(ms + multiset{v}, ops[1..]);
        case PopOp =>
          var ms' := ms - multiset{Least(ms)};
          SortedPopsRise(ms', ops[1..]);
          var r := RunSorted(ms', ops[1..]).popped;
          forall x | x in r ensures Least(ms) <= x { assert Least(ms') in ms; }
          var out := RunSorted(ms, ops).popped;
          assert out == [Least(ms)] + r;
          forall i, j | 0 <= i < j < |out| ensures out[i] <= out[j] {
            assert out[j] == r[j - 1] && r[j - 1] in r;
            if i > 0 { assert out[i] == r[i - 1]; }
          }
      }
    }
  }

  /** Popped values never decrease, as long as the heap is not refilled after running empty. */
  lemma PopsRise(h: Heap, ops: seq<Op>)
    requires Valid(h) && InOrder(h) && Legal(h.size, ops) && Monotone(Contents(h), ops)
    requires NeverRefilled(h.size, ops)
    ensures NonDecreasing(RunHeap(h, ops).popped)
  {
    RunRefinesSorted(h, ops);
    SortedPopsRise(Contents(h), ops);
  }
}
