/** The contents of a radix heap as a value, what `push` and `pop` make of it, and the laws of
    those two functions. The class in RadixHeap.dfy is proved to compute exactly these. */
module HeapModel {
  import opened BucketIndex

  datatype Heap = Heap(buckets: seq<seq<uint64>>, mins: seq<uint64>, size: nat) {
    predicate Shaped() { |buckets| == NUM_BUCKETS && |mins| == NUM_BUCKETS }

    /** The value every index is taken relative to. */
    function Head(): uint64
      requires Shaped() && buckets[0] != []
    {
      buckets[0][0]
    }
  }

  const EMPTY: Heap := Heap(seq(NUM_BUCKETS, _ => []), seq(NUM_BUCKETS, _ => MAX), 0)

  // ---------- what is in a heap ----------

  function MinOf(b: seq<uint64>): uint64
  {
    if b == [] then MAX else Min(MinOf(b[..|b| - 1]), b[|b| - 1])
  }

  /** The members of `b` that belong in bucket `j` when `m` is the head. */
  function WithIndex(m: uint64, b: seq<uint64>, j: nat): seq<uint64>
  {
    if b == [] then []
    else
      var rest := WithIndex(m, b[..|b| - 1], j);
      if GetBucketIndex(m, b[|b| - 1]) == j then rest + [b[|b| - 1]] else rest
  }

  ghost function Elements(bs: seq<seq<uint64>>): multiset<uint64>
  {
    if bs == [] then multiset{} else Elements(bs[..|bs| - 1]) + multiset(bs[|bs| - 1])
  }

  /** Bucket `i` weighs `i` times its length: the moves its members can still make. */
  ghost function Weight(bs: seq<seq<uint64>>): nat
  {
    if bs == [] then 0 else Weight(bs[..|bs| - 1]) + (|bs| - 1) * |bs[|bs| - 1]|
  }

  ghost function Contents(h: Heap): multiset<uint64> { Elements(h.buckets) }

  /** Every value sits in the bucket of its index relative to `m`. */
  ghost predicate Filed(bs: seq<seq<uint64>>, m: uint64)
  {
    forall i, v | 0 <= i < |bs| && v in bs[i] :: GetBucketIndex(m, v) == i
  }

  /** The cached minimum of every bucket but the first is exact: all ones when the bucket is empty. */
  ghost predicate MinsExact(h: Heap)
    requires h.Shaped()
  {
    forall i | 1 <= i < NUM_BUCKETS :: h.mins[i] == MinOf(h.buckets[i])
  }

  /** The radix invariant. It does not mention order: pushes of arbitrary values keep it. */
  ghost predicate Valid(h: Heap)
  {
    && h.Shaped()
    && h.size == |Contents(h)|
    && (h.size > 0 ==> h.buckets[0] != [] && Filed(h.buckets, h.Head()))
    && MinsExact(h)
  }

  /** Nothing lies below the head. */
  ghost predicate InOrder(h: Heap)
    requires Valid(h)
  {
    h.size > 0 ==> forall v | v in Contents(h) :: h.Head() <= v
  }

  // ---------- the two operations ----------

  function Push(h: Heap, v: uint64): Heap
    requires h.Shaped() && (h.size > 0 ==> h.buckets[0] != [])
  {
    var i := if h.size == 0 then 0 else GetBucketIndex(h.Head(), v);
    var mins := if h.size == 0 then h.mins else h.mins[i := Min(h.mins[i], v)];
    Heap(h.buckets[i := h.buckets[i] + [v]], mins, h.size + 1)
  }

  /** The first non-empty bucket at or after `i`. */
  function FirstNonEmpty(bs: seq<seq<uint64>>, i: nat): (k: nat)
    requires exists j :: i <= j < |bs| && bs[j] != []
    ensures i <= k < |bs| && bs[k] != []
    ensures forall j :: i <= j < k ==> bs[j] == []
    decreases |bs| - i
  {
    if bs[i] != [] then i else FirstNonEmpty(bs, i + 1)
  }

  /** Bucket `i` dealt out relative to `m`: each bucket below `i` gains the members that belong there. */
  function DealtBuckets(bs: seq<seq<uint64>>, b: seq<uint64>, m: uint64, i: nat): (r: seq<seq<uint64>>)
    ensures |r| == |bs|
  {
    seq(|bs|, j requires 0 <= j < |bs| => if j < i then bs[j] + WithIndex(m, b, j) else if j == i then [] else bs[j])
  }

  function DealtMins(mins: seq<uint64>, b: seq<uint64>, m: uint64, i: nat): (r: seq<uint64>)
    ensures |r| == |mins|
  {
    seq(|mins|, j requires 0 <= j < |mins| =>
      if j < i then Min(mins[j], MinOf(WithIndex(m, b, j))) else if j == i then MAX else mins[j])
  }

  /** The heap without the last member of its first bucket. */
  function DropHead(h: Heap): Heap
    requires h.Shaped() && h.size > 0 && h.buckets[0] != []
  {
    Heap(h.buckets[0 := h.buckets[0][..|h.buckets[0]| - 1]], h.mins, h.size - 1)
  }

  /** A bucket has to be dealt out: the first bucket ran empty and the heap did not. */
  predicate MustDeal(h: Heap)
    requires h.Shaped()
  {
    h.buckets[0] == [] && h.size > 0
  }

  function Deal(h: Heap, i: nat): Heap
    requires h.Shaped() && i < NUM_BUCKETS
  {
    Heap(DealtBuckets(h.buckets, h.buckets[i], h.mins[i], i), DealtMins(h.mins, h.buckets[i], h.mins[i], i), h.size)
  }

  /** The index of the first non-empty bucket of a heap that holds something. */
  ghost function DealtIndex(h: Heap): (i: nat)
    requires h.Shaped() && h.size == |Contents(h)| && MustDeal(h)
    ensures 1 <= i < NUM_BUCKETS && h.buckets[i] != []
    ensures forall j :: 0 <= j < i ==> h.buckets[j] == []
  {
    SomeBucket(h.buckets);
    FirstNonEmpty(h.buckets, 0)
  }

  ghost function Pop(h: Heap): Heap
    requires Valid(h) && h.size > 0
  {
    DropHeadLaws(h);
    var d := DropHead(h);
    if MustDeal(d) then Deal(d, DealtIndex(d)) else d
  }

  /** How many values a pop moves between buckets. */
  ghost function Moves(h: Heap): nat
    requires Valid(h) && h.size > 0
  {
    DropHeadLaws(h);
    var d := DropHead(h);
    if MustDeal(d) then |d.buckets[DealtIndex(d)]| else 0
  }

  // ---------- counting in buckets ----------

  lemma {:induction false} ElementsUpdate(bs: seq<seq<uint64>>, i: nat, b: seq<uint64>)
    requires i < |bs|
    ensures Elements(bs[i := b]) + multiset(bs[i]) == Elements(bs) + multiset(b)
  {
    var n, c := |bs| - 1, bs[i := b];
    if i < n {
      assert c[..n] == bs[..n][i := b];
      ElementsUpdate(bs[..n], i, b);
      var last := multiset(bs[n]);
      calc {
        Elements(c) + multiset(bs[i]);
        Elements(c[..n]) + last + multiset(bs[i]);
        (Elements(c[..n]) + multiset(bs[i])) + last;
        (Elements(bs[..n]) + multiset(b)) + last;
        Elements(bs) + multiset(b);
      }
    } else {
      assert c[..n] == bs[..n];
    }
  }

  lemma Cancel(a: multiset<uint64>, b: multiset<uint64>, c: multiset<uint64>)
    requires a + c == b + c
    ensures a == b
  {
    forall x ensures a[x] == b[x] {
      assert (a + c)[x] == (b + c)[x];
    }
  }

  /** Appending `v` to a bucket adds one copy of `v` to the whole. */
  lemma ElementsAppend(bs: seq<seq<uint64>>, i: nat, v: uint64)
    requires i < |bs|
    ensures Elements(bs[i := bs[i] + [v]]) == Elements(bs) + multiset{v}
  {
    var b, e := multiset(bs[i]), Elements(bs);
    ElementsUpdate(bs, i, bs[i] + [v]);
    assert multiset(bs[i] + [v]) == multiset{v} + b;
    assert e + (multiset{v} + b) == (e + multiset{v}) + b;
    Cancel(Elements(bs[i := bs[i] + [v]]), e + multiset{v}, b);
  }

  lemma {:induction false} InElements(bs: seq<seq<uint64>>, v: uint64)
    ensures v in Elements(bs) <==> exists i :: 0 <= i < |bs| && v in bs[i]
  {
    if bs != [] {
      var n := |bs| - 1;
      InElements(bs[..n], v);
      if v in Elements(bs[..n]) {
        var i :| 0 <= i < n && v in bs[..n][i];
        assert v in bs[i];
      }
      forall i | 0 <= i < n && v in bs[i] ensures v in Elements(bs) {
        assert v in bs[..n][i];
      }
    }
  }

  /** A value that only bucket `i` can hold occurs in the whole as often as it occurs there. */
  lemma {:induction false} ElementsAt(bs: seq<seq<uint64>>, i: nat, v: uint64)
    requires i < |bs|
    requires forall j | 0 <= j < |bs| && j != i :: v !in bs[j]
    ensures Elements(bs)[v] == multiset(bs[i])[v]
  {
    var n := |bs| - 1;
    if i < n {
      assert bs[..n][i] == bs[i];
      ElementsAt(bs[..n], i, v);
    } else {
      InElements(bs[..n], v);
    }
  }

  lemma {:induction false} NoElements(bs: seq<seq<uint64>>)
    requires forall i | 0 <= i < |bs| :: bs[i] == []
    ensures Elements(bs) == multiset{} && Weight(bs) == 0
  {
    if bs != [] { NoElements(bs[..|bs| - 1]); }
  }

  lemma EmptyBuckets(h: Heap)
    requires Valid(h) && h.size == 0
    ensures forall i | 0 <= i < NUM_BUCKETS :: h.buckets[i] == []
  {
    forall i | 0 <= i < NUM_BUCKETS ensures h.buckets[i] == [] {
      if h.buckets[i] != [] {
        assert h.buckets[i][0] in h.buckets[i];
        InElements(h.buckets, h.buckets[i][0]);
      }
    }
  }

  lemma SomeBucket(bs: seq<seq<uint64>>)
    requires |Elements(bs)| > 0
    ensures exists j :: 0 <= j < |bs| && bs[j] != []
  {
    if forall j | 0 <= j < |bs| :: bs[j] == [] { NoElements(bs); }
  }

  lemma {:induction false} WithIndexMembers(m: uint64, b: seq<uint64>, j: nat, v: uint64)
    ensures multiset(WithIndex(m, b, j))[v] == if GetBucketIndex(m, v) == j then multiset(b)[v] else 0
  {
    if b != [] {
      var n := |b| - 1;
      assert b == b[..n] + [b[n]];
      WithIndexMembers(m, b[..n], j, v);
    }
  }

  lemma {:induction false} MinOfIsLeast(b: seq<uint64>)
    ensures forall v | v in b :: MinOf(b) <= v
    ensures b != [] ==> MinOf(b) in b
  {
    if |b| > 0 {
      var n := |b| - 1;
      assert b == b[..n] + [b[n]];
      MinOfIsLeast(b[..n]);
      if n > 0 { assert MinOf(b[..n]) in b[..n]; } else { assert MinOf(b[..n]) == MAX; }
    }
  }

  // ---------- the first bucket holds copies of the head ----------

  lemma FirstBucketIsHead(h: Heap)
    requires Valid(h) && h.size > 0
    ensures forall v | v in h.buckets[0] :: v == h.Head()
  {
    forall v | v in h.buckets[0] ensures v == h.Head() {
      IndexZeroIff(h.Head(), v);
    }
  }

  lemma EmptyIsValid()
    ensures Valid(EMPTY) && Contents(EMPTY) == multiset{} && InOrder(EMPTY) && Weight(EMPTY.buckets) == 0
  {
    NoElements(EMPTY.buckets);
  }

  // ---------- push ----------

  lemma PushLaws(h: Heap, v: uint64)
    requires Valid(h)
    ensures Valid(Push(h, v))
    ensures Contents(Push(h, v)) == Contents(h) + multiset{v} && Push(h, v).size == h.size + 1
    ensures Push(h, v).Head() == if h.size == 0 then v else h.Head()
  {
    hide GetBucketIndex, Elements;
    var i := if h.size == 0 then 0 else GetBucketIndex(h.Head(), v);
    var h' := Push(h, v);
    ElementsAppend(h.buckets, i, v);
    assert (h.buckets[i] + [v])[..|h.buckets[i]|] == h.buckets[i];
    if h.size == 0 {
      EmptyBuckets(h);
      IndexZeroIff(v, v);
    }
  }

  /** A push keeps the head at the bottom exactly when the heap was empty or the value is no smaller than the head. */
  lemma PushKeepsOrderIff(h: Heap, v: uint64)
    requires Valid(h)
    ensures Valid(Push(h, v))
    ensures InOrder(Push(h, v)) <==> InOrder(h) && (h.size == 0 || h.Head() <= v)
  {
    PushLaws(h, v);
    if h.size > 0 && InOrder(Push(h, v)) {
      assert v in Contents(Push(h, v));
      forall w | w in Contents(h) ensures h.Head() <= w {
        assert w in Contents(Push(h, v));
      }
    }
  }

  lemma {:induction false} WeightUpdate(bs: seq<seq<uint64>>, i: nat, b: seq<uint64>)
    requires i < |bs|
    ensures Weight(bs[i := b]) + i * |bs[i]| == Weight(bs) + i * |b|
  {
    var n := |bs| - 1;
    if i < n {
      assert bs[i := b][..n] == bs[..n][i := b];
      assert bs[..n][i] == bs[i];
      WeightUpdate(bs[..n], i, b);
    } else {
      assert bs[i := b][..n] == bs[..n];
    }
  }

  lemma PushWeight(h: Heap, v: uint64)
    requires Valid(h)
    ensures Weight(Push(h, v).buckets) <= Weight(h.buckets) + NUM_BITS
  {
    hide GetBucketIndex, Elements, MinOf, Weight;
    var i := if h.size == 0 then 0 else GetBucketIndex(h.Head(), v);
    WeightUpdate(h.buckets, i, h.buckets[i] + [v]);
    assert i * |h.buckets[i] + [v]| == i * |h.buckets[i]| + i;
  }

  // ---------- pop ----------

  lemma DropHeadLaws(h: Heap)
    requires Valid(h) && h.size > 0
    ensures Contents(DropHead(h)) == Contents(h) - multiset{h.Head()}
    ensures h.Head() in Contents(h)
    ensures |Contents(DropHead(h))| == h.size - 1
  {
    var b, m := h.buckets[0], h.Head();
    var d, n := DropHead(h), |b| - 1;
    FirstBucketIsHead(h);
    assert b[n] in b;
    ElementsAppend(d.buckets, 0, m);
    assert b == b[..n] + [m];
    assert d.buckets[0 := b] == h.buckets;
    assert (Contents(d) + multiset{m}) - multiset{m} == Contents(d);
  }

  /** What dealing out bucket `i` puts into bucket `j`. */
  lemma InDealt(bs: seq<seq<uint64>>, m: uint64, i: nat, j: nat, v: uint64)
    requires i < |bs| && j < |bs|
    requires forall k | 0 <= k < i :: bs[k] == []
    ensures v in DealtBuckets(bs, bs[i], m, i)[j] <==>
      if j < i then v in bs[i] && GetBucketIndex(m, v) == j else j > i && v in bs[j]
  {
    hide GetBucketIndex, WithIndex;
    if j < i {
      var w: seq<uint64> := WithIndex(m, bs[i], j);
      WithIndexMembers(m, bs[i], j, v);
      assert v in w <==> v in multiset(w);
      assert v in bs[i] <==> v in multiset(bs[i]);
      assert [] + w == w;
    }
  }

  /** Dealing bucket `i` out relative to one of its members files everything relative to that
      member: the dealt values land strictly lower, and no other value changes bucket. */
  lemma DealFiles(bs: seq<seq<uint64>>, head: uint64, i: nat, m: uint64)
    requires 1 <= i < |bs| && (forall k | 0 <= k < i :: bs[k] == [])
    requires Filed(bs, head) && m in bs[i]
    ensures forall v | v in bs[i] :: GetBucketIndex(m, v) < i
    ensures m in DealtBuckets(bs, bs[i], m, i)[0]
    ensures forall v | v in DealtBuckets(bs, bs[i], m, i)[0] :: v == m
    ensures Filed(DealtBuckets(bs, bs[i], m, i), m)
  {
    hide GetBucketIndex, DealtBuckets, WithIndex;
    var ds := DealtBuckets(bs, bs[i], m, i);
    forall v | v in bs[i] ensures GetBucketIndex(m, v) < i { IndexShrinks(head, m, v); }
    IndexZeroIff(m, m);
    InDealt(bs, m, i, 0, m);
    forall j, v | 0 <= j < |ds| && v in ds[j] ensures GetBucketIndex(m, v) == j {
      InDealt(bs, m, i, j, v);
      if j > i { IndexStable(head, m, v); }
    }
    forall v | v in ds[0] ensures v == m { IndexZeroIff(m, v); }
  }

  /** Dealing out moves values and loses none. */
  lemma DealKeeps(bs: seq<seq<uint64>>, head: uint64, i: nat, m: uint64)
    requires 1 <= i < |bs| == NUM_BUCKETS && (forall k | 0 <= k < i :: bs[k] == [])
    requires Filed(bs, head) && m in bs[i]
    ensures Elements(DealtBuckets(bs, bs[i], m, i)) == Elements(bs)
  {
    hide GetBucketIndex, DealtBuckets, WithIndex, Elements;
    var ds := DealtBuckets(bs, bs[i], m, i);
    DealFiles(bs, head, i, m);
    forall v ensures Elements(ds)[v] == Elements(bs)[v] {
      var k, l := GetBucketIndex(m, v), GetBucketIndex(head, v);
      ElementsAt(ds, k, v);
      ElementsAt(bs, l, v);
      DealtCount(bs, head, i, m, v);
    }
  }

  lemma DealtCount(bs: seq<seq<uint64>>, head: uint64, i: nat, m: uint64, v: uint64)
    requires 1 <= i < |bs| == NUM_BUCKETS && (forall k | 0 <= k < i :: bs[k] == [])
    requires Filed(bs, head) && m in bs[i]
    ensures multiset(DealtBuckets(bs, bs[i], m, i)[GetBucketIndex(m, v)])[v] == multiset(bs[GetBucketIndex(head, v)])[v]
  {
    hide GetBucketIndex, WithIndex;
    var k, l := GetBucketIndex(m, v), GetBucketIndex(head, v);
    var ds := DealtBuckets(bs, bs[i], m, i);
    DealFiles(bs, head, i, m);
    if k < i {
      WithIndexMembers(m, bs[i], k, v);
      assert ds[k] == WithIndex(m, bs[i], k);
      if l != i { IndexUltrametric(head, m, v); }
    } else {
      IndexUltrametric(m, head, v);
      if l > i { IndexStable(head, m, v); }
    }
  }

  lemma DealtMinsExact(h: Heap, i: nat)
    requires h.Shaped() && MinsExact(h) && 1 <= i < NUM_BUCKETS && (forall k | 0 <= k < i :: h.buckets[k] == [])
    ensures MinsExact(Deal(h, i))
  {
    hide GetBucketIndex, WithIndex;
    var h' := Deal(h, i);
    forall j | 1 <= j < NUM_BUCKETS ensures h'.mins[j] == MinOf(h'.buckets[j]) {
      if j < i {
        assert h.mins[j] == MinOf([]);
        assert h'.buckets[j] == WithIndex(h.mins[i], h.buckets[i], j);
      }
    }
  }

  lemma DealLaws(d: Heap, head: uint64)
    requires d.Shaped() && d.size == |Contents(d)| && MustDeal(d) && MinsExact(d) && Filed(d.buckets, head)
    ensures var i, h' := DealtIndex(d), Deal(d, DealtIndex(d));
      && Valid(h') && h'.size > 0 && h'.Head() == MinOf(d.buckets[i])
      && Contents(h') == Contents(d)
  {
    hide GetBucketIndex, WithIndex, MinOf, DealtBuckets, DealtMins, Elements;
    var i := DealtIndex(d);
    assert d.mins[i] == MinOf(d.buckets[i]);
    MinOfIsLeast(d.buckets[i]);
    DealFiles(d.buckets, head, i, d.mins[i]);
    DealKeeps(d.buckets, head, i, d.mins[i]);
    DealtMinsExact(d, i);
    var h' := Deal(d, i);
    assert h'.buckets[0] != [];
    assert h'.buckets[0][0] in h'.buckets[0];
  }

  /** Every pop keeps the radix invariant and removes one copy of the head, whatever was pushed. */
  lemma PopLaws(h: Heap)
    requires Valid(h) && h.size > 0
    ensures Valid(Pop(h))
    ensures Contents(Pop(h)) == Contents(h) - multiset{h.Head()} && Pop(h).size == h.size - 1
  {
    hide GetBucketIndex, Deal, MinOf, Elements;
    DropHeadLaws(h);
    if MustDeal(DropHead(h)) { DealLaws(DropHead(h), h.Head()); }
  }

  /** Whatever was not below the old head is not below the new one either. */
  lemma PopHeadBelow(h: Heap, v: uint64)
    requires Valid(h) && h.size > 1
    requires v in Contents(Pop(h)) && h.Head() <= v
    ensures Pop(h).buckets[0] != [] && Pop(h).Head() <= v
  {
    hide GetBucketIndex, Deal, MinOf, Elements;
    DropHeadLaws(h);
    PopLaws(h);
    var d := DropHead(h);
    if MustDeal(d) {
      DealLaws(d, h.Head());
      var i, m := DealtIndex(d), Pop(h).Head();
      MinOfIsLeast(d.buckets[i]);
      InElements(d.buckets, v);
      if v < m { IndexMonotone(h.Head(), v, m); }
    }
  }

  /** Among values all at or above the head, the next head is the least of those that remain. */
  lemma PopKeepsOrder(h: Heap)
    requires Valid(h) && h.size > 0 && InOrder(h)
    ensures Valid(Pop(h)) && InOrder(Pop(h))
  {
    hide GetBucketIndex, Pop, Elements, MinOf;
    PopLaws(h);
    forall v | v in Contents(Pop(h)) && Pop(h).size > 0 ensures Pop(h).Head() <= v {
      assert v in Contents(h);
      PopHeadBelow(h, v);
    }
  }

  // ---------- the potential ----------

  lemma {:induction false} WeightBelow(bs: seq<seq<uint64>>, c: nat)
    requires |bs| <= c + 1
    ensures Weight(bs) <= c * |Elements(bs)|
  {
    if bs != [] {
      var n := |bs| - 1;
      var below, last := |Elements(bs[..n])|, |bs[n]|;
      WeightBelow(bs[..n], c);
      Scale(n, c, last);
      assert |Elements(bs)| == below + last;
      Distribute(c, below, last);
    }
  }

  lemma Scale(a: nat, b: nat, n: nat)
    requires a <= b
    ensures a * n <= b * n
  {}

  lemma Distribute(c: int, a: nat, b: nat)
    ensures c * (a + b) == c * a + c * b
  {}

  /** Two bucket lists that agree from bucket `i` on differ only by what they hold below it. */
  lemma {:induction false} SameAbove(xs: seq<seq<uint64>>, ys: seq<seq<uint64>>, i: nat)
    requires i <= |xs| == |ys|
    requires forall j | i <= j < |xs| :: xs[j] == ys[j]
    ensures Weight(xs) + Weight(ys[..i]) == Weight(ys) + Weight(xs[..i])
    ensures |Elements(xs)| + |Elements(ys[..i])| == |Elements(ys)| + |Elements(xs[..i])|
  {
    var n := |xs|;
    if i == n {
      assert xs[..i] == xs && ys[..i] == ys;
    } else {
      SameAbove(xs[..n - 1], ys[..n - 1], i);
      assert xs[..n - 1][..i] == xs[..i] && ys[..n - 1][..i] == ys[..i];
    }
  }

  lemma LastBucket(bs: seq<seq<uint64>>, i: nat)
    requires i < |bs|
    ensures Weight(bs[..i + 1]) == Weight(bs[..i]) + i * |bs[i]|
    ensures |Elements(bs[..i + 1])| == |Elements(bs[..i])| + |bs[i]|
  {
    assert bs[..i + 1][..i] == bs[..i];
  }

  /** Dealing bucket `i` out into lower ones lowers the weight by at least its length. */
  lemma DealPays(bs: seq<seq<uint64>>, ds: seq<seq<uint64>>, i: nat)
    requires 1 <= i < |bs| == |ds| && Elements(bs) == Elements(ds)
    requires forall j | 0 <= j < i :: bs[j] == []
    requires ds[i] == [] && (forall j | i < j < |bs| :: ds[j] == bs[j])
    ensures Weight(ds) + |bs[i]| <= Weight(bs)
  {
    hide Weight, Elements;
    SameAbove(ds, bs, i + 1);
    LastBucket(ds, i);
    LastBucket(bs, i);
    NoElements(bs[..i]);
    WeightBelow(ds[..i], i - 1);
    OneLess(i, |bs[i]|, |Elements(ds[..i])|, Weight(ds[..i]));
  }

  lemma OneLess(i: nat, n: nat, m: nat, w: nat)
    requires i > 0 && m == n && w <= (i - 1) * m
    ensures w + n <= i * n
  {}

  /** Each move of a pop spends at least one unit of the potential. */
  lemma PopPaysMoves(h: Heap)
    requires Valid(h) && h.size > 0
    ensures Weight(Pop(h).buckets) + Moves(h) <= Weight(h.buckets)
  {
    hide GetBucketIndex, MinOf, Elements, Weight, WithIndex, DealtMins;
    DropHeadLaws(h);
    var d := DropHead(h);
    WeightUpdate(h.buckets, 0, d.buckets[0]);
    if MustDeal(d) {
      DealLaws(d, h.Head());
      DealPays(d.buckets, Pop(h).buckets, DealtIndex(d));
    }
  }
}
