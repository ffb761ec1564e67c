/*
 * The least-loaded dispatcher of cmd/load-balancer/main.go: a pool of
 * workers kept as a binary min-heap on each worker's pending count, with
 * every worker remembering its own slot in the heap.
 *
 * The sift-up and sift-down algorithms are those of Go's container/heap
 * package, which the program calls through the Pool's Len/Less/Swap/Push/Pop.
 */
module LoadBalancer {

  /** Number of workers the balancer creates (`workerSize`). */
  const WorkerSize: nat := 10

  /** A client request; its reply channel is not modelled. */
  datatype Request = Request(data: int)

  /** A worker: its heap slot, its queue of work (a FIFO), and its pending count. */
  class Worker {
    var idx: int
    var work: seq<Request>
    var pending: int

    constructor ()
      ensures idx == 0 && work == [] && pending == 0
    {
      idx, work, pending := 0, [], 0;
    }
  }

  /** Slot of the parent of heap slot `j`; Go's `(j - 1) / 2` truncates, so slot 0 is its own parent. */
  function Parent(j: nat): (p: nat)
    ensures j == 0 ==> p == 0
    ensures j > 0 ==> p < j && IsChild(p, j)
  {
    if j == 0 then 0 else (j - 1) / 2
  }

  /**
   * Slot `c` is a child of slot `p`. The heap-order quantifiers below are triggered on this
   * predicate only, so that they are instantiated only for the edges a proof names.
   */
  predicate IsChild(p: int, c: int) {
    c == 2 * p + 1 || c == 2 * p + 2
  }

  /** No worker occurs twice. */
  ghost predicate Distinct(s: seq<Worker>) {
    forall a, b :: 0 <= a < b < |s| ==> s[a] != s[b]
  }

  /** The pending counts of `s`, slot by slot: the keys the heap is ordered on. */
  ghost function Keys(s: seq<Worker>): (r: seq<int>)
    reads s`pending
    ensures |r| == |s|
  {
    if s == [] then [] else Keys(s[..|s| - 1]) + [s[|s| - 1].pending]
  }

  /** Slot `k` of the keys is the pending count of the worker in slot `k`. */
  lemma {:induction false} KeyAt(s: seq<Worker>, k: nat)
    requires k < |s|
    ensures Keys(s)[k] == s[k].pending
    decreases |s|
  {
    if k < |s| - 1 {
      KeyAt(s[..|s| - 1], k);
    }
  }

  /** Heap order on the first `n` keys: no child is less than its parent. */
  ghost predicate Ordered(a: seq<int>, n: nat)
    requires n <= |a|
  {
    forall p, c {:trigger IsChild(p, c)} :: 0 <= p < c < n && IsChild(p, c) ==> a[p] <= a[c]
  }

  /** The parent of slot `j` (if any) is no greater than the children of `j` among the first `n` slots. */
  ghost predicate ParentBelowChildren(a: seq<int>, n: nat, j: nat)
    requires n <= |a| && j < |a|
  {
    0 < j ==> forall c {:trigger IsChild(j, c)} :: 0 < c < n && IsChild(j, c) ==> a[Parent(j)] <= a[c]
  }

  /** Heap order on the first `n` slots except on the edge from slot `j` up to its parent (sift-up invariant). */
  ghost predicate OrderedExceptAbove(a: seq<int>, n: nat, j: nat)
    requires n <= |a| && j < |a|
  {
    && (forall p, c {:trigger IsChild(p, c)} :: 0 <= p < c < n && IsChild(p, c) && c != j ==> a[p] <= a[c])
    && ParentBelowChildren(a, n, j)
  }

  /** Heap order on the first `n` slots except on the edges touching slot `i` (sift-down invariant). */
  ghost predicate OrderedAround(a: seq<int>, n: nat, i: nat)
    requires n <= |a| && i < |a|
  {
    && (forall p, c {:trigger IsChild(p, c)} :: 0 <= p < c < n && IsChild(p, c) && p != i && c != i ==> a[p] <= a[c])
    && ParentBelowChildren(a, n, i)
  }

  /** `a` with slots `i` and `j` exchanged. */
  function Swapped(a: seq<int>, i: nat, j: nat): (b: seq<int>)
    requires i < |a| && j < |a|
    ensures |b| == |a| && b[i] == a[j] && b[j] == a[i]
    ensures forall k :: 0 <= k < |a| && k != i && k != j ==> b[k] == a[k]
  {
    a[i := a[j]][j := a[i]]
  }

  /** Sum of a sequence of counts. */
  function Sum(a: seq<int>): int
  {
    if a == [] then 0 else Sum(a[..|a| - 1]) + a[|a| - 1]
  }

  /** Sum of the pending counts of `s`. */
  ghost function Total(s: seq<Worker>): int
    reads s`pending
  {
    Sum(Keys(s))
  }

  /** Replacing one count moves the sum by the difference. */
  lemma {:induction false} SumUpdate(a: seq<int>, k: nat, v: int)
    requires k < |a|
    ensures Sum(a[k := v]) == Sum(a) + v - a[k]
    decreases |a|
  {
    var b := a[k := v];
    var n := |a| - 1;
    assert b[..n] == if k == n then a[..n] else a[..n][k := v];
    if k < n {
      SumUpdate(a[..n], k, v);
    }
  }

  /** The worker pool: Go's `Pool` slice, here a sequence field that the methods reassign. */
  class Pool {
    var items: seq<Worker>

    /** `make(Pool, 0, workerSize)`: an empty pool. */
    constructor ()
      ensures items == [] && Valid()
    {
      items := [];
    }

    /** Every worker records its own slot: `pool[w.idx] == w`. */
    ghost predicate Valid()
      reads this, items`idx
      ensures Valid() ==> Distinct(items)
    {
      forall k :: 0 <= k < |items| ==> items[k].idx == k
    }

    /** `Len`: the pool's size, which bounds every recorded slot while the pool is valid. */
    function Len(): (n: nat)
      reads this, items`idx
      ensures n == |items|
      ensures Valid() ==> forall w :: w in items ==> 0 <= w.idx < n
    {
      |items|
    }

    predicate Less(i: nat, j: nat)
      requires i < |items| && j < |items|
      reads this, items`pending
      ensures Less(i, j) <==> Keys(items)[i] < Keys(items)[j]
    {
      KeyAt(items, i);
      KeyAt(items, j);
      items[i].pending < items[j].pending
    }

    /** Exchanges two slots and records each moved worker's new slot. */
    method Swap(i: nat, j: nat)
      requires i < |items| && j < |items|
      modifies this`items, {items[i], items[j]}`idx
      ensures items == old(items)[i := old(items)[j]][j := old(items)[i]]
      ensures items[j].idx == j && (items[i] != items[j] ==> items[i].idx == i)
      ensures Keys(items) == Swapped(old(Keys(items)), i, j)
      ensures multiset(items) == multiset(old(items))
      ensures old(Valid()) ==> Valid()
    {
      KeysSwapped(items, i, j);
      SwappedPerm(items, i, j);
      items := items[i := items[j]][j := items[i]];
      items[i].idx := i;
      items[j].idx := j;
      KeysUnchanged(items);
    }

    /** Appends a worker, recording its slot. */
    method Push(w: Worker)
      modifies this`items, w`idx
      ensures items == old(items) + [w] && w.idx == old(|items|)
      ensures Keys(items) == old(Keys(items)) + [w.pending]
      ensures old(Valid()) && w !in old(items) ==> Valid()
    {
      var n := |items|;
      w.idx := n;
      items := items + [w];
      assert items[..n] == old(items);
    }

    /** Removes the last worker and marks it as out of the heap (`idx == -1`). */
    method Pop() returns (w: Worker)
      requires |items| > 0
      modifies this`items, {items[|items| - 1]}`idx
      ensures w == old(items[|items| - 1]) && items == old(items[..|items| - 1]) && w.idx == -1
      ensures Keys(items) == old(Keys(items))[..|items|]
      ensures multiset(items) + multiset{w} == multiset(old(items))
      ensures old(Valid()) ==> Valid() && w !in items
    {
      var n := |items|;
      w := items[n - 1];
      assert items == items[..n - 1] + [w];
      w.idx := -1;
      items := items[..n - 1];
      KeysUnchanged(old(items));
    }
  }

  /**
   * One step of sift-up: swapping slot `j` with its parent, which is greater, leaves the heap
   * ordered except above the parent's slot.
   */
  lemma SiftUpStep(a: seq<int>, n: nat, j: nat)
    requires 0 < j < n <= |a| && OrderedExceptAbove(a, n, j)
    requires a[j] < a[Parent(j)]
    ensures OrderedExceptAbove(Swapped(a, Parent(j), j), n, Parent(j))
  {
    var i := Parent(j);
    var b := Swapped(a, i, j);
    forall p, c | 0 <= p < c < n && IsChild(p, c) && c != i
      ensures b[p] <= b[c]
    {
      if c == j {
        assert p == i;
      } else if p == j || p == i {
        assert a[i] <= a[c];
      }
    }
    if 0 < i {
      forall c | 0 < c < n && IsChild(i, c)
        ensures b[Parent(i)] <= b[c]
      {
        assert Parent(i) < i;
        assert a[Parent(i)] <= a[i];
      }
    }
  }

  /** Once slot `i` is no greater than its children, the only edge that may be out of order is the one above `i`. */
  lemma SiftDownDone(a: seq<int>, n: nat, i: nat)
    requires n <= |a| && i < |a| && OrderedAround(a, n, i)
    requires 2 * i + 1 < n ==> a[i] <= a[2 * i + 1]
    requires 2 * i + 2 < n ==> a[i] <= a[2 * i + 2]
    ensures OrderedExceptAbove(a, n, i)
  {
  }

  /** When the edge above `j` is in order too, the first `n` slots are heap-ordered. */
  lemma AboveToOrdered(a: seq<int>, n: nat, j: nat)
    requires j < n <= |a| && OrderedExceptAbove(a, n, j)
    requires 0 < j ==> a[Parent(j)] <= a[j]
    ensures Ordered(a, n)
  {
    forall p, c | 0 <= p < c < n && IsChild(p, c)
      ensures a[p] <= a[c]
    {
      if c == j {
        assert p == Parent(j);
      }
    }
  }

  /**
   * One step of sift-down: swapping slot `i` with its smaller child `j`, which is less than `i`,
   * leaves the heap ordered around `j`, with the edge above `j` in order.
   */
  lemma SiftDownStep(a: seq<int>, n: nat, i: nat, j1: nat, j: nat)
    requires n <= |a| && j1 == 2 * i + 1 && (j == j1 || j == j1 + 1) && j < n
    requires OrderedAround(a, n, i)
    requires a[j] < a[i]
    requires a[j] <= a[j1] && (j1 + 1 < n ==> a[j] <= a[j1 + 1])
    ensures Parent(j) == i
    ensures OrderedAround(Swapped(a, i, j), n, j) && Swapped(a, i, j)[Parent(j)] <= Swapped(a, i, j)[j]
  {
    var b := Swapped(a, i, j);
    assert Parent(j) == i;
    forall p, c | 0 <= p < c < n && IsChild(p, c) && p != j && c != j
      ensures b[p] <= b[c]
    {
      if c == i {
        assert p == Parent(i);
      }
    }
  }

  /** container/heap's `up`: moves the worker at slot `j0` towards the root while it is less than its parent. */
  method Up(h: Pool, j0: nat, ghost n: nat)
    requires j0 < n <= |h.items|
    requires h.Valid() && OrderedExceptAbove(Keys(h.items), n, j0)
    modifies h`items, h.items`idx
    ensures h.Valid() && |h.items| == |old(h.items)| && Ordered(Keys(h.items), n)
    ensures multiset(h.items) == multiset(old(h.items))
    ensures h.items[n..] == old(h.items)[n..]
  {
    var j: nat := j0;
    while true
      invariant j <= j0 < n <= |h.items| == |old(h.items)|
      invariant h.Valid() && OrderedExceptAbove(Keys(h.items), n, j)
      invariant multiset(h.items) == multiset(old(h.items))
      invariant h.items[n..] == old(h.items)[n..]
      decreases j
    {
      var i := Parent(j);
      if i == j || !h.Less(j, i) {
        break;
      }
      assert h.items[i] in multiset(old(h.items)) && h.items[j] in multiset(old(h.items));
      SiftUpStep(Keys(h.items), n, j);
      h.Swap(i, j);
      j := i;
    }
    AboveToOrdered(Keys(h.items), n, j);
  }

  /**
   * container/heap's `down`: moves the worker at slot `i0` away from the root, within the first `n`
   * slots, while one of its children is less; reports whether it moved.
   */
  method Down(h: Pool, i0: nat, n: nat) returns (moved: bool)
    requires i0 <= n <= |h.items| && i0 < |h.items|
    requires h.Valid() && OrderedAround(Keys(h.items), n, i0)
    modifies h`items, h.items`idx
    ensures h.Valid() && |h.items| == |old(h.items)|
    ensures multiset(h.items) == multiset(old(h.items))
    ensures h.items[n..] == old(h.items)[n..]
    ensures moved ==> Ordered(Keys(h.items), n)
    ensures !moved ==> h.items == old(h.items) && OrderedExceptAbove(Keys(h.items), n, i0)
  {
    var i := i0;
    ghost var a := Keys(h.items);
    while true
      invariant i0 <= i < |h.items| == |old(h.items)| && i <= n
      invariant h.Valid() && a == Keys(h.items)
      invariant OrderedAround(a, n, i)
      invariant i > i0 ==> i < n && a[Parent(i)] <= a[i]
      invariant i == i0 ==> h.items == old(h.items)
      invariant multiset(h.items) == multiset(old(h.items))
      invariant h.items[n..] == old(h.items)[n..]
      invariant forall k :: 0 <= k < |h.items| ==> h.items[k] in old(h.items)
      decreases n - i
    {
      var j;
      j, a := DownOnce(h, a, n, i);
      if j == i {
        break;
      }
      i := j;
    }
    moved := i > i0;
    if moved {
      AboveToOrdered(a, n, i);
    }
  }

  method DownOnce(h: Pool, ghost a: seq<int>, n: nat, i: nat) returns (j: nat, ghost b: seq<int>)
    requires i <= n <= |h.items| && i < |h.items|
    requires h.Valid() && a == Keys(h.items) && OrderedAround(a, n, i)
    modifies h`items, h.items`idx
    ensures h.Valid() && b == Keys(h.items) && |h.items| == |old(h.items)|
    ensures multiset(h.items) == multiset(old(h.items))
    ensures h.items[n..] == old(h.items)[n..]
    ensures forall k :: 0 <= k < |h.items| ==> h.items[k] in old(h.items)
    ensures j == i ==> h.items == old(h.items) && b == a && OrderedExceptAbove(b, n, i)
    ensures j != i ==> i < j < n && Parent(j) == i && OrderedAround(b, n, j) && b[Parent(j)] <= b[j]
  {
    // Go also stops when 2*i+1 overflows; integers here are unbounded.
    var j1 := 2 * i + 1;
    if j1 >= n {
      SiftDownDone(a, n, i);
      return i, a;
    }
    j := j1;
    if j1 + 1 < n && h.Less(j1 + 1, j1) {
      j := j1 + 1;
    }
    if !h.Less(j, i) {
      SiftDownDone(a, n, i);
      return i, a;
    }
    b := SwapDown(h, a, n, i, j1, j);
  }

  method SwapDown(h: Pool, ghost a: seq<int>, n: nat, i: nat, j1: nat, j: nat) returns (ghost b: seq<int>)
    requires n <= |h.items| && j1 == 2 * i + 1 && (j == j1 || j == j1 + 1) && j < n
    requires h.Valid() && a == Keys(h.items) && OrderedAround(a, n, i)
    requires a[j] < a[i] && a[j] <= a[j1] && (j1 + 1 < n ==> a[j] <= a[j1 + 1])
    modifies h`items, h.items`idx
    ensures h.Valid() && b == Keys(h.items) && |h.items| == |old(h.items)|
    ensures multiset(h.items) == multiset(old(h.items))
    ensures h.items[n..] == old(h.items)[n..]
    ensures forall k :: 0 <= k < |h.items| ==> h.items[k] in old(h.items)
    ensures i < j < n && Parent(j) == i && OrderedAround(b, n, j) && b[Parent(j)] <= b[j]
  {
    SiftDownStep(a, n, i, j1, j);
    SwappedBelow(h.items, h.items[i := h.items[j]][j := h.items[i]], i, j, n);
    h.Swap(i, j);
    b := Swapped(a, i, j);
  }

  /** Keys depend on the pending counts only. */
  twostate lemma {:induction false} KeysUnchanged(s: seq<Worker>)
    requires forall k :: 0 <= k < |s| ==> old(s[k].pending) == s[k].pending
    ensures Keys(s) == old(Keys(s))
    decreases |s|
  {
    if s != [] {
      KeysUnchanged(s[..|s| - 1]);
    }
  }

  /** Exchanging two slots keeps the same elements. */
  lemma SwappedPerm(s: seq<Worker>, i: nat, j: nat)
    requires i < |s| && j < |s|
    ensures multiset(s[i := s[j]][j := s[i]]) == multiset(s)
  {
  }

  /** Exchanging two slots below `n` leaves the slots from `n` on alone and brings in no new element. */
  lemma SwappedBelow(s: seq<Worker>, t: seq<Worker>, i: nat, j: nat, n: nat)
    requires i < n && j < n && n <= |s| && t == s[i := s[j]][j := s[i]]
    ensures t[n..] == s[n..]
    ensures forall k :: 0 <= k < |t| ==> t[k] in s
  {
  }

  /** Exchanging two workers exchanges their keys. */
  lemma KeysSwapped(s: seq<Worker>, i: nat, j: nat)
    requires i < |s| && j < |s|
    ensures Keys(s[i := s[j]][j := s[i]]) == Swapped(Keys(s), i, j)
  {
    var t := s[i := s[j]][j := s[i]];
    forall k | 0 <= k < |s|
      ensures Keys(t)[k] == Swapped(Keys(s), i, j)[k]
    {
      KeyAt(t, k);
      KeyAt(s, k);
      KeyAt(s, i);
      KeyAt(s, j);
    }
  }

  /** container/heap's `Push`: append, then sift up. */
  method HeapPush(h: Pool, x: Worker)
    requires h.Valid() && Ordered(Keys(h.items), |h.items|) && x !in h.items
    modifies h`items, h.items`idx, x`idx
    ensures h.Valid() && Ordered(Keys(h.items), |h.items|)
    ensures multiset(h.items) == multiset(old(h.items)) + multiset{x}
  {
    h.Push(x);
    Up(h, h.Len() - 1, h.Len());
  }

  /** container/heap's `Pop`: swap the root with the last slot, sift down the rest, take the last. */
  method HeapPop(h: Pool) returns (x: Worker)
    requires h.Valid() && Ordered(Keys(h.items), |h.items|) && |h.items| > 0
    modifies h`items, h.items`idx
    ensures x == old(h.items[0]) && x.idx == -1 && x !in h.items
    ensures h.Valid() && Ordered(Keys(h.items), |h.items|)
    ensures |h.items| == |old(h.items)| - 1
    ensures multiset(h.items) + multiset{x} == multiset(old(h.items))
  {
    var n := h.Len() - 1;
    h.Swap(0, n);
    var _ := Down(h, 0, n);
    x := h.Pop();
  }

  /**
   * container/heap's `Remove`: move the last worker into slot `i`, sift it down or else up, take the last.
   * The heap only has to be ordered around slot `i`: the removed worker's own key may already be out of order.
   */
  method HeapRemove(h: Pool, i: nat) returns (x: Worker)
    requires i < |h.items|
    requires h.Valid() && OrderedAround(Keys(h.items), |h.items|, i)
    modifies h`items, h.items`idx
    ensures x == old(h.items[i]) && x.idx == -1 && x !in h.items
    ensures h.Valid() && Ordered(Keys(h.items), |h.items|)
    ensures |h.items| == |old(h.items)| - 1
    ensures multiset(h.items) + multiset{x} == multiset(old(h.items))
  {
    var n := h.Len() - 1;
    ghost var w := h.items[i];
    if n != i {
      MoveLastInto(Keys(h.items), i);
      h.Swap(i, n);
      Resettle(h, i, n);
      assert h.items[n..][0] == w;
    } else {
      DropLast(Keys(h.items));
    }
    OrderedPrefix(Keys(h.items), n);
    x := h.Pop();
  }

  /**
   * The `if !down(h, i, n) { up(h, i) }` step that `Remove` and `Fix` share: the worker at slot `i`
   * goes down if a child is less, and otherwise up, restoring heap order on the first `n` slots.
   */
  method Resettle(h: Pool, i: nat, n: nat)
    requires i < n <= |h.items|
    requires h.Valid() && OrderedAround(Keys(h.items), n, i)
    modifies h`items, h.items`idx
    ensures h.Valid() && |h.items| == |old(h.items)| && Ordered(Keys(h.items), n)
    ensures multiset(h.items) == multiset(old(h.items))
    ensures h.items[n..] == old(h.items)[n..]
  {
    var moved := Down(h, i, n);
    if !moved {
      Up(h, i, n);
    }
  }

  /** Moving the last key into slot `i`, around which the keys are ordered, leaves the rest ordered around `i`. */
  lemma MoveLastInto(a: seq<int>, i: nat)
    requires i < |a| - 1 && OrderedAround(a, |a|, i)
    ensures OrderedAround(Swapped(a, i, |a| - 1), |a| - 1, i)
  {
    var n := |a| - 1;
    var b := Swapped(a, i, n);
    forall p, c | 0 <= p < c < n && IsChild(p, c) && p != i && c != i
      ensures b[p] <= b[c]
    {
    }
    if 0 < i {
      forall c | 0 < c < n && IsChild(i, c)
        ensures b[Parent(i)] <= b[c]
      {
        assert Parent(i) < i;
      }
    }
  }

  /** Keys ordered around the last slot are ordered once it is dropped. */
  lemma DropLast(a: seq<int>)
    requires |a| > 0 && OrderedAround(a, |a|, |a| - 1)
    ensures Ordered(a, |a| - 1)
  {
  }

  /** Heap order on the first `n` keys is heap order of the prefix of length `n`. */
  lemma OrderedPrefix(a: seq<int>, n: nat)
    requires n <= |a| && Ordered(a, n)
    ensures Ordered(a[..n], n)
  {
    var b := a[..n];
    forall p, c | 0 <= p < c < n && IsChild(p, c)
      ensures b[p] <= b[c]
    {
    }
  }

  /** In a heap-ordered prefix the root holds the least key. */
  lemma {:induction false} RootIsMin(a: seq<int>, n: nat, k: nat)
    requires k < n <= |a| && Ordered(a, n)
    ensures a[0] <= a[k]
    decreases k
  {
    if k > 0 {
      var p := Parent(k);
      assert a[p] <= a[k];
      RootIsMin(a, n, p);
    }
  }

  /** The worker at the root of a heap-ordered pool has the least pending count of all its workers. */
  lemma {:induction false} RootIsLeastLoaded(s: seq<Worker>)
    requires |s| > 0 && Ordered(Keys(s), |s|)
    ensures forall v :: v in s ==> s[0].pending <= v.pending
  {
    forall k | 0 <= k < |s|
      ensures s[0].pending <= s[k].pending
    {
      RootBelow(s, k);
    }
  }

  lemma RootBelow(s: seq<Worker>, k: nat)
    requires k < |s| && Ordered(Keys(s), |s|)
    ensures s[0].pending <= s[k].pending
  {
    KeyAt(s, 0);
    KeyAt(s, k);
    RootIsMin(Keys(s), |s|, k);
  }

  /** Lowering or raising the key in slot `i` of an ordered heap leaves it ordered around `i`. */
  lemma ChangedKey(a: seq<int>, n: nat, i: nat, x: int)
    requires i < n <= |a| && Ordered(a, n)
    ensures OrderedAround(a[i := x], n, i)
  {
    var b := a[i := x];
    if 0 < i {
      forall c | 0 < c < n && IsChild(i, c)
        ensures b[Parent(i)] <= b[c]
      {
        assert a[Parent(i)] <= a[i];
      }
    }
  }

  /** Both before and after a change of state, slot `k` of the keys is the pending count of the worker in slot `k`. */
  twostate lemma {:induction false} KeysBoth(s: seq<Worker>)
    ensures forall k :: 0 <= k < |s| ==> Keys(s)[k] == s[k].pending && old(Keys(s))[k] == old(s[k].pending)
    decreases |s|
  {
    if s != [] {
      KeysBoth(s[..|s| - 1]);
    }
  }

  /** `heap.Remove(h, w.idx)` followed by `heap.Push(h, w)`: re-seats a worker whose pending count changed. */
  method Reseat(h: Pool, w: Worker)
    requires 0 <= w.idx < |h.items| && h.items[w.idx] == w
    requires h.Valid() && OrderedAround(Keys(h.items), |h.items|, w.idx)
    modifies h`items, h.items`idx
    ensures h.Valid() && Ordered(Keys(h.items), |h.items|)
    ensures multiset(h.items) == multiset(old(h.items))
  {
    var x := HeapRemove(h, w.idx);
    SameWorkers(h.items + [x], old(h.items));
    assert forall k :: 0 <= k < |h.items| ==> h.items[k] == (h.items + [x])[k];
    HeapPush(h, x);
  }

  /**
   * `w.work <- req; w.pending++`: queues the request at the back of the worker's work and counts
   * it as pending; the sum of pending counts over a roster holding `w` once goes up by one.
   */
  method Enqueue(w: Worker, req: Request, ghost roster: seq<Worker>)
    requires w in roster && Distinct(roster)
    modifies w`work, w`pending
    ensures w.work == old(w.work) + [req] && w.pending == old(w.pending) + 1
    ensures Total(roster) == old(Total(roster)) + 1
  {
    ghost var r :| 0 <= r < |roster| && roster[r] == w;
    w.work := w.work + [req];
    w.pending := w.pending + 1;
    KeysBoth(roster);
    assert Keys(roster) == old(Keys(roster))[r := w.pending];
    SumUpdate(old(Keys(roster)), r, w.pending);
  }

  /**
   * `w.pending--`: in the heap `s`, where `w` sits in slot `k`, only that key drops; the sum of
   * pending counts over a roster holding `w` once goes down by one.
   */
  method Release(w: Worker, ghost s: seq<Worker>, ghost k: nat, ghost roster: seq<Worker>)
    requires k < |s| && s[k] == w && Distinct(s)
    requires w in roster && Distinct(roster)
    modifies w`pending
    ensures w.pending == old(w.pending) - 1
    ensures Keys(s) == old(Keys(s))[k := w.pending]
    ensures Total(roster) == old(Total(roster)) - 1
  {
    ghost var r :| 0 <= r < |roster| && roster[r] == w;
    w.pending := w.pending - 1;
    KeysBoth(s);
    assert Keys(s) == old(Keys(s))[k := w.pending];
    KeysBoth(roster);
    assert Keys(roster) == old(Keys(roster))[r := w.pending];
    SumUpdate(old(Keys(roster)), r, w.pending);
  }

  /** One round of `newLoadBalancer`'s loop: a new idle worker, pushed onto the heap. */
  method AddWorker(h: Pool) returns (w: Worker)
    requires h.Valid() && Ordered(Keys(h.items), |h.items|)
    modifies h`items, h.items`idx
    ensures fresh(w) && w.pending == 0 && w.work == []
    ensures h.Valid() && Ordered(Keys(h.items), |h.items|)
    ensures multiset(h.items) == multiset(old(h.items)) + multiset{w}
  {
    w := new Worker();
    HeapPush(h, w);
  }

  /** Sequences with the same elements, counted with multiplicity, hold the same workers. */
  lemma SameWorkers(s: seq<Worker>, t: seq<Worker>)
    requires multiset(s) == multiset(t)
    ensures forall k :: 0 <= k < |s| ==> s[k] in t
    ensures forall v :: v in t ==> v in s
  {
    forall k | 0 <= k < |s|
      ensures s[k] in t
    {
      assert s[k] in multiset(t);
    }
    forall v | v in t
      ensures v in s
    {
      assert v in multiset(s);
    }
  }

  /** Counts that are each 0 or 1 sum to between 0 and their number, reaching the ends exactly when all are 0 or all are 1. */
  lemma {:induction false} SumOfBits(a: seq<int>)
    requires forall i :: 0 <= i < |a| ==> 0 <= a[i] <= 1
    ensures 0 <= Sum(a) <= |a|
    ensures Sum(a) == 0 <==> forall i :: 0 <= i < |a| ==> a[i] == 0
    ensures Sum(a) == |a| <==> forall i :: 0 <= i < |a| ==> a[i] == 1
    decreases |a|
  {
    if a != [] {
      var b := a[..|a| - 1];
      assert forall i :: 0 <= i < |b| ==> b[i] == a[i];
      SumOfBits(b);
    }
  }

  /** The keys of `s` are its pending counts, slot by slot. */
  lemma {:induction false} AllKeys(s: seq<Worker>)
    ensures forall k :: 0 <= k < |s| ==> Keys(s)[k] == s[k].pending
  {
    forall k | 0 <= k < |s|
      ensures Keys(s)[k] == s[k].pending
    {
      KeyAt(s, k);
    }
  }

  /** Workers each with 0 or 1 pending request: the total is 0 exactly when all are idle, and their number exactly when all are busy. */
  lemma {:induction false} BitsTotal(s: seq<Worker>)
    requires forall v :: v in s ==> 0 <= v.pending <= 1
    ensures 0 <= Total(s) <= |s|
    ensures Total(s) == 0 <==> forall v :: v in s ==> v.pending == 0
    ensures Total(s) == |s| <==> forall v :: v in s ==> v.pending == 1
  {
    AllKeys(s);
    SumOfBits(Keys(s));
  }

  /** What reaches the balancer: a request from a client, or a worker reporting a finished request. */
  datatype Event = Arrival(req: Request) | Done(w: Worker)

  /** Requests arrived minus requests completed. */
  function Net(events: seq<Event>): int
  {
    if events == [] then 0
    else Net(events[..|events| - 1]) + (if events[|events| - 1].Arrival? then 1 else -1)
  }

  /** The balancer: the pool of workers, over a fixed roster created at start-up. */
  class LoadBalancer {
    const pool: Pool
    /** The workers created by the constructor; the pool always holds exactly these. */
    ghost const roster: seq<Worker>

    ghost predicate Valid()
      reads this, pool, pool.items`idx, pool.items`pending
    {
      && |roster| == WorkerSize
      && Distinct(roster)
      && multiset(pool.items) == multiset(roster)
      && pool.Valid()
      && Ordered(Keys(pool.items), |pool.items|)
    }

    /** Between events every worker of the roster sits in the slot it records: `pool[w.idx] == w`. */
    lemma SeatOf(w: Worker)
      requires Valid() && w in roster
      ensures 0 <= w.idx < |pool.items| && pool.items[w.idx] == w
    {
      SameWorkers(pool.items, roster);
    }

    /** No worker has a negative pending count. */
    ghost predicate NonNegative()
      reads this, roster`pending
    {
      forall v :: v in roster ==> v.pending >= 0
    }

    /** `newLoadBalancer`: creates `WorkerSize` idle workers and pushes each onto the heap. */
    constructor ()
      ensures Valid() && fresh(pool) && |pool.items| == WorkerSize
      ensures forall v :: v in roster ==> fresh(v) && v.pending == 0 && v.work == []
      ensures fresh(set v | v in roster)
    {
      var p := new Pool();
      ghost var r: seq<Worker> := [];
      for k := 0 to WorkerSize
        invariant fresh(p) && p.Valid() && Ordered(Keys(p.items), |p.items|)
        invariant |r| == k && Distinct(r) && multiset(p.items) == multiset(r)
        invariant forall v :: v in r ==> fresh(v) && v.pending == 0 && v.work == []
      {
        SameWorkers(p.items, r);
        var w := AddWorker(p);
        r := r + [w];
      }
      pool := p;
      roster := r;
    }

    /**
     * `dispatch`: takes the least-loaded worker off the heap, queues the request on it, counts it
     * as pending and puts the worker back.
     */
    method Dispatch(req: Request) returns (ghost w: Worker)
      requires Valid()
      modifies pool, roster`idx, roster`work, roster`pending
      ensures Valid()
      ensures w in roster && forall v :: v in roster ==> old(w.pending) <= old(v.pending)
      ensures w.pending == old(w.pending) + 1 && w.work == old(w.work) + [req]
      ensures forall v :: v in roster && v != w ==> v.pending == old(v.pending) && v.work == old(v.work)
      ensures Total(roster) == old(Total(roster)) + 1
    {
      SameWorkers(pool.items, roster);
      RootIsLeastLoaded(pool.items);
      var x := HeapPop(pool);
      SameWorkers(pool.items + [x], roster);
      assert forall k :: 0 <= k < |pool.items| ==> pool.items[k] == (pool.items + [x])[k];
      label popped:
      Enqueue(x, req, roster);
      KeysUnchanged@popped(pool.items);
      HeapPush(pool, x);
      w := x;
    }

    /** `completed`: one request of `w` is done; its pending count drops and it is re-seated in the heap. */
    method Completed(w: Worker)
      requires Valid() && w in roster
      modifies pool, roster`idx, w`pending
      ensures Valid()
      ensures w.pending == old(w.pending) - 1
      ensures forall v :: v in roster && v != w ==> v.pending == old(v.pending)
      ensures Total(roster) == old(Total(roster)) - 1
      ensures old(NonNegative()) && old(w.pending) > 0 ==> NonNegative()
    {
      ghost var a := Keys(pool.items);
      SameWorkers(pool.items, roster);
      ghost var k :| 0 <= k < |pool.items| && pool.items[k] == w;
      Release(w, pool.items, k, roster);
      ChangedKey(a, |pool.items|, k, w.pending);
      Reseat(pool, w);
    }

    /**
     * `WorkerSize` dispatches into an idle pool, with no completion in between, give every worker
     * exactly one pending request: each dispatch goes to a worker that had none.
     */
    method FirstRound(reqs: seq<Request>)
      requires Valid() && |reqs| == WorkerSize
      requires forall v :: v in roster ==> v.pending == 0
      modifies pool, roster`idx, roster`work, roster`pending
      ensures Valid()
      ensures forall v :: v in roster ==> v.pending == 1
    {
      BitsTotal(roster);
      for k := 0 to |reqs|
        invariant Valid()
        invariant forall v :: v in roster ==> 0 <= v.pending <= 1
        invariant Total(roster) == k
      {
        BitsTotal(roster);
        ghost var w := Dispatch(reqs[k]);
      }
      BitsTotal(roster);
    }

    /** `balance`'s select loop, over a given sequence of arrivals and completions. */
    method Balance(events: seq<Event>)
      requires Valid()
      requires forall e :: e in events && e.Done? ==> e.w in roster
      modifies pool, roster`idx, roster`work, roster`pending
      ensures Valid()
      ensures Total(roster) == old(Total(roster)) + Net(events)
    {
      for k := 0 to |events|
        invariant Valid()
        invariant Total(roster) == old(Total(roster)) + Net(events[..k])
      {
        assert events[..k + 1][..k] == events[..k];
        match events[k]
        case Arrival(req) =>
          ghost var _ := Dispatch(req);
        case Done(w) =>
          Completed(w);
      }
      assert events[..|events|] == events;
    }
  }

  /**
   * `newLoadBalancer()` followed by `WorkerSize` requests and no completion, as `main` starts it:
   * the caller can use the balancer it built, and every worker ends with one pending request.
   */
  method StartedBalancer(reqs: seq<Request>) returns (b: LoadBalancer)
    requires |reqs| == WorkerSize
    ensures fresh(b) && b.Valid() && fresh(set v | v in b.roster)
    ensures forall v :: v in b.roster ==> v.pending == 1
  {
    b := new LoadBalancer();
    b.FirstRound(reqs);
  }
}
