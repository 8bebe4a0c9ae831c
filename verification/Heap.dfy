/** Multisets of positions, and the binary min-heap the cursors are merged with. */
module Bags {

  type Bag = multiset<int>

  lemma NonEmpty(a: Bag)
    ensures a != multiset{} ==> exists x :: x in a
  {
    if forall x :: x !in a {
      assert a == multiset{};
    }
  }

  /** The elements at or above `t`. */
  ghost function From(a: Bag, t: int): (b: Bag)
    ensures forall x :: b[x] == if x >= t then a[x] else 0
    decreases |a|
  {
    if a == multiset{} then a
    else
      NonEmpty(a);
      var x :| x in a;
      var rest := From(a[x := 0], t);
      if x >= t then rest[x := a[x]] else rest
  }

  /** The elements of `a` that are also in `b`, as often as in `a`. */
  ghost function Meet(a: Bag, b: Bag): (m: Bag)
    ensures forall x :: m[x] == if x in b then a[x] else 0
    decreases |a|
  {
    if a == multiset{} then a
    else
      NonEmpty(a);
      var x :| x in a;
      var rest := Meet(a[x := 0], b);
      if x in b then rest[x := a[x]] else rest
  }

  lemma FromSize(a: Bag, t: int)
    ensures From(a, t) <= a
    ensures |From(a, t)| <= |a|
    ensures (exists x :: x in a && x < t) ==> |From(a, t)| < |a|
  {
    var b := From(a, t);
    assert a == b + (a - b);
  }

  // ---------- Union ----------

  ghost function Sum(bags: seq<Bag>): Bag {
    if bags == [] then multiset{} else Sum(bags[..|bags| - 1]) + bags[|bags| - 1]
  }

  lemma {:induction false} SumUpdate(bags: seq<Bag>, i: nat, b: Bag)
    requires i < |bags|
    ensures bags[i] <= Sum(bags)
    ensures Sum(bags[i := b]) == Sum(bags) - bags[i] + b
  {
    var n := |bags| - 1;
    if i < n {
      SumUpdate(bags[..n], i, b);
      assert bags[i := b][..n] == bags[..n][i := b];
    } else {
      assert bags[i := b][..n] == bags[..n];
    }
  }

  lemma {:induction false} SumMember(bags: seq<Bag>, x: int)
    ensures x in Sum(bags) <==> exists i :: 0 <= i < |bags| && x in bags[i]
  {
    if bags != [] {
      var n := |bags| - 1;
      SumMember(bags[..n], x);
      assert forall i :: 0 <= i < n ==> bags[..n][i] == bags[i];
    }
  }

  lemma {:induction false} SumFrom(bags: seq<Bag>, bags': seq<Bag>, t: int)
    requires |bags| == |bags'| && forall i :: 0 <= i < |bags| ==> bags'[i] == From(bags[i], t)
    ensures Sum(bags') == From(Sum(bags), t)
  {
    if bags != [] {
      var n := |bags| - 1;
      SumFrom(bags[..n], bags'[..n], t);
    }
  }

  // ---------- Intersection ----------

  /** What the first bag has in common with all the others. */
  ghost function Common(bags: seq<Bag>): Bag
    requires bags != []
  {
    if |bags| == 1 then bags[0] else Meet(Common(bags[..|bags| - 1]), bags[|bags| - 1])
  }

  ghost predicate InOthers(bags: seq<Bag>, x: int) {
    forall i :: 1 <= i < |bags| ==> x in bags[i]
  }

  lemma InOthersSnoc(bags: seq<Bag>, x: int)
    requires |bags| > 1
    ensures InOthers(bags, x) <==> InOthers(bags[..|bags| - 1], x) && x in bags[|bags| - 1]
  {
    var most := bags[..|bags| - 1];
    assert forall i :: 0 <= i < |most| ==> most[i] == bags[i];
  }

  lemma {:induction false} CommonCount(bags: seq<Bag>, x: int)
    requires bags != []
    ensures Common(bags)[x] == if InOthers(bags, x) then bags[0][x] else 0
  {
    if |bags| > 1 {
      CommonCount(bags[..|bags| - 1], x);
      InOthersSnoc(bags, x);
      hide InOthers;
    }
  }

  /** Dropping what lies below the least element of another bag leaves the common part alone. */
  lemma SeekKeepsCommon(bags: seq<Bag>, i: nat, j: nat, t: int)
    requires i < |bags| && j < |bags| && i != j && forall x :: x in bags[j] ==> x >= t
    ensures Common(bags[i := From(bags[i], t)]) == Common(bags)
  {
    var bags' := bags[i := From(bags[i], t)];
    forall x ensures Common(bags')[x] == Common(bags)[x] {
      SeekKeepsCount(bags, bags', i, j, t, x);
    }
  }

  lemma SeekKeepsCount(bags: seq<Bag>, bags': seq<Bag>, i: nat, j: nat, t: int, x: int)
    requires i < |bags| && j < |bags| && i != j && forall x :: x in bags[j] ==> x >= t
    requires bags' == bags[i := From(bags[i], t)]
    ensures Common(bags')[x] == Common(bags)[x]
  {
    CommonCount(bags, x);
    CommonCount(bags', x);
    hide Common, From;
    assert From(bags[i], t)[x] == if x >= t then bags[i][x] else 0;
    if x >= t {
      forall k | 0 <= k < |bags| ensures bags'[k][x] == bags[k][x] {}
    } else if j == 0 {
      assert bags[0][x] == 0 == bags'[0][x];
    } else {
      assert x !in bags[j] && x !in bags'[j];
    }
  }

  lemma EmptyCommon(bags: seq<Bag>, i: nat)
    requires i < |bags| && bags[i] == multiset{}
    ensures Common(bags) == multiset{}
  {
    forall x ensures Common(bags)[x] == 0 {
      CommonCount(bags, x);
    }
  }

  lemma CommonBounds(bags: seq<Bag>, x: int)
    requires bags != [] && x in Common(bags)
    ensures forall i :: 0 <= i < |bags| ==> x in bags[i]
  {
    CommonCount(bags, x);
  }

  ghost function Total(bags: seq<Bag>): nat {
    if bags == [] then 0 else Total(bags[..|bags| - 1]) + |bags[|bags| - 1]|
  }

  lemma {:induction false} TotalUpdate(bags: seq<Bag>, i: nat, b: Bag)
    requires i < |bags|
    ensures Total(bags[i := b]) == Total(bags) - |bags[i]| + |b|
  {
    var n := |bags| - 1;
    if i < n {
      TotalUpdate(bags[..n], i, b);
      assert bags[i := b][..n] == bags[..n][i := b];
    } else {
      assert bags[i := b][..n] == bags[..n];
    }
  }
}

/** container/heap over entries that carry the position they are ordered by. */
module Heap {
  import opened Bytes
  import opened Events

  datatype Entry<T> = Entry(ts: uint64, id: Bytes, item: T) {
    function Key(): int {
      Rank(ts, id)
    }
  }

  ghost predicate Entries<T>(h: seq<Entry<T>>) {
    forall i :: 0 <= i < |h| ==> |h[i].id| == 32
  }

  method Less<T>(h: seq<Entry<T>>, i: nat, j: nat) returns (less: bool)
    requires i < |h| && j < |h| && |h[i].id| == |h[j].id| == 32
    ensures less <==> h[i].Key() < h[j].Key()
  {
    RankOrder(h[i].ts, h[i].id, h[j].ts, h[j].id);
    if h[i].ts != h[j].ts {
      return h[i].ts < h[j].ts;
    }
    less := BytesLess(h[i].id, h[j].id);
  }

  function Parent(i: nat): int
    requires i > 0
  {
    (i - 1) / 2
  }

  ghost function Keys<T>(h: seq<Entry<T>>): (k: seq<int>)
    ensures |k| == |h| && forall i :: 0 <= i < |h| ==> k[i] == h[i].Key()
  {
    seq(|h|, i requires 0 <= i < |h| => h[i].Key())
  }

  /** Heap order between the nodes from `lo` on and their children. */
  ghost predicate HeapFrom(k: seq<int>, lo: int) {
    forall c :: 0 < c < |k| && Parent(c) >= lo ==> k[Parent(c)] <= k[c]
  }

  ghost predicate IsHeap<T>(h: seq<Entry<T>>) {
    HeapFrom(Keys(h), 0)
  }

  lemma {:induction false} RootIsLeast<T>(h: seq<Entry<T>>, i: nat)
    requires IsHeap(h) && i < |h|
    ensures h[0].Key() <= h[i].Key()
  {
    if i > 0 {
      RootIsLeast(h, Parent(i));
      assert Keys(h)[Parent(i)] <= Keys(h)[i];
    }
  }

  function Swap<T>(h: seq<T>, i: nat, j: nat): (r: seq<T>)
    requires i < |h| && j < |h|
    ensures |r| == |h| && r[i] == h[j] && r[j] == h[i]
    ensures forall k :: 0 <= k < |h| && k != i && k != j ==> r[k] == h[k]
    ensures multiset(r) == multiset(h)
  {
    h[i := h[j]][j := h[i]]
  }

  lemma KeysSwap<T>(h: seq<Entry<T>>, i: nat, j: nat)
    requires i < |h| && j < |h|
    ensures Keys(Swap(h, i, j)) == Swap(Keys(h), i, j)
    ensures Entries(h) ==> Entries(Swap(h, i, j))
  {
    hide Rank, Swap;
  }

  /** In heap order from `lo` on, except perhaps below node `i`, whose parent is small enough for
      its children too. */
  ghost predicate Sinking(k: seq<int>, lo: int, i: nat) {
    && (forall c :: 0 < c < |k| && Parent(c) >= lo && Parent(c) != i ==> k[Parent(c)] <= k[c])
    && (forall c :: 0 < i && Parent(i) >= lo && 0 < c < |k| && Parent(c) == i ==> k[Parent(i)] <= k[c])
  }

  lemma SinkOnce(k: seq<int>, lo: int, i: nat, j: nat)
    requires lo <= i < j < |k| && Sinking(k, lo, i) && Parent(j) == i
    requires forall c :: 0 < c < |k| && Parent(c) == i ==> k[j] <= k[c]
    requires k[j] < k[i]
    ensures Sinking(Swap(k, i, j), lo, j)
  {
  }

  /** In heap order, except perhaps above node `j`, whose parent is small enough for its children. */
  ghost predicate Rising(k: seq<int>, j: nat) {
    && (forall c :: 0 < c < |k| && c != j ==> k[Parent(c)] <= k[c])
    && (forall c :: 0 < j && 0 < c < |k| && Parent(c) == j ==> k[Parent(j)] <= k[c])
  }

  lemma RiseOnce(k: seq<int>, j: nat)
    requires 0 < j < |k| && Rising(k, j) && k[j] < k[Parent(j)]
    ensures Rising(Swap(k, j, Parent(j)), Parent(j))
  {
  }

  /** The lesser child of a node that has one. */
  method LeastChild<T>(h: seq<Entry<T>>, i: nat) returns (j: nat)
    requires Entries(h) && 2 * i + 1 < |h|
    ensures i < j < |h| && Parent(j) == i
    ensures forall c :: 0 < c < |h| && Parent(c) == i ==> Keys(h)[j] <= Keys(h)[c]
  {
    hide Rank, Keys;
    j := 2 * i + 1;
    if j + 1 < |h| {
      var right := Less(h, j + 1, j);
      if right {
        j := j + 1;
      }
    }
    assert forall c :: 0 < c < |h| && Parent(c) == i ==> c == 2 * i + 1 || c == 2 * i + 2;
  }

  method Down<T>(h0: seq<Entry<T>>, i0: nat) returns (h: seq<Entry<T>>)
    requires Entries(h0) && i0 < |h0| && HeapFrom(Keys(h0), i0 + 1)
    ensures multiset(h) == multiset(h0) && |h| == |h0| && Entries(h)
    ensures HeapFrom(Keys(h), i0)
  {
    hide Rank, Keys, Sinking, HeapFrom, Swap, Entry.Key;
    StartSinking(Keys(h0), i0);
    h := h0;
    var i := i0;
    while 2 * i + 1 < |h|
      invariant i0 <= i < |h| && |h| == |h0| && Entries(h)
      invariant multiset(h) == multiset(h0)
      invariant Sinking(Keys(h), i0, i)
      decreases |h| - i
    {
      var j := LeastChild(h, i);
      var smaller := Less(h, j, i);
      if !smaller {
        break;
      }
      SinkOnce(Keys(h), i0, i, j);
      KeysSwap(h, i, j);
      h := Swap(h, i, j);
      i := j;
    }
    StopSinking(Keys(h), i0, i);
  }

  lemma StartSinking(k: seq<int>, i: nat)
    requires HeapFrom(k, i + 1)
    ensures Sinking(k, i, i)
  {
  }

  lemma StopSinking(k: seq<int>, lo: int, i: nat)
    requires Sinking(k, lo, i) && i < |k|
    requires forall c :: 0 < c < |k| && Parent(c) == i ==> k[i] <= k[c]
    ensures HeapFrom(k, lo)
  {
  }

  method Init<T>(h0: seq<Entry<T>>) returns (h: seq<Entry<T>>)
    requires Entries(h0)
    ensures multiset(h) == multiset(h0) && |h| == |h0| && Entries(h) && IsHeap(h)
  {
    hide Rank;
    h := h0;
    var i := |h| / 2 - 1;
    while i >= 0
      invariant -1 <= i < |h| || (|h| == 0 && i == -1)
      invariant multiset(h) == multiset(h0) && |h| == |h0| && Entries(h)
      invariant HeapFrom(Keys(h), i + 1)
    {
      h := Down(h, i);
      i := i - 1;
    }
  }

  method Up<T>(h0: seq<Entry<T>>, j0: nat) returns (h: seq<Entry<T>>)
    requires Entries(h0) && j0 == |h0| - 1 && IsHeap(h0[..j0])
    ensures multiset(h) == multiset(h0) && |h| == |h0| && Entries(h) && IsHeap(h)
  {
    h := h0;
    var j := j0;
    assert Rising(Keys(h), j) by {
      assert forall k :: 0 <= k < j0 ==> Keys(h)[k] == Keys(h0[..j0])[k];
    }
    hide Rank, Keys, Rising, Swap;
    while j > 0
      invariant 0 <= j < |h| && |h| == |h0| && Entries(h)
      invariant multiset(h) == multiset(h0)
      invariant Rising(Keys(h), j)
    {
      var i := Parent(j);
      var smaller := Less(h, j, i);
      if !smaller {
        break;
      }
      RiseOnce(Keys(h), j);
      KeysSwap(h, j, i);
      h := Swap(h, j, i);
      j := i;
    }
    StopRising(Keys(h), j);
  }

  lemma StopRising(k: seq<int>, j: nat)
    requires Rising(k, j) && j < |k| && (j > 0 ==> k[Parent(j)] <= k[j])
    ensures HeapFrom(k, 0)
  {
  }

  method Push<T>(h0: seq<Entry<T>>, e: Entry<T>) returns (h: seq<Entry<T>>)
    requires Entries(h0) && IsHeap(h0) && |e.id| == 32
    ensures multiset(h) == multiset(h0) + multiset{e} && Entries(h) && IsHeap(h)
  {
    assert (h0 + [e])[..|h0|] == h0;
    h := Up(h0 + [e], |h0|);
  }

  lemma PopMultiset<T>(h0: seq<T>, h: seq<T>)
    requires h0 != [] && multiset(h + [h0[0]]) == multiset(h0)
    ensures multiset(h) == multiset(h0[1..])
  {
    assert h0 == [h0[0]] + h0[1..];
    assert multiset(h) + multiset{h0[0]} == multiset(h0[1..]) + multiset{h0[0]};
    assert forall x :: multiset(h)[x] == (multiset(h) + multiset{h0[0]})[x] - multiset{h0[0]}[x];
  }

  method Pop<T>(h0: seq<Entry<T>>) returns (h: seq<Entry<T>>, e: Entry<T>)
    requires Entries(h0) && IsHeap(h0) && h0 != []
    ensures e == h0[0] && multiset(h) == multiset(h0[1..])
    ensures Entries(h) && IsHeap(h)
  {
    hide Rank;
    var n := |h0| - 1;
    e := h0[0];
    var swapped := Swap(h0, 0, n);
    h := swapped[..n];
    assert swapped == h + [e];
    PopMultiset(h0, h);
    if n > 0 {
      assert forall k :: 0 < k < n ==> Keys(h)[k] == Keys(h0)[k];
      h := Down(h, 0);
    }
  }

  /** No item twice. */
  ghost predicate Unique<T>(h: seq<Entry<T>>) {
    forall i, j :: 0 <= i < j < |h| ==> h[i].item != h[j].item
  }

  lemma TwiceIn<T>(h: seq<T>, i: nat, j: nat)
    requires i < j < |h| && h[i] == h[j]
    ensures multiset(h)[h[i]] >= 2
  {
    assert h == h[..j] + h[j..];
    assert h[..j][i] == h[i] && h[j..][0] == h[j];
  }

  lemma {:induction false} TwicePlaces<T>(h: seq<T>, e: T)
    requires multiset(h)[e] >= 2
    ensures exists i, j :: 0 <= i < j < |h| && h[i] == e && h[j] == e
  {
    var n := |h| - 1;
    assert h == h[..n] + [h[n]];
    if h[n] == e {
      assert e in h[..n];
      var i :| 0 <= i < n && h[..n][i] == e;
      assert h[i] == e && h[n] == e;
    } else {
      TwicePlaces(h[..n], e);
      var i, j :| 0 <= i < j < n && h[..n][i] == e && h[..n][j] == e;
      assert h[i] == e && h[j] == e;
    }
  }

  lemma UniquePermuted<T>(h: seq<Entry<T>>, h': seq<Entry<T>>)
    requires Unique(h) && multiset(h) == multiset(h')
    ensures Unique(h')
  {
    forall i, j | 0 <= i < j < |h'| ensures h'[i].item != h'[j].item {
      if h'[i] == h'[j] {
        TwiceIn(h', i, j);
        TwicePlaces(h, h'[i]);
      } else {
        assert h'[i] in multiset(h) && h'[j] in multiset(h);
        var a :| 0 <= a < |h| && h[a] == h'[i];
        var b :| 0 <= b < |h| && h[b] == h'[j];
      }
    }
  }
}
