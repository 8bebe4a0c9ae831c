/** A heap over cursors: which of them it must hold, and what it yields. */
module Merging {
  import opened Events
  import opened Bags
  import opened Heap
  import opened LeafCursors

  ghost predicate DistinctItems<T>(items: seq<T>) {
    forall i, j :: 0 <= i < j < |items| ==> items[i] != items[j]
  }

  /** The entry carries the head of this child. */
  ghost predicate Shown<T>(e: Entry<T>, item: T, s: Snap) {
    e.item == item && s.live && e.ts == s.ts && e.id == s.id
  }

  /** Every entry is that of a child, under its head. */
  ghost predicate Faithful<T>(h: seq<Entry<T>>, items: seq<T>, snaps: seq<Snap>)
    requires |items| == |snaps|
  {
    && (forall k :: 0 <= k < |h| ==> h[k].item in items)
    && (forall k, i :: 0 <= k < |h| && 0 <= i < |items| && h[k].item == items[i] ==> Shown(h[k], items[i], snaps[i]))
  }

  ghost predicate HasEntry<T>(h: seq<Entry<T>>, item: T) {
    exists k :: 0 <= k < |h| && h[k].item == item
  }

  ghost predicate Covers<T>(h: seq<Entry<T>>, items: seq<T>, snaps: seq<Snap>)
    requires |items| == |snaps|
  {
    forall i :: 0 <= i < |items| && snaps[i].live ==> HasEntry(h, items[i])
  }

  /** The heap holds exactly the children that have something left, each once, under its head. */
  ghost predicate Holds<T>(h: seq<Entry<T>>, items: seq<T>, snaps: seq<Snap>)
    requires |items| == |snaps|
  {
    Faithful(h, items, snaps) && Covers(h, items, snaps) && Unique(h)
  }

  ghost predicate AllOk(snaps: seq<Snap>) {
    forall i :: 0 <= i < |snaps| ==> snaps[i].Ok()
  }

  ghost predicate Merged<T>(h: seq<Entry<T>>, items: seq<T>, snaps: seq<Snap>) {
    |items| == |snaps| && DistinctItems(items) && AllOk(snaps) && Holds(h, items, snaps) && Entries(h) && IsHeap(h)
  }

  ghost function BagsOf(snaps: seq<Snap>): (b: seq<Bag>)
    ensures |b| == |snaps| && forall i :: 0 <= i < |b| ==> b[i] == snaps[i].bag
  {
    seq(|snaps|, i requires 0 <= i < |snaps| => snaps[i].bag)
  }

  /** The place among the children of a heap entry. */
  lemma PlaceOf<T>(h: seq<Entry<T>>, items: seq<T>, snaps: seq<Snap>, k: nat) returns (i: nat)
    requires |items| == |snaps| && Faithful(h, items, snaps) && k < |h|
    ensures i < |items| && Shown(h[k], items[i], snaps[i])
  {
    i :| 0 <= i < |items| && items[i] == h[k].item;
  }

  /** The root is the least position left in any child. */
  lemma MergedHead<T>(h: seq<Entry<T>>, items: seq<T>, snaps: seq<Snap>)
    requires Merged(h, items, snaps)
    ensures h != [] <==> Sum(BagsOf(snaps)) != multiset{}
    ensures h != [] ==> h[0].Key() in Sum(BagsOf(snaps))
    ensures forall x :: x in Sum(BagsOf(snaps)) ==> h != [] && h[0].Key() <= x
  {
    hide Rank, IsHeap, Sum;
    var bags := BagsOf(snaps);
    forall x | x in Sum(bags) ensures h != [] && h[0].Key() <= x {
      SumMember(bags, x);
      var i :| 0 <= i < |bags| && x in bags[i];
      assert snaps[i].Ok();
      assert HasEntry(h, items[i]);
      var k :| 0 <= k < |h| && h[k].item == items[i];
      var j := PlaceOf(h, items, snaps, k);
      RootIsLeast(h, k);
    }
    if h != [] {
      var i := PlaceOf(h, items, snaps, 0);
      assert snaps[i].Ok() && h[0].Key() in bags[i];
      SumMember(bags, h[0].Key());
    } else {
      NonEmpty(Sum(bags));
    }
  }

  lemma HoldsPermuted<T>(h: seq<Entry<T>>, h': seq<Entry<T>>, items: seq<T>, snaps: seq<Snap>)
    requires |items| == |snaps| && Holds(h, items, snaps) && multiset(h) == multiset(h')
    ensures Holds(h', items, snaps)
  {
    UniquePermuted(h, h');
    forall k | 0 <= k < |h'| ensures exists k' :: 0 <= k' < |h| && h[k'] == h'[k] {
      assert h'[k] in multiset(h);
    }
    forall i | 0 <= i < |items| && snaps[i].live ensures HasEntry(h', items[i]) {
      assert HasEntry(h, items[i]);
      var k :| 0 <= k < |h| && h[k].item == items[i];
      assert h[k] in multiset(h');
    }
  }

  /** The heap without its root holds the children without the one at the root. */
  lemma HoldsTail<T>(h: seq<Entry<T>>, items: seq<T>, snaps: seq<Snap>, i: nat, s: Snap)
    requires |items| == |snaps| && DistinctItems(items) && Holds(h, items, snaps)
    requires h != [] && i < |items| && Shown(h[0], items[i], snaps[i]) && !s.live
    ensures Holds(h[1..], items, snaps[i := s])
  {
    hide Snap.Ok;
    var t := h[1..];
    forall k | 0 <= k < |t| ensures t[k] == h[k + 1] && t[k].item != items[i] {}
    forall j | 0 <= j < |items| && snaps[i := s][j].live ensures HasEntry(t, items[j]) {
      assert HasEntry(h, items[j]);
      var k :| 0 <= k < |h| && h[k].item == items[j];
      assert t[k - 1] == h[k];
    }
  }

  /** Adding the entry of a child that the heap does not hold. */
  lemma HoldsAdded<T>(t: seq<Entry<T>>, e: Entry<T>, items: seq<T>, snaps: seq<Snap>, i: nat, s: Snap)
    requires |items| == |snaps| && DistinctItems(items) && Holds(t, items, snaps)
    requires i < |items| && !snaps[i].live && Shown(e, items[i], s)
    ensures Holds([e] + t, items, snaps[i := s])
  {
    hide Snap.Ok;
    var h := [e] + t;
    forall k | 1 <= k < |h| ensures h[k] == t[k - 1] && h[k].item != items[i] {}
    assert h[0] == e;
    forall j | 0 <= j < |items| && snaps[i := s][j].live ensures HasEntry(h, items[j]) {
      if j == i {
        assert h[0].item == items[i];
      } else {
        assert HasEntry(t, items[j]);
        var k :| 0 <= k < |t| && t[k].item == items[j];
        assert h[k + 1].item == items[j];
      }
    }
  }

  /** The root replaced by the next entry of its child: only the root may be out of place. */
  lemma RootReplaced<T>(h0: seq<Entry<T>>, e: Entry<T>, items: seq<T>, snaps: seq<Snap>, i: nat, s: Snap)
    requires Merged(h0, items, snaps) && h0 != [] && i < |items| && Shown(h0[0], items[i], snaps[i])
    requires s.Ok() && Shown(e, items[i], s)
    ensures var h1 := h0[0 := e]; Holds(h1, items, snaps[i := s]) && Entries(h1) && HeapFrom(Keys(h1), 1)
  {
    assert |e.id| == 32;
    var h1 := h0[0 := e];
    assert HeapFrom(Keys(h1), 1) by {
      assert forall k :: 1 <= k < |h0| ==> Keys(h1)[k] == Keys(h0)[k];
    }
    hide Holds, Snap.Ok, Rank, Snap.Head, Unique, IsHeap, HeapFrom, Keys;
    var dead := s.(live := false);
    HoldsTail(h0, items, snaps, i, dead);
    assert h1 == [e] + h0[1..];
    HoldsAdded(h0[1..], e, items, snaps[i := dead], i, s);
    assert snaps[i := dead][i := s] == snaps[i := s];
  }

  lemma AllOkUpdate(snaps: seq<Snap>, i: nat, s: Snap)
    requires AllOk(snaps) && i < |snaps| && s.Ok()
    ensures AllOk(snaps[i := s])
  {
    hide Snap.Ok;
  }

  /** After the child at the root moved on: `heap.Fix` when it has more, `heap.Pop` when not. */
  method Restore<T>(h0: seq<Entry<T>>, more: bool, e: Entry<T>, ghost items: seq<T>, ghost snaps: seq<Snap>,
        ghost i: nat, ghost s: Snap)
      returns (h: seq<Entry<T>>)
    requires Merged(h0, items, snaps) && h0 != [] && i < |items| && Shown(h0[0], items[i], snaps[i])
    requires s.Ok() && more == s.live && (more ==> Shown(e, items[i], s))
    ensures Merged(h, items, snaps[i := s])
  {
    hide Holds, Snap.Ok, Unique, IsHeap, HeapFrom, Keys, Entries, DistinctItems, AllOk, Shown;
    AllOkUpdate(snaps, i, s);
    if more {
      RootReplaced(h0, e, items, snaps, i, s);
      var h1 := h0[0 := e];
      h := Heap.Down(h1, 0);
      HoldsPermuted(h1, h, items, snaps[i := s]);
      HeapIsHeap(h);
    } else {
      HoldsTail(h0, items, snaps, i, s);
      var root;
      h, root := Heap.Pop(h0);
      HoldsPermuted(h0[1..], h, items, snaps[i := s]);
    }
  }

  lemma HeapIsHeap<T>(h: seq<Entry<T>>)
    requires Entries(h) && HeapFrom(Keys(h), 0)
    ensures IsHeap(h)
  {
  }

  /** While every child in turn seeks: `t` entries are still to be visited, `h` is rebuilt. */
  ghost predicate Seeking<T>(h: seq<Entry<T>>, t: seq<Entry<T>>, items: seq<T>, snaps0: seq<Snap>, snaps: seq<Snap>,
        target: int)
    requires |items| == |snaps| == |snaps0|
  {
    && Faithful(h, items, snaps) && Unique(h) && Unique(t) && Faithful(t, items, snaps0)
    && (forall k, k' :: 0 <= k < |h| && 0 <= k' < |t| ==> h[k].item != t[k'].item)
    && (forall i :: 0 <= i < |items| && snaps[i].live ==> HasEntry(h, items[i]) || HasEntry(t, items[i]))
    && (forall i :: 0 <= i < |items| && HasEntry(t, items[i]) ==> snaps[i] == snaps0[i])
    && (forall i :: 0 <= i < |items| && !HasEntry(t, items[i]) ==> snaps[i].bag == From(snaps0[i].bag, target))
    && (forall i :: 0 <= i < |items| && HasEntry(h, items[i]) ==> snaps[i].last == target - 1)
  }

  lemma StartSeeking<T>(h: seq<Entry<T>>, items: seq<T>, snaps: seq<Snap>, target: int)
    requires |items| == |snaps| && Holds(h, items, snaps) && AllOk(snaps)
    ensures Seeking([], h, items, snaps, snaps, target)
  {
    hide Snap.Head, Rank;
    forall i | 0 <= i < |items| && !HasEntry(h, items[i]) ensures snaps[i].bag == From(snaps[i].bag, target) {
      assert snaps[i].Ok() && !snaps[i].live;
    }
  }

  /** Which items have an entry once one entry has moved on from `t`. */
  lemma SeekEntries<T>(h: seq<Entry<T>>, t: seq<Entry<T>>, x: T, moved: bool, h': seq<Entry<T>>, y: T)
    requires t != [] && t[0].item == x && Unique(t)
    requires if moved then |h'| == |h| + 1 && h'[..|h|] == h && h'[|h|].item == x else h' == h
    ensures HasEntry(t[1..], y) <==> y != x && HasEntry(t, y)
    ensures HasEntry(h', y) <==> HasEntry(h, y) || (y == x && moved)
  {
    var t' := t[1..];
    if HasEntry(t, y) && y != x {
      var k :| 0 <= k < |t| && t[k].item == y;
      assert t'[k - 1].item == y;
    }
    if HasEntry(t', y) {
      var k :| 0 <= k < |t'| && t'[k].item == y;
      assert t[k + 1].item == y;
    }
    if HasEntry(h, y) {
      var k :| 0 <= k < |h| && h[k].item == y;
      assert moved ==> h'[..|h|][k] == h'[k];
      assert h'[k].item == y;
    }
    if HasEntry(h', y) {
      var k :| 0 <= k < |h'| && h'[k].item == y;
      assert k < |h| ==> h'[..|h|][k].item == y;
    }
    if y == x && moved {
      assert h'[|h|].item == y;
    }
  }

  /** One child has sought the target; its entry goes into the new heap if it has something left. */
  lemma SeekOne<T>(h: seq<Entry<T>>, t: seq<Entry<T>>, items: seq<T>, snaps0: seq<Snap>, snaps: seq<Snap>, target: int,
                   i: nat, s: Snap, h': seq<Entry<T>>)
    requires |items| == |snaps| == |snaps0| && DistinctItems(items) && Seeking(h, t, items, snaps0, snaps, target)
    requires t != [] && i < |items| && items[i] == t[0].item && Sought(snaps0[i], s, target)
    requires if s.live then |h'| == |h| + 1 && h'[..|h|] == h && Shown(h'[|h|], items[i], s) else h' == h
    ensures Seeking(h', t[1..], items, snaps0, snaps[i := s], target)
  {
    hide Snap.Ok, Rank, From;
    var t', snaps' := t[1..], snaps[i := s];
    forall j | 0 <= j < |items|
      ensures HasEntry(t', items[j]) <==> j != i && HasEntry(t, items[j])
      ensures HasEntry(h', items[j]) <==> HasEntry(h, items[j]) || (j == i && s.live)
    {
      SeekEntries(h, t, items[i], s.live, h', items[j]);
    }
    hide HasEntry;
    forall k | 0 <= k < |h| ensures h'[k] == h[k] && h[k].item != items[i] {
      assert s.live ==> h'[..|h|][k] == h'[k];
    }
    forall k | 0 <= k < |t'| ensures t'[k] == t[k + 1] && t'[k].item != items[i] {}
  }

  // ---------- One child at a time, as the query loop does it ----------

  const GONE: Snap := Snap(0, [], false, multiset{}, 0)

  /** One more child, not in the heap yet. */
  lemma AppendGone<T>(h: seq<Entry<T>>, items: seq<T>, snaps: seq<Snap>, item: T)
    requires Merged(h, items, snaps) && item !in items
    ensures Merged(h, items + [item], snaps + [GONE])
  {
    hide Rank, IsHeap;
    var items', snaps' := items + [item], snaps + [GONE];
    forall k | 0 <= k < |h| ensures h[k].item in items' && h[k].item != item {}
    forall i | 0 <= i < |items'| && snaps'[i].live ensures HasEntry(h, items'[i]) {
      assert i < |items| && snaps[i].live;
    }
  }

  method PushItem<T>(h0: seq<Entry<T>>, e: Entry<T>, ghost items: seq<T>, ghost snaps: seq<Snap>, ghost i: nat,
        ghost s: Snap)
      returns (h: seq<Entry<T>>)
    requires Merged(h0, items, snaps) && i < |items| && !snaps[i].live && s.Ok() && Shown(e, items[i], s)
    ensures Merged(h, items, snaps[i := s])
  {
    assert |e.id| == 32;
    hide Holds, Snap.Ok, Rank, Snap.Head, Unique, IsHeap;
    HoldsAdded(h0, e, items, snaps, i, s);
    h := Heap.Push(h0, e);
    assert multiset([e] + h0) == multiset{e} + multiset(h0);
    HoldsPermuted([e] + h0, h, items, snaps[i := s]);
  }

  method PopItem<T>(h0: seq<Entry<T>>, ghost items: seq<T>, ghost snaps: seq<Snap>, ghost i: nat)
      returns (h: seq<Entry<T>>, e: Entry<T>)
    requires Merged(h0, items, snaps) && h0 != [] && i < |items| && Shown(h0[0], items[i], snaps[i])
    ensures e == h0[0] && Merged(h, items, snaps[i := GONE])
  {
    GoneIsOk();
    hide Holds, Snap.Ok, Rank, Snap.Head, Unique, IsHeap;
    HoldsTail(h0, items, snaps, i, GONE);
    h, e := Heap.Pop(h0);
    HoldsPermuted(h0[1..], h, items, snaps[i := GONE]);
  }

  lemma GoneIsOk()
    ensures GONE.Ok()
  {
  }
}

/** `unionCursor`: the sorted merge, with multiplicity, of several index scans. */
module UnionCursors {
  import opened Bytes
  import opened Events
  import opened Bags
  import opened Heap
  import opened LeafCursors
  import opened Merging

  ghost predicate AllValid(cursors: seq<IndexCursor>)
    reads cursors
  {
    DistinctItems(cursors) && forall i :: 0 <= i < |cursors| ==> cursors[i].Valid()
  }

  ghost function ViewsOf(cursors: seq<IndexCursor>): (s: seq<Snap>)
    reads cursors
    requires AllValid(cursors)
    ensures |s| == |cursors| && forall i :: 0 <= i < |s| ==> s[i] == cursors[i].View()
    ensures AllOk(s)
  {
    seq(|cursors|, i requires 0 <= i < |cursors| && AllValid(cursors) reads cursors => cursors[i].View())
  }

  /** Moving one child on changes what is seen of that child alone. */
  method StepChild(c: IndexCursor, ghost children: seq<IndexCursor>, ghost i: nat) returns (more: bool)
    requires AllValid(children) && i < |children| && children[i] == c && c.curValid
    modifies c
    ensures AllValid(children) && more == c.curValid
    ensures ViewsOf(children) == old(ViewsOf(children))[i := ViewsOf(children)[i]]
    ensures Stepped(old(ViewsOf(children))[i], ViewsOf(children)[i])
    ensures var s := ViewsOf(children)[i]; s.live == c.curValid && s.ts == c.curInvertedTS && s.id == c.curEventID
  {
    hide IndexCursor.Valid, Stepped, Snap.Ok;
    more := c.Next();
  }

  method SeekChild(c: IndexCursor, ghost children: seq<IndexCursor>, ghost i: nat, ts: uint64, id: Bytes)
      returns (ok: bool)
    requires AllValid(children) && i < |children| && children[i] == c
    requires |id| == 32 && ViewsOf(children)[i].last < Rank(ts, id)
    modifies c
    ensures AllValid(children) && ok == c.curValid
    ensures ViewsOf(children) == old(ViewsOf(children))[i := ViewsOf(children)[i]]
    ensures Sought(old(ViewsOf(children))[i], ViewsOf(children)[i], Rank(ts, id))
    ensures var s := ViewsOf(children)[i]; s.live == c.curValid && s.ts == c.curInvertedTS && s.id == c.curEventID
  {
    hide IndexCursor.Valid, Sought, Snap.Ok;
    ok := c.SeekGE(ts, id);
  }

  /** The heap holds the children. What they consumed lies at or below `last`, what they have
      left at or above. */
  ghost predicate UnionInv(h: seq<Entry<IndexCursor>>, children: seq<IndexCursor>, snaps: seq<Snap>, last: int) {
    && Merged(h, children, snaps)
    && (forall i :: 0 <= i < |children| && snaps[i].live ==> snaps[i].last <= last <= snaps[i].Head())
  }

  /** The bag of a union is the sum of its children's. */
  ghost function UnionView(h: seq<Entry<IndexCursor>>, children: seq<IndexCursor>, snaps: seq<Snap>, last: int):
      (s: Snap)
    requires UnionInv(h, children, snaps, last)
    ensures s.Ok() && s.live == (h != []) && s.bag == Sum(BagsOf(snaps)) && s.last == last
    ensures h != [] ==> s.ts == h[0].ts && s.id == h[0].id
  {
    MergedHead(h, children, snaps);
    hide Rank, Sum, IsHeap;
    assert h != [] ==> h[0].Key() >= last by {
      if h != [] {
        var i := PlaceOf(h, children, snaps, 0);
      }
    }
    if h != [] then Snap(h[0].ts, h[0].id, true, Sum(BagsOf(snaps)), last)
    else Snap(0, [], false, Sum(BagsOf(snaps)), last)
  }

  /** The child at the root stepped and the heap was restored: the union stepped. */
  lemma UnionSteps(h: seq<Entry<IndexCursor>>, children: seq<IndexCursor>, snaps: seq<Snap>, last: int,
                   i: nat, s: Snap, h': seq<Entry<IndexCursor>>)
    requires UnionInv(h, children, snaps, last) && h != []
    requires i < |children| && Shown(h[0], children[i], snaps[i]) && Stepped(snaps[i], s)
    requires Merged(h', children, snaps[i := s])
    ensures UnionInv(h', children, snaps[i := s], h[0].Key())
    ensures Stepped(UnionView(h, children, snaps, last), UnionView(h', children, snaps[i := s], h[0].Key()))
  {
    hide Rank, Sum, IsHeap;
    var head, after := h[0].Key(), snaps[i := s];
    MergedHead(h, children, snaps);
    SumUpdate(BagsOf(snaps), i, snaps[i].bag - multiset{head});
    assert BagsOf(after) == BagsOf(snaps)[i := snaps[i].bag - multiset{head}];
    forall j | 0 <= j < |children| && after[j].live ensures after[j].last <= head <= after[j].Head() {
      SumMember(BagsOf(snaps), snaps[j].Head());
      assert BagsOf(snaps)[j] == snaps[j].bag;
    }
  }

  /** A heap just built over cursors that have consumed nothing. */
  lemma UnionFirst(entries: seq<Entry<IndexCursor>>, heap: seq<Entry<IndexCursor>>, children: seq<IndexCursor>,
        snaps: seq<Snap>)
    requires |children| == |snaps| && DistinctItems(children) && AllOk(snaps) && Holds(entries, children, snaps)
    requires multiset(entries) == multiset(heap) && Entries(heap) && IsHeap(heap)
    requires forall i :: 0 <= i < |snaps| ==> snaps[i].last == -1
    ensures UnionInv(heap, children, snaps, -1)
  {
    hide Holds, IsHeap, Rank;
    HoldsPermuted(entries, heap, children, snaps);
    assert forall i :: 0 <= i < |snaps| ==> snaps[i].Head() >= 0;
  }

  lemma UnionViewParts(h: seq<Entry<IndexCursor>>, children: seq<IndexCursor>, snaps: seq<Snap>, last: int)
    requires UnionInv(h, children, snaps, last)
    ensures UnionView(h, children, snaps, last).bag == Sum(BagsOf(snaps))
    ensures UnionView(h, children, snaps, last).last == last
  {
  }

  class UnionCursor {
    var h: seq<Entry<IndexCursor>>
    ghost const children: seq<IndexCursor>
    ghost var last: int

    ghost predicate Valid()
      reads this, children
    {
      AllValid(children) && UnionInv(h, children, ViewsOf(children), last)
    }

    predicate HasCurrent()
      reads this
    {
      |h| > 0
    }

    function InvertedTS(): uint64
      reads this
      requires HasCurrent()
    {
      h[0].ts
    }

    function EventID(): Bytes
      reads this
      requires HasCurrent()
    {
      h[0].id
    }

    ghost function View(): (s: Snap)
      reads this, children
      requires Valid()
      ensures s.Ok() && s.live == HasCurrent() && s.last == last
      ensures HasCurrent() ==> s.ts == InvertedTS() && s.id == EventID()
    {
      UnionView(h, children, ViewsOf(children), last)
    }

    constructor (cursors: seq<IndexCursor>)
      requires AllValid(cursors) && forall i :: 0 <= i < |cursors| ==> cursors[i].last == -1
      ensures Valid() && children == cursors
      ensures View().last == -1 && View().bag == Sum(BagsOf(ViewsOf(cursors)))
    {
      var entries := LiveEntries(cursors);
      var heap := Heap.Init(entries);
      children := cursors;
      last := -1;
      h := heap;
      new;
      hide UnionInv, UnionView, Holds, IsHeap, Entries, IndexCursor.Valid, Rank;
      UnionFirst(entries, heap, cursors, ViewsOf(cursors));
      UnionViewParts(heap, cursors, ViewsOf(cursors), -1);
    }

    method Next() returns (ok: bool)
      requires Valid()
      modifies this, children
      ensures Valid() && ok == HasCurrent()
      ensures old(HasCurrent()) ==> Stepped(old(View()), View())
      ensures !old(HasCurrent()) ==> !ok && View().bag == old(View()).bag
    {
      hide Rank, Sum, Merged, AllOk, DistinctItems, IndexCursor.Valid, IndexCursor.View, BagsOf, ViewsOf, Snap.Ok,
           Snap.Head, Stepped, UnionInv, UnionView;
      if |h| == 0 {
        return false;
      }
      var heap := StepRoot(h, children, last);
      last := h[0].Key();
      h := heap;
      ok := |h| > 0;
    }

    /** Children already beyond the target are sought too: nothing they consumed lies at or above
        it, so none of that comes back, and none of what is left is skipped. */
    method SeekGE(invertedTS: uint64, eventID: Bytes) returns (ok: bool)
      requires Valid() && |eventID| == 32 && View().last < Rank(invertedTS, eventID)
      modifies this, children
      ensures Valid() && ok == HasCurrent()
      ensures Sought(old(View()), View(), Rank(invertedTS, eventID))
    {
      hide Rank, Sum, Merged, AllOk, DistinctItems, IndexCursor.Valid, IndexCursor.View, BagsOf, ViewsOf, Snap.Ok,
           Snap.Head, Sought, UnionInv, UnionView;
      var heap := SeekAll(h, children, last, invertedTS, eventID);
      h := heap;
      last := Rank(invertedTS, eventID) - 1;
      ok := |h| > 0;
    }
  }

  /** Seek every child and build the heap anew of those that have more. */
  method SeekAll(h: seq<Entry<IndexCursor>>, ghost children: seq<IndexCursor>, ghost last: int, ts: uint64, id: Bytes)
      returns (heap: seq<Entry<IndexCursor>>)
    requires AllValid(children) && UnionInv(h, children, ViewsOf(children), last)
    requires |id| == 32 && last < Rank(ts, id)
    modifies children
    ensures AllValid(children) && UnionInv(heap, children, ViewsOf(children), Rank(ts, id) - 1)
    ensures Sought(UnionView(h, children, old(ViewsOf(children)), last),
                   UnionView(heap, children, ViewsOf(children), Rank(ts, id) - 1), Rank(ts, id))
  {
    hide Rank, Sum, Merged, AllOk, DistinctItems, IndexCursor.Valid, IndexCursor.View, BagsOf, ViewsOf, Snap.Ok, Sought,
         UnionInv, UnionView, Seeking, Faithful, Covers, From, IsHeap, Unique, HasEntry;
    ghost var t: int := Rank(ts, id);
    ghost var snaps := ViewsOf(children);
    var newH := SeekChildren(h, children, last, ts, id);
    heap := newH;
    if |heap| > 0 {
      heap := Heap.Init(heap);
    } else {
      assert IsHeap(heap) by { EmptyHeap(heap); }
    }
    UnionSeeks(h, children, snaps, last, newH, ViewsOf(children), heap, t);
  }

  /** Step the child at the root and put it back in its place, or take it out. */
  method StepRoot(h: seq<Entry<IndexCursor>>, ghost children: seq<IndexCursor>, ghost last: int)
      returns (heap: seq<Entry<IndexCursor>>)
    requires AllValid(children) && UnionInv(h, children, ViewsOf(children), last) && h != []
    modifies children
    ensures AllValid(children) && UnionInv(heap, children, ViewsOf(children), h[0].Key())
    ensures Stepped(UnionView(h, children, old(ViewsOf(children)), last),
                    UnionView(heap, children, ViewsOf(children), h[0].Key()))
  {
    hide Rank, Sum, Merged, AllOk, DistinctItems, IndexCursor.Valid, IndexCursor.View, BagsOf, ViewsOf, Snap.Ok,
         Stepped, UnionInv, UnionView;
    ghost var snaps := ViewsOf(children);
    ghost var i := RootPlace(h, children, snaps, last);
    var c := h[0].item;
    var more := StepChild(c, children, i);
    ghost var s := ViewsOf(children)[i];
    heap := Restore(h, more, Entry(c.curInvertedTS, c.curEventID, c), children, snaps, i, s);
    UnionSteps(h, children, snaps, last, i, s, heap);
  }

  /** The loop of `SeekGE` over the heap slice: seek every child, keep those that have more. */
  method SeekChildren(h: seq<Entry<IndexCursor>>, ghost children: seq<IndexCursor>, ghost last: int, ts: uint64,
        id: Bytes)
      returns (newH: seq<Entry<IndexCursor>>)
    requires AllValid(children) && UnionInv(h, children, ViewsOf(children), last)
    requires |id| == 32 && last < Rank(ts, id)
    modifies children
    ensures AllValid(children) && Entries(newH)
    ensures Seeking(newH, [], children, old(ViewsOf(children)), ViewsOf(children), Rank(ts, id))
  {
    hide Rank, Sum, Merged, IndexCursor.Valid, IndexCursor.View, BagsOf, ViewsOf, Snap.Ok, Sought, UnionInv, UnionView,
         Seeking, Faithful, Covers, From, IsHeap, Unique, HasEntry, DistinctItems, AllOk;
    ghost var snaps := ViewsOf(children);
    UnionStarts(h, children, snaps, last, Rank(ts, id));
    newH := [];
    var k := 0;
    assert h[0..] == h;
    while k < |h|
      invariant 0 <= k <= |h| && AllValid(children) && Entries(newH)
      invariant Seeking(newH, h[k..], children, snaps, ViewsOf(children), Rank(ts, id))
    {
      newH := SeekNext(h, k, newH, children, snaps, last, ts, id);
      k := k + 1;
    }
    assert h[k..] == [];
  }

  method SeekNext(h: seq<Entry<IndexCursor>>, k: nat, newH0: seq<Entry<IndexCursor>>, ghost children: seq<IndexCursor>,
                  ghost snaps: seq<Snap>, ghost last: int, ts: uint64, id: Bytes)
      returns (newH: seq<Entry<IndexCursor>>)
    requires AllValid(children) && UnionInv(h, children, snaps, last) && |snaps| == |children|
    requires |id| == 32 && last < Rank(ts, id) && k < |h| && Entries(newH0)
    requires Seeking(newH0, h[k..], children, snaps, ViewsOf(children), Rank(ts, id))
    modifies children
    ensures AllValid(children) && Entries(newH)
    ensures Seeking(newH, h[k + 1..], children, snaps, ViewsOf(children), Rank(ts, id))
  {
    hide Rank, Sum, Merged, IndexCursor.Valid, IndexCursor.View, BagsOf, ViewsOf, Snap.Ok, Sought, UnionInv, UnionView,
         Seeking, Faithful, Covers, From, IsHeap, Unique, HasEntry;
    ghost var before := ViewsOf(children);
    ghost var i := NextToSeek(h, k, newH0, children, snaps, before, last, Rank(ts, id));
    var cur := h[k].item;
    var found := SeekChild(cur, children, i, ts, id);
    newH := newH0;
    if found {
      IdLength(ViewsOf(children)[i]);
      newH := newH0 + [Entry(cur.curInvertedTS, cur.curEventID, cur)];
    }
    assert h[k..][1..] == h[k + 1..];
    SeekOne(newH0, h[k..], children, snaps, before, Rank(ts, id), i, ViewsOf(children)[i], newH);
  }

  lemma EmptyHeap(h: seq<Entry<IndexCursor>>)
    requires h == []
    ensures IsHeap(h)
  {
  }

  lemma IdLength(s: Snap)
    requires s.Ok() && s.live
    ensures |s.id| == 32
  {
  }

  lemma UnionStarts(h: seq<Entry<IndexCursor>>, children: seq<IndexCursor>, snaps: seq<Snap>, last: int, t: int)
    requires UnionInv(h, children, snaps, last)
    ensures Seeking([], h, children, snaps, snaps, t)
  {
    StartSeeking(h, children, snaps, t);
  }

  /** The child to seek next still stands where it stood, below the target with all it consumed. */
  lemma NextToSeek(h: seq<Entry<IndexCursor>>, k: nat, newH: seq<Entry<IndexCursor>>, children: seq<IndexCursor>,
                  snaps0: seq<Snap>, snaps: seq<Snap>, last: int, t: int) returns (i: nat)
    requires UnionInv(h, children, snaps0, last) && k < |h| && |snaps| == |snaps0| && last < t
    requires Seeking(newH, h[k..], children, snaps0, snaps, t)
    ensures i < |children| && children[i] == h[k].item && snaps[i].last < t
    ensures snaps[i] == snaps0[i]
  {
    hide Rank, IsHeap, From;
    i := PlaceOf(h, children, snaps0, k);
    assert h[k..][0].item == children[i];
    assert HasEntry(h[k..], children[i]);
  }

  /** Every child sought and the heap was rebuilt: the union sought. */
  lemma UnionSeeks(h: seq<Entry<IndexCursor>>, children: seq<IndexCursor>, snaps0: seq<Snap>, last: int,
                   newH: seq<Entry<IndexCursor>>, snaps: seq<Snap>, heap: seq<Entry<IndexCursor>>, t: int)
    requires UnionInv(h, children, snaps0, last) && |snaps| == |children| && AllOk(snaps)
    requires Seeking(newH, [], children, snaps0, snaps, t)
    requires multiset(heap) == multiset(newH) && Entries(heap) && IsHeap(heap)
    ensures UnionInv(heap, children, snaps, t - 1)
    ensures Sought(UnionView(h, children, snaps0, last), UnionView(heap, children, snaps, t - 1), t)
  {
    hide Rank, Sum, IsHeap, From;
    assert forall j :: 0 <= j < |children| ==> !HasEntry([], children[j]);
    SumFrom(BagsOf(snaps0), BagsOf(snaps), t);
    HoldsPermuted(newH, heap, children, snaps);
    forall j | 0 <= j < |children| && snaps[j].live ensures snaps[j].last <= t - 1 <= snaps[j].Head() {
      assert HasEntry(newH, children[j]);
      assert snaps[j].Ok() && snaps[j].bag == From(snaps0[j].bag, t);
      assert snaps[j].Head() in From(snaps0[j].bag, t);
    }
  }

  lemma RootPlace(h: seq<Entry<IndexCursor>>, children: seq<IndexCursor>, snaps: seq<Snap>, last: int) returns (i: nat)
    requires UnionInv(h, children, snaps, last) && h != []
    ensures i < |children| && Shown(h[0], children[i], snaps[i]) && children[i] == h[0].item
    ensures Merged(h, children, snaps)
  {
    i := PlaceOf(h, children, snaps, 0);
  }

  /** One more child that has something left. */
  lemma EntryAdded(entries: seq<Entry<IndexCursor>>, e: Entry<IndexCursor>, cursors: seq<IndexCursor>,
        snaps: seq<Snap>, i: nat)
    requires |cursors| == |snaps| && DistinctItems(cursors) && i < |cursors|
    requires Faithful(entries, cursors, snaps) && Unique(entries) && Shown(e, cursors[i], snaps[i])
    requires forall k :: 0 <= k < |entries| ==> entries[k].item in cursors[..i]
    requires forall j :: 0 <= j < i && snaps[j].live ==> HasEntry(entries, cursors[j])
    ensures Faithful(entries + [e], cursors, snaps) && Unique(entries + [e])
    ensures forall k :: 0 <= k <= |entries| ==> (entries + [e])[k].item in cursors[..i + 1]
    ensures forall j :: 0 <= j <= i && snaps[j].live ==> HasEntry(entries + [e], cursors[j])
  {
    hide Snap.Ok;
    var all := entries + [e];
    assert all[|entries|] == e;
    assert cursors[..i + 1] == cursors[..i] + [cursors[i]];
    assert cursors[i] !in cursors[..i];
    forall j | 0 <= j < i && snaps[j].live ensures HasEntry(all, cursors[j]) {
      var k :| 0 <= k < |entries| && entries[k].item == cursors[j];
      assert all[k] == entries[k];
    }
  }

  /** The children that have something left, as heap entries. */
  method LiveEntries(cursors: seq<IndexCursor>) returns (entries: seq<Entry<IndexCursor>>)
    requires AllValid(cursors)
    ensures Entries(entries) && Holds(entries, cursors, ViewsOf(cursors))
  {
    hide Rank, IndexCursor.Valid, IndexCursor.View, Faithful, Unique, HasEntry, AllValid, ViewsOf, Snap.Head, Snap.Ok,
         DistinctItems;
    ghost var snaps := ViewsOf(cursors);
    ChildrenDiffer(cursors);
    entries := [];
    NoEntries(cursors, snaps);
    for i := 0 to |cursors|
      invariant Entries(entries) && Faithful(entries, cursors, snaps) && Unique(entries)
      invariant forall k :: 0 <= k < |entries| ==> entries[k].item in cursors[..i]
      invariant forall j :: 0 <= j < i && snaps[j].live ==> HasEntry(entries, cursors[j])
    {
      ChildView(cursors, i);
      assert cursors[..i + 1] == cursors[..i] + [cursors[i]];
      if cursors[i].curValid {
        var e := Entry(cursors[i].curInvertedTS, cursors[i].curEventID, cursors[i]);
        EntryAdded(entries, e, cursors, snaps, i);
        entries := entries + [e];
      }
    }
  }

  lemma ChildrenDiffer(cursors: seq<IndexCursor>)
    requires AllValid(cursors)
    ensures DistinctItems(cursors)
  {
  }

  lemma ChildView(cursors: seq<IndexCursor>, i: nat)
    requires AllValid(cursors) && i < |cursors|
    ensures var s := ViewsOf(cursors)[i];
            && s.live == cursors[i].curValid && s.ts == cursors[i].curInvertedTS && s.id == cursors[i].curEventID
            && (s.live ==> |s.id| == 32)
  {
  }

  lemma NoEntries(cursors: seq<IndexCursor>, snaps: seq<Snap>)
    requires |cursors| == |snaps|
    ensures Faithful([], cursors, snaps) && Unique<IndexCursor>([])
  {
  }
}
