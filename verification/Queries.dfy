/** The cursor of one filter, of any of the three shapes the builder makes. */
module FilterCursors {
  import opened Bytes
  import opened Filters
  import opened LeafCursors
  import opened UnionCursors
  import opened IntersectCursors

  datatype Cursor = Slice(slice: SliceCursor) | Plain(group: Group) | Join(join: IntersectCursor) {

    ghost function Objects(): set<object> {
      match this
      case Slice(c) => {c}
      case Plain(g) => g.Objects()
      case Join(j) => {j} + j.Repr
    }

    ghost predicate Valid()
      reads Objects()
    {
      match this
      case Slice(c) => c.Valid()
      case Plain(g) => g.Valid()
      case Join(j) => j.Valid()
    }

    ghost function View(): (s: Snap)
      reads Objects()
      requires Valid()
      ensures s.Ok()
    {
      match this
      case Slice(c) => c.View()
      case Plain(g) => g.View()
      case Join(j) => j.View()
    }

    predicate HasCurrent()
      reads Objects()
      requires Valid()
      ensures HasCurrent() <==> View().live
    {
      hide SliceCursor.Valid, IntersectCursor.Valid, Group.Valid, Snap.Ok;
      match this
      case Slice(c) => c.HasCurrent()
      case Plain(g) => g.Seen(); g.HasCurrent()
      case Join(j) => j.valid
    }

    function InvertedTS(): (ts: uint64)
      reads Objects()
      requires Valid() && HasCurrent()
      ensures ts == View().ts
    {
      hide SliceCursor.Valid, Group.Valid, Group.View, Snap.Ok;
      match this
      case Slice(c) => c.InvertedTS()
      case Plain(g) => g.Seen(); g.InvertedTS()
      case Join(j) =>
        JoinIsLive(j.cursors, j.Repr, GroupViews(j.cursors, j.Repr));
        GroupSeen(j.cursors, j.Repr, 0);
        j.cursors[0].InvertedTS()
    }

    function EventID(): (id: Bytes)
      reads Objects()
      requires Valid() && HasCurrent()
      ensures id == View().id
    {
      hide SliceCursor.Valid, Group.Valid, Group.View, Snap.Ok;
      match this
      case Slice(c) => c.EventID()
      case Plain(g) => g.Seen(); g.EventID()
      case Join(j) =>
        JoinIsLive(j.cursors, j.Repr, GroupViews(j.cursors, j.Repr));
        GroupSeen(j.cursors, j.Repr, 0);
        j.cursors[0].EventID()
    }

    method Next() returns (ok: bool)
      requires Valid() && HasCurrent()
      modifies Objects()
      ensures Valid() && ok == HasCurrent()
      ensures Stepped(old(View()), View())
    {
      hide SliceCursor.Valid, IntersectCursor.Valid, Group.Valid, Snap.Ok, Stepped;
      match this {
        case Slice(c) => ok := c.Next();
        case Plain(g) => g.Seen(); ok := g.Next(); g.Seen();
        case Join(j) => ok := j.Next();
      }
    }
  }

  /** `filterCursorPair`; the place tells two pairs apart. */
  datatype Pair = Pair(place: nat, cursor: Cursor, filter: Filter)

  ghost predicate PairsApart(pairs: seq<Pair>) {
    && (forall i :: 0 <= i < |pairs| ==> pairs[i].place == i)
    && forall i, j :: 0 <= i < |pairs| && 0 <= j < |pairs| && i != j ==>
         pairs[i].cursor.Objects() !! pairs[j].cursor.Objects()
  }

  ghost predicate PairsValid(pairs: seq<Pair>, repr: set<object>)
    reads repr
  {
    forall i :: 0 <= i < |pairs| ==> pairs[i].cursor.Objects() <= repr && pairs[i].cursor.Valid()
  }

  ghost function PairViews(pairs: seq<Pair>, repr: set<object>): (s: seq<Snap>)
    reads repr
    requires PairsValid(pairs, repr)
    ensures |s| == |pairs| && forall i :: 0 <= i < |s| ==> s[i] == pairs[i].cursor.View()
    ensures forall i :: 0 <= i < |s| ==> s[i].Ok()
  {
    seq(|pairs|, i requires 0 <= i < |pairs| && PairsValid(pairs, repr) reads repr => pairs[i].cursor.View())
  }

  method NextPair(pairs: seq<Pair>, ghost repr: set<object>, i: nat) returns (ok: bool)
    requires PairsApart(pairs) && PairsValid(pairs, repr) && i < |pairs| && PairViews(pairs, repr)[i].live
    modifies pairs[i].cursor.Objects()
    ensures PairsValid(pairs, repr) && ok == PairViews(pairs, repr)[i].live
    ensures PairViews(pairs, repr) == old(PairViews(pairs, repr))[i := PairViews(pairs, repr)[i]]
    ensures Stepped(old(PairViews(pairs, repr))[i], PairViews(pairs, repr)[i])
  {
    hide Stepped, Snap.Ok, UnionCursor.Valid, UnionCursor.View, IndexCursor.Valid, IndexCursor.View,
         SliceCursor.Valid, SliceCursor.View, IntersectCursor.Valid, IntersectCursor.View, Cursor.HasCurrent,
         Cursor.View, Cursor.Valid;
    ghost var views := PairViews(pairs, repr);
    ok := pairs[i].cursor.Next();
    forall j | 0 <= j < |pairs| && j != i ensures pairs[j].cursor.Valid() && pairs[j].cursor.View() == views[j] {
      assert pairs[i].cursor.Objects() !! pairs[j].cursor.Objects();
      assert old(pairs[j].cursor.Valid());
    }
  }
}

/** The query loop: merge the cursors of all filters, recheck, drop repeats, cut at the limit. */
module PebbleSearch {
  import opened Bytes
  import opened Events
  import opened Filters
  import opened Bags
  import opened Heap
  import opened LeafCursors
  import opened Merging
  import opened PebbleModel
  import opened FilterCursors

  ghost function FiltersOf(pairs: seq<Pair>): (f: seq<Filter>)
    ensures |f| == |pairs| && forall i :: 0 <= i < |f| ==> f[i] == pairs[i].filter
  {
    seq(|pairs|, i requires 0 <= i < |pairs| => pairs[i].filter)
  }

  ghost predicate RankOfLive(live: set<Event>, x: int) {
    exists e :: e in live && EventRank(e) == x
  }

  /** Every position left is that of a live event. */
  ghost predicate Sound(live: set<Event>, snaps: seq<Snap>) {
    forall i, x :: 0 <= i < |snaps| && x in snaps[i].bag ==> RankOfLive(live, x)
  }

  /** What is sent comes before whatever is left. */
  ghost predicate Ahead(snaps: seq<Snap>, out: seq<Event>) {
    forall e, i, x :: e in out && 0 <= i < |snaps| && x in snaps[i].bag ==> EventRank(e) <= x
  }

  /** Every live match of a filter is sent or still ahead of its cursor. */
  ghost predicate Covered(live: set<Event>, fs: seq<Filter>, snaps: seq<Snap>, out: seq<Event>)
    requires |fs| == |snaps|
  {
    forall e, i :: e in live && 0 <= i < |fs| && Matches(fs[i], e) ==> e in out || EventRank(e) in snaps[i].bag
  }

  ghost predicate Searching(live: set<Event>, fs: seq<Filter>, snaps: seq<Snap>, out: seq<Event>, seen: set<string>) {
    && |fs| == |snaps| && AllWellFormed(live) && DistinctIds(live)
    && Ordered(out) && (forall e :: e in out ==> e in live && MatchesAny(fs, e))
    && (forall e :: e in live ==> (e in out <==> e.id in seen))
    && Sound(live, snaps) && Ahead(snaps, out) && Covered(live, fs, snaps, out)
  }

  ghost predicate Fetchable(db: DB, live: set<Event>) {
    forall e :: e in live ==> GetEvent(db, FromHex(e.id)) == Some(e)
  }

  /** The live event at a position some cursor stands at. */
  lemma EventAt(db: DB, live: set<Event>, snaps: seq<Snap>, i: nat, ts: uint64, id: Bytes) returns (e: Event)
    requires AllWellFormed(live) && Sound(live, snaps) && Fetchable(db, live)
    requires i < |snaps| && |id| == 32 && Rank(ts, id) in snaps[i].bag
    ensures e in live && EventRank(e) == Rank(ts, id) && FromHex(e.id) == id && ToHex(id) == e.id
    ensures GetEvent(db, id) == Some(e)
  {
    assert RankOfLive(live, Rank(ts, id));
    e :| e in live && EventRank(e) == Rank(ts, id);
    hide Rank, FromHex, ToHex;
    assert WellFormed(e);
    RankOrder(ts, id, InvertTimestamp(e.createdAt), FromHex(e.id));
    HexOrder(e.id, e.id);
  }

  /** The event at the least position is sent if it matches and was not, and the cursor moves on. */
  lemma SearchStep(live: set<Event>, fs: seq<Filter>, snaps: seq<Snap>, out: seq<Event>, seen: set<string>,
                   i: nat, e: Event, s: Snap, out': seq<Event>, seen': set<string>)
    requires Searching(live, fs, snaps, out, seen) && i < |fs| && e in live
    requires forall j, x :: 0 <= j < |snaps| && x in snaps[j].bag ==> EventRank(e) <= x
    requires s.bag == snaps[i].bag - multiset{EventRank(e)} && EventRank(e) in snaps[i].bag
    requires if e.id !in seen && Matches(fs[i], e) then out' == out + [e] && seen' == seen + {e.id}
             else out' == out && seen' == seen
    ensures Searching(live, fs, snaps[i := s], out', seen')
  {
    hide Matches, EventRank, Before;
    var snaps' := snaps[i := s];
    forall j, x | 0 <= j < |snaps'| && x in snaps'[j].bag ensures x in snaps[j].bag {}
    forall x ensures x in out' <==> x in out || (out' != out && x == e) {}
    if out' != out {
      forall k | 0 <= k < |out| ensures Before(out[k], e) {
        assert out[k] in out && out[k] != e;
        assert EventRank(out[k]) <= EventRank(e);
        EventRankOrder(out[k], e);
      }
      assert MatchesAny(fs, e);
    }
    forall e', j | e' in live && 0 <= j < |fs| && Matches(fs[j], e')
      ensures e' in out' || EventRank(e') in snaps'[j].bag
    {
      if e' != e {
        EventRankOrder(e', e);
      }
    }
    forall e' | e' in live ensures e' in out' <==> e'.id in seen' {}
  }

  lemma AtRoot(h: seq<Entry<Pair>>, pairs: seq<Pair>, snaps: seq<Snap>) returns (i: nat)
    requires Merged(h, pairs, snaps) && h != []
    ensures i < |pairs| == |snaps| && Shown(h[0], pairs[i], snaps[i]) && snaps[i].Ok() && |h[0].id| == 32
  {
    i := PlaceOf(h, pairs, snaps, 0);
  }

  /** The event the root stands for, and that it comes before everything left. */
  lemma Fetched(db: DB, live: set<Event>, fs: seq<Filter>, h: seq<Entry<Pair>>, pairs: seq<Pair>, snaps: seq<Snap>,
                out: seq<Event>, seen: set<string>, i: nat) returns (e: Event)
    requires Fetchable(db, live) && Searching(live, fs, snaps, out, seen)
    requires Merged(h, pairs, snaps) && h != [] && i < |pairs| && Shown(h[0], pairs[i], snaps[i])
    ensures e in live && EventRank(e) == snaps[i].Head() && EventRank(e) in snaps[i].bag
    ensures GetEvent(db, h[0].id) == Some(e) && ToHex(h[0].id) == e.id
    ensures forall j, x :: 0 <= j < |snaps| && x in snaps[j].bag ==> EventRank(e) <= x
  {
    hide Rank, Sum, IsHeap, Holds, Covered, Ahead, FromHex, ToHex, GetEvent, EventRank;
    assert snaps[i].Ok();
    e := EventAt(db, live, snaps, i, h[0].ts, h[0].id);
    MergedHead(h, pairs, snaps);
    forall j, x | 0 <= j < |snaps| && x in snaps[j].bag ensures EventRank(e) <= x {
      assert x in BagsOf(snaps)[j];
      SumMember(BagsOf(snaps), x);
    }
  }

  lemma StepBags(snaps: seq<Snap>, i: nat, s: Snap)
    requires i < |snaps| && Stepped(snaps[i], s) && snaps[i].Ok()
    ensures s.bag == snaps[i].bag - multiset{snaps[i].Head()}
    ensures |Sum(BagsOf(snaps[i := s]))| < |Sum(BagsOf(snaps))|
  {
    hide Rank, Sum, Snap.Head;
    SumUpdate(BagsOf(snaps), i, s.bag);
    assert BagsOf(snaps[i := s]) == BagsOf(snaps)[i := s.bag];
    OneTaken(Sum(BagsOf(snaps)), snaps[i].bag, snaps[i].Head());
  }

  lemma OneTaken(sum: Bag, bag: Bag, x: int)
    requires bag <= sum && x in bag
    ensures |(sum - bag) + (bag - multiset{x})| < |sum|
  {
    assert sum == (sum - bag) + bag && bag == (bag - multiset{x}) + multiset{x};
  }

  /** A cursor with nothing left may stay out of the heap. */
  lemma StillGone(h: seq<Entry<Pair>>, pairs: seq<Pair>, snaps: seq<Snap>, i: nat, s: Snap)
    requires |snaps| == |pairs| && i < |pairs| && Merged(h, pairs, snaps[i := GONE]) && s.Ok() && !s.live
    ensures Merged(h, pairs, snaps[i := s])
  {
    hide Rank, IsHeap, Snap.Ok;
    var gone, after := snaps[i := GONE], snaps[i := s];
    forall j | 0 <= j < |snaps| ensures after[j].Ok() {
      assert j != i ==> after[j] == gone[j] && gone[j].Ok();
    }
    forall k, j | 0 <= k < |h| && 0 <= j < |pairs| && h[k].item == pairs[j] ensures Shown(h[k], pairs[j], after[j]) {
      assert Shown(h[k], pairs[j], gone[j]);
    }
  }

  function NewEntry(pairs: seq<Pair>, ghost repr: set<object>, i: nat): (e: Entry<Pair>)
    reads repr
    requires PairsValid(pairs, repr) && i < |pairs| && PairViews(pairs, repr)[i].live
    ensures Shown(e, pairs[i], PairViews(pairs, repr)[i])
  {
    hide Cursor.Valid, Cursor.View, Cursor.Objects;
    Entry(pairs[i].cursor.InvertedTS(), pairs[i].cursor.EventID(), pairs[i])
  }

  /** One round of the loop. */
  method Round(db: DB, pairs: seq<Pair>, ghost repr: set<object>, h0: seq<Entry<Pair>>, out0: seq<Event>,
        seen0: set<string>, ghost live: set<Event>,
               ghost snaps: seq<Snap>)
      returns (h: seq<Entry<Pair>>, out: seq<Event>, seen: set<string>)
    requires PairsApart(pairs) && PairsValid(pairs, repr) && snaps == PairViews(pairs, repr)
    requires Merged(h0, pairs, snaps) && h0 != []
    requires Fetchable(db, live) && Searching(live, FiltersOf(pairs), snaps, out0, seen0)
    modifies repr
    ensures PairsValid(pairs, repr) && Merged(h, pairs, PairViews(pairs, repr))
    ensures Searching(live, FiltersOf(pairs), PairViews(pairs, repr), out, seen)
    ensures |out0| <= |out| <= |out0| + 1
    ensures |Sum(BagsOf(PairViews(pairs, repr)))| < |Sum(BagsOf(snaps))|
  {
    hide Cursor.Valid, Cursor.View, Cursor.Objects, Cursor.HasCurrent, Rank, Searching, Fetchable, Merged,
         BagsOf, Sum, FromHex, ToHex, Matches, EventRank, Stepped, Snap.Ok, Snap.Head;
    ghost var i := AtRoot(h0, pairs, snaps);
    ghost var e := Fetched(db, live, FiltersOf(pairs), h0, pairs, snaps, out0, seen0, i);
    var entry;
    h, entry := PopItem(h0, pairs, snaps, i);
    var pair := entry.item;
    out, seen := out0, seen0;
    var eventIDHex := BytesToHex(entry.id);
    if eventIDHex !in seen0 {
      var event := GetEvent(db, entry.id);
      if event.Some? {
        var matched := Match(pair.filter, event.value);
        if matched {
          seen := seen0 + {eventIDHex};
          out := out0 + [event.value];
        }
      }
    }
    assert pair.place == i;
    assert pair.cursor.Objects() <= repr;
    var more := NextPair(pairs, repr, pair.place);
    ghost var s := PairViews(pairs, repr)[i];
    StepBags(snaps, i, s);
    SearchStep(live, FiltersOf(pairs), snaps, out0, seen0, i, e, s, out, seen);
    assert snaps[i := GONE][i := s] == snaps[i := s];
    if more {
      var next := NewEntry(pairs, repr, pair.place);
      h := PushItem(h, next, pairs, snaps[i := GONE], i, s);
    } else {
      StillGone(h, pairs, snaps, i, s);
    }
  }

  lemma NothingLeft(h: seq<Entry<Pair>>, pairs: seq<Pair>, snaps: seq<Snap>, i: nat)
    requires Merged(h, pairs, snaps) && h == [] && i < |pairs|
    ensures snaps[i].bag == multiset{}
  {
    hide Rank;
    assert snaps[i].Ok();
  }

  /** When the heap is empty everything is sent. When the limit stops the loop, what is sent comes
      before all that is not. */
  lemma SearchEnds(live: set<Event>, fs: seq<Filter>, filters: seq<Filter>, snaps: seq<Snap>, out: seq<Event>,
        seen: set<string>)
    requires Searching(live, fs, snaps, out, seen)
    requires forall e :: e in live ==> (MatchesAny(fs, e) <==> MatchesAny(filters, e))
    requires QueryLimit(filters) >= 0 ==> |out| <= QueryLimit(filters)
    requires |out| == QueryLimit(filters) || forall i :: 0 <= i < |snaps| ==> snaps[i].bag == multiset{}
    ensures IsAnswer(live, filters, out)
  {
    hide Matches, EventRank, Before;
    forall e | e in live && MatchesAny(filters, e) && e !in out
      ensures |out| == QueryLimit(filters) && forall x :: x in out ==> Before(x, e)
    {
      assert MatchesAny(fs, e);
      var i :| 0 <= i < |fs| && Matches(fs[i], e);
      assert EventRank(e) in snaps[i].bag;
      forall x | x in out ensures Before(x, e) {
        assert EventRank(x) <= EventRank(e) && x in live && x != e;
        EventRankOrder(x, e);
      }
    }
  }

  /** The query loop over the cursors of all filters that have something to yield. */
  method Search(db: DB, pairs: seq<Pair>, ghost repr: set<object>, h0: seq<Entry<Pair>>, limit: int,
        ghost filters: seq<Filter>,
                ghost live: set<Event>)
      returns (out: seq<Event>)
    requires PairsApart(pairs) && PairsValid(pairs, repr) && Merged(h0, pairs, PairViews(pairs, repr))
    requires Fetchable(db, live) && Searching(live, FiltersOf(pairs), PairViews(pairs, repr), [], {})
    requires forall e :: e in live ==> (MatchesAny(FiltersOf(pairs), e) <==> MatchesAny(filters, e))
    requires limit == QueryLimit(filters)
    modifies repr
    ensures IsAnswer(live, filters, out)
  {
    hide Cursor.Valid, Cursor.View, Cursor.Objects, Cursor.HasCurrent, Rank, Searching, Fetchable, Merged, BagsOf, Sum,
         Matches, EventRank, Snap.Ok, Snap.Head, IsAnswer, MatchesAny, PairsValid, PairsApart, FiltersOf, QueryLimit;
    out := [];
    var seen: set<string> := {};
    var count := 0;
    var h := h0;
    while |h| > 0
      invariant PairsValid(pairs, repr) && Merged(h, pairs, PairViews(pairs, repr))
      invariant Searching(live, FiltersOf(pairs), PairViews(pairs, repr), out, seen)
      invariant count == |out| && (limit >= 0 ==> count <= limit)
      decreases |Sum(BagsOf(PairViews(pairs, repr)))|
    {
      if limit >= 0 && count >= limit {
        SearchEnds(live, FiltersOf(pairs), filters, PairViews(pairs, repr), out, seen);
        return;
      }
      h, out, seen := Round(db, pairs, repr, h, out, seen, live, PairViews(pairs, repr));
      count := |out|;
    }
    forall i | 0 <= i < |pairs| ensures PairViews(pairs, repr)[i].bag == multiset{} {
      NothingLeft(h, pairs, PairViews(pairs, repr), i);
    }
    SearchEnds(live, FiltersOf(pairs), filters, PairViews(pairs, repr), out, seen);
  }
}
