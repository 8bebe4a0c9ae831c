/** `intersectCursor`: the sort-merge join of several conditions, each one scan or a union. */
module IntersectCursors {
  import opened Bytes
  import opened Events
  import opened Bags
  import opened LeafCursors
  import opened Merging
  import opened UnionCursors

  /** The cursor of one condition, as `wrapCursors` makes it. */
  datatype Group = One(index: IndexCursor) | Many(union: UnionCursor) {

    ghost function Objects(): set<object> {
      match this
      case One(c) => {c}
      case Many(u) => {u as object} + (set o: object | o in u.children)
    }

    ghost predicate Valid()
      reads Objects()
    {
      match this
      case One(c) => c.Valid()
      case Many(u) => u.Valid()
    }

    ghost function View(): (s: Snap)
      reads Objects()
      requires Valid()
      ensures s.Ok()
    {
      match this
      case One(c) => c.View()
      case Many(u) => u.View()
    }

    predicate HasCurrent()
      reads match this case One(c) => {c} case Many(u) => {u}
    {
      match this
      case One(c) => c.curValid
      case Many(u) => u.HasCurrent()
    }

    function InvertedTS(): uint64
      reads match this case One(c) => {c} case Many(u) => {u}
      requires HasCurrent()
    {
      match this
      case One(c) => c.curInvertedTS
      case Many(u) => u.InvertedTS()
    }

    function EventID(): Bytes
      reads match this case One(c) => {c} case Many(u) => {u}
      requires HasCurrent()
    {
      match this
      case One(c) => c.curEventID
      case Many(u) => u.EventID()
    }

    /** What is seen is what the accessors return. */
    lemma Seen()
      requires Valid()
      ensures View().live == HasCurrent()
      ensures HasCurrent() ==> View().ts == InvertedTS() && View().id == EventID()
    {
    }

    method Next() returns (ok: bool)
      requires Valid() && HasCurrent()
      modifies Objects()
      ensures Valid() && ok == HasCurrent()
      ensures Stepped(old(View()), View())
    {
      hide IndexCursor.Valid, IndexCursor.View, UnionCursor.Valid, UnionCursor.View, Stepped, Snap.Ok;
      match this {
        case One(c) => ok := c.Next();
        case Many(u) => ok := u.Next();
      }
    }

    method SeekGE(invertedTS: uint64, eventID: Bytes) returns (ok: bool)
      requires Valid() && |eventID| == 32 && View().last < Rank(invertedTS, eventID)
      modifies Objects()
      ensures Valid() && ok == HasCurrent()
      ensures Sought(old(View()), View(), Rank(invertedTS, eventID))
    {
      hide IndexCursor.Valid, IndexCursor.View, UnionCursor.Valid, UnionCursor.View, Sought, Snap.Ok, Rank;
      match this {
        case One(c) => ok := c.SeekGE(invertedTS, eventID);
        case Many(u) => ok := u.SeekGE(invertedTS, eventID);
      }
    }
  }

  ghost predicate GroupsApart(groups: seq<Group>) {
    forall i, j :: 0 <= i < |groups| && 0 <= j < |groups| && i != j ==> groups[i].Objects() !! groups[j].Objects()
  }

  ghost predicate GroupsValid(groups: seq<Group>, repr: set<object>)
    reads repr
  {
    forall i :: 0 <= i < |groups| ==> groups[i].Objects() <= repr && groups[i].Valid()
  }

  ghost function GroupViews(groups: seq<Group>, repr: set<object>): (s: seq<Snap>)
    reads repr
    requires GroupsValid(groups, repr)
    ensures |s| == |groups| && forall i :: 0 <= i < |s| ==> s[i] == groups[i].View()
    ensures forall i :: 0 <= i < |s| ==> s[i].Ok()
  {
    seq(|groups|, i requires 0 <= i < |groups| && GroupsValid(groups, repr) reads repr => groups[i].View())
  }

  lemma GroupSeen(groups: seq<Group>, repr: set<object>, i: nat)
    requires GroupsValid(groups, repr) && i < |groups|
    ensures GroupViews(groups, repr)[i].live == groups[i].HasCurrent()
    ensures groups[i].HasCurrent() ==>
              && GroupViews(groups, repr)[i].ts == groups[i].InvertedTS()
              && GroupViews(groups, repr)[i].id == groups[i].EventID()
  {
    groups[i].Seen();
  }

  method NextGroup(groups: seq<Group>, ghost repr: set<object>, i: nat) returns (ok: bool)
    requires GroupsApart(groups) && GroupsValid(groups, repr) && i < |groups| && groups[i].HasCurrent()
    modifies groups[i].Objects()
    ensures GroupsValid(groups, repr) && ok == GroupViews(groups, repr)[i].live
    ensures GroupViews(groups, repr) == old(GroupViews(groups, repr))[i := GroupViews(groups, repr)[i]]
    ensures Stepped(old(GroupViews(groups, repr))[i], GroupViews(groups, repr)[i])
  {
    hide Stepped, Snap.Ok, UnionCursor.Valid, IndexCursor.Valid, UnionCursor.View, IndexCursor.View;
    ghost var views := GroupViews(groups, repr);
    ok := groups[i].Next();
    groups[i].Seen();
    forall j | 0 <= j < |groups| && j != i ensures groups[j].Valid() && groups[j].View() == views[j] {
      assert groups[i].Objects() !! groups[j].Objects();
      assert old(groups[j].Valid());
    }
  }

  method SeekGroup(groups: seq<Group>, ghost repr: set<object>, i: nat, ts: uint64, id: Bytes) returns (ok: bool)
    requires GroupsApart(groups) && GroupsValid(groups, repr) && i < |groups|
    requires |id| == 32 && GroupViews(groups, repr)[i].last < Rank(ts, id)
    modifies groups[i].Objects()
    ensures GroupsValid(groups, repr) && ok == GroupViews(groups, repr)[i].live
    ensures GroupViews(groups, repr) == old(GroupViews(groups, repr))[i := GroupViews(groups, repr)[i]]
    ensures Sought(old(GroupViews(groups, repr))[i], GroupViews(groups, repr)[i], Rank(ts, id))
  {
    hide Sought, Snap.Ok, UnionCursor.Valid, IndexCursor.Valid, UnionCursor.View, IndexCursor.View, Rank;
    ghost var views := GroupViews(groups, repr);
    ok := groups[i].SeekGE(ts, id);
    groups[i].Seen();
    forall j | 0 <= j < |groups| && j != i ensures groups[j].Valid() && groups[j].View() == views[j] {
      assert groups[i].Objects() !! groups[j].Objects();
      assert old(groups[j].Valid());
    }
  }

  // ---------- The join ----------

  ghost predicate Joined(valid: bool, snaps: seq<Snap>) {
    && snaps != [] && (forall i :: 0 <= i < |snaps| ==> snaps[i].Ok())
    && (valid ==> forall i :: 0 <= i < |snaps| ==>
          snaps[i].live && snaps[i].ts == snaps[0].ts && snaps[i].id == snaps[0].id)
    && (!valid ==> Common(BagsOf(snaps)) == multiset{})
  }

  /** The bag of an intersection is what the first child has in common with the others. */
  ghost function JoinView(valid: bool, snaps: seq<Snap>, last: int): (s: Snap)
    requires Joined(valid, snaps)
  {
    if valid then Snap(snaps[0].ts, snaps[0].id, true, Common(BagsOf(snaps)), last)
    else Snap(0, [], false, multiset{}, last)
  }

  lemma JoinViewOk(valid: bool, snaps: seq<Snap>, last: int)
    requires Joined(valid, snaps) && (valid ==> last <= snaps[0].Head())
    ensures JoinView(valid, snaps, last).Ok() && JoinView(valid, snaps, last).bag == Common(BagsOf(snaps))
  {
    if valid {
      var head := snaps[0].Head();
      hide Rank, Common;
      CommonCount(BagsOf(snaps), head);
      assert forall i :: 0 <= i < |snaps| ==> snaps[i].Ok() && snaps[i].Head() == head && head in BagsOf(snaps)[i];
      forall x | x in Common(BagsOf(snaps)) ensures head <= x {
        CommonBounds(BagsOf(snaps), x);
        assert x in BagsOf(snaps)[0];
      }
    }
  }

  ghost predicate AllLive(snaps: seq<Snap>) {
    forall i :: 0 <= i < |snaps| ==> snaps[i].live
  }

  predicate Greater(a: Group, b: Group)
    reads match a case One(c) => {c} case Many(u) => {u}
    reads match b case One(c) => {c} case Many(u) => {u}
    requires a.HasCurrent() && b.HasCurrent()
  {
    PositionLess(b.InvertedTS(), b.EventID(), a.InvertedTS(), a.EventID())
  }

  lemma GreaterHead(a: Group, b: Group)
    requires a.Valid() && b.Valid() && a.View().live && b.View().live
    ensures a.HasCurrent() && b.HasCurrent()
    ensures Greater(a, b) <==> a.View().Head() > b.View().Head()
  {
    a.Seen();
    b.Seen();
    hide Rank, Group.Valid, Group.View, Group.Objects, Group.HasCurrent, Group.InvertedTS, Group.EventID, Less;
    assert a.View().Ok() && b.View().Ok();
    RankOrder(b.InvertedTS(), b.EventID(), a.InvertedTS(), a.EventID());
  }

  /** Whether every child has something left, and if so the index of a greatest head. */
  method MaxHead(cursors: seq<Group>, ghost repr: set<object>, ghost snaps: seq<Snap>)
      returns (alive: bool, maxIdx: nat)
    requires cursors != [] && GroupsValid(cursors, repr) && snaps == GroupViews(cursors, repr)
    ensures GroupsValid(cursors, repr) && GroupViews(cursors, repr) == snaps
    ensures !alive ==> Common(BagsOf(snaps)) == multiset{}
    ensures alive ==> AllLive(snaps) && maxIdx < |cursors|
    ensures alive ==> forall i :: 0 <= i < |cursors| ==> snaps[i].Head() <= snaps[maxIdx].Head()
  {
    hide Rank, Group.Valid, Group.View, Group.Objects, Group.HasCurrent, Greater, Snap.Ok, Common;
    forall k | 0 <= k < |cursors| ensures snaps[k].live == cursors[k].HasCurrent() {
      cursors[k].Seen();
    }
    maxIdx := 0;
    var n := 0;
    while n < |cursors|
      invariant 0 <= n <= |cursors| && forall k :: 0 <= k < n ==> snaps[k].live
    {
      if !cursors[n].HasCurrent() {
        DeadBag(snaps[n]);
        EmptyCommon(BagsOf(snaps), n);
        alive := false;
        return;
      }
      n := n + 1;
    }
    alive := true;
    forall k, m | 0 <= k < |cursors| && 0 <= m < |cursors|
      ensures Greater(cursors[k], cursors[m]) <==> snaps[k].Head() > snaps[m].Head()
    {
      GreaterHead(cursors[k], cursors[m]);
    }
    var i := 1;
    while i < |cursors|
      invariant 1 <= i <= |cursors| && maxIdx < |cursors|
      invariant forall k :: 0 <= k < i ==> snaps[k].Head() <= snaps[maxIdx].Head()
    {
      if Greater(cursors[i], cursors[maxIdx]) {
        maxIdx := i;
      }
      i := i + 1;
    }
  }

  ghost predicate AllAt(snaps: seq<Snap>, s: Snap) {
    forall i :: 0 <= i < |snaps| ==> snaps[i].live && snaps[i].ts == s.ts && snaps[i].id == s.id
  }

  /** While the others catch up with the head at `maxIdx`: the first `k` have been looked at. */
  ghost predicate Catching(snaps0: seq<Snap>, snaps: seq<Snap>, maxIdx: nat, k: nat, allMatch: bool)
    requires maxIdx < |snaps0|
  {
    && |snaps| == |snaps0| && k <= |snaps| && (forall i :: 0 <= i < |snaps| ==> snaps[i].Ok())
    && snaps[maxIdx] == snaps0[maxIdx] && (forall i :: k <= i < |snaps| ==> snaps[i] == snaps0[i])
    && Common(BagsOf(snaps)) == Common(BagsOf(snaps0))
    && Total(BagsOf(snaps)) <= Total(BagsOf(snaps0))
    && (!allMatch ==> Total(BagsOf(snaps)) < Total(BagsOf(snaps0)))
    && (allMatch ==> forall i :: 0 <= i < k ==>
          snaps[i].live && snaps[i].ts == snaps0[maxIdx].ts && snaps[i].id == snaps0[maxIdx].id)
  }

  /** One more child has been sought up to the maximum, which it stood below. */
  lemma CatchUp(snaps0: seq<Snap>, snaps: seq<Snap>, maxIdx: nat, k: nat, allMatch: bool, s: Snap, matches: bool)
    requires maxIdx < |snaps0| && Catching(snaps0, snaps, maxIdx, k, allMatch) && k < |snaps| && k != maxIdx
    requires AllLive(snaps0) && snaps0[k].Head() < snaps0[maxIdx].Head()
    requires Sought(snaps[k], s, snaps0[maxIdx].Head())
    requires matches == (s.live && s.ts == snaps0[maxIdx].ts && s.id == snaps0[maxIdx].id)
    ensures Catching(snaps0, snaps[k := s], maxIdx, k + 1, allMatch && matches)
  {
    hide Rank, Common, Total, From;
    var t := snaps0[maxIdx].Head();
    var bags, bag := BagsOf(snaps), From(snaps[k].bag, t);
    assert BagsOf(snaps[k := s]) == bags[k := bag];
    SeekKeepsCommon(bags, k, maxIdx, t);
    TotalUpdate(bags, k, bag);
    FromSize(snaps[k].bag, t);
    assert snaps[k].Head() in snaps[k].bag && snaps[k].Head() < t;
  }

  lemma CaughtUp(snaps0: seq<Snap>, snaps: seq<Snap>, maxIdx: nat, k: nat, allMatch: bool)
    requires maxIdx < |snaps0| && Catching(snaps0, snaps, maxIdx, k, allMatch) && k < |snaps|
    requires snaps[k].live && snaps[k].ts == snaps0[maxIdx].ts && snaps[k].id == snaps0[maxIdx].id
    ensures Catching(snaps0, snaps, maxIdx, k + 1, allMatch)
  {
    hide Rank, Common, Total, From;
  }

  /** One round of `findMatch`: seek every other child up to the greatest head. */
  method SeekOthers(cursors: seq<Group>, ghost repr: set<object>, maxIdx: nat, ghost snaps0: seq<Snap>)
      returns (alive: bool, allMatch: bool)
    requires GroupsApart(cursors) && GroupsValid(cursors, repr) && snaps0 == GroupViews(cursors, repr)
    requires AllLive(snaps0)
    requires maxIdx < |cursors| && forall i :: 0 <= i < |cursors| ==> snaps0[i].Head() <= snaps0[maxIdx].Head()
    modifies repr
    ensures GroupsValid(cursors, repr)
    ensures Common(BagsOf(GroupViews(cursors, repr))) == Common(BagsOf(snaps0))
    ensures !alive ==> Common(BagsOf(snaps0)) == multiset{}
    ensures alive && !allMatch ==> Total(BagsOf(GroupViews(cursors, repr))) < Total(BagsOf(snaps0))
    ensures alive && allMatch ==> AllAt(GroupViews(cursors, repr), snaps0[maxIdx])
  {
    hide Rank, Group.Valid, Group.View, Group.Objects, Group.HasCurrent, Group.InvertedTS, Group.EventID, Snap.Ok,
         Common, Total, BagsOf, GroupViews, GroupsApart, Catching, Sought, GroupsValid, AllAt, AllLive;
    StartCatching(cursors, repr, snaps0, maxIdx);
    var maxTS, maxID := cursors[maxIdx].InvertedTS(), cursors[maxIdx].EventID();
    allMatch := true;
    var k := 0;
    while k < |cursors|
      invariant 0 <= k <= |cursors| && GroupsValid(cursors, repr)
      invariant Catching(snaps0, GroupViews(cursors, repr), maxIdx, k, allMatch)
    {
      alive, allMatch := SeekOther(cursors, repr, maxIdx, k, maxTS, maxID, snaps0, allMatch);
      if !alive {
        return;
      }
      k := k + 1;
    }
    Caught(snaps0, GroupViews(cursors, repr), maxIdx, allMatch);
    alive := true;
  }

  lemma StartCatching(cursors: seq<Group>, repr: set<object>, snaps: seq<Snap>, maxIdx: nat)
    requires GroupsValid(cursors, repr) && snaps == GroupViews(cursors, repr) && maxIdx < |snaps| && AllLive(snaps)
    ensures Catching(snaps, snaps, maxIdx, 0, true) && cursors[maxIdx].HasCurrent()
    ensures cursors[maxIdx].InvertedTS() == snaps[maxIdx].ts && cursors[maxIdx].EventID() == snaps[maxIdx].id
  {
    GroupSeen(cursors, repr, maxIdx);
  }

  lemma Caught(snaps0: seq<Snap>, snaps: seq<Snap>, maxIdx: nat, allMatch: bool)
    requires maxIdx < |snaps0| && Catching(snaps0, snaps, maxIdx, |snaps0|, allMatch)
    ensures Common(BagsOf(snaps)) == Common(BagsOf(snaps0))
    ensures !allMatch ==> Total(BagsOf(snaps)) < Total(BagsOf(snaps0))
    ensures allMatch ==> AllAt(snaps, snaps0[maxIdx])
  {
  }

  /** One child of the round. */
  method SeekOther(cursors: seq<Group>, ghost repr: set<object>, maxIdx: nat, k: nat, maxTS: uint64, maxID: Bytes,
        ghost snaps0: seq<Snap>, allMatch0: bool)
      returns (alive: bool, allMatch: bool)
    requires GroupsApart(cursors) && GroupsValid(cursors, repr) && k < |cursors| && maxIdx < |cursors| == |snaps0|
    requires Catching(snaps0, GroupViews(cursors, repr), maxIdx, k, allMatch0) && AllLive(snaps0)
    requires forall i :: 0 <= i < |cursors| ==> snaps0[i].Head() <= snaps0[maxIdx].Head()
    requires snaps0[maxIdx].ts == maxTS && snaps0[maxIdx].id == maxID
    modifies repr
    ensures GroupsValid(cursors, repr)
    ensures Common(BagsOf(GroupViews(cursors, repr))) == Common(BagsOf(snaps0))
    ensures alive ==> Catching(snaps0, GroupViews(cursors, repr), maxIdx, k + 1, allMatch)
    ensures !alive ==> Common(BagsOf(snaps0)) == multiset{}
  {
    allMatch := allMatch0;
    ghost var before := GroupViews(cursors, repr);
    GroupSeen(cursors, repr, k);
    Standing(snaps0, before, maxIdx, k, allMatch0);
    hide Rank, Group.Valid, Group.View, Group.Objects, Group.HasCurrent, Group.InvertedTS, Group.EventID, Snap.Ok,
         Common, Total, BagsOf, GroupViews, GroupsApart, Catching, Sought, GroupsValid;
    if k == maxIdx {
      CaughtUp(snaps0, before, maxIdx, k, allMatch0);
      return true, allMatch0;
    }
    var cur := cursors[k];
    if cur.InvertedTS() == maxTS && cur.EventID() == maxID {
      CaughtUp(snaps0, before, maxIdx, k, allMatch0);
      return true, allMatch0;
    }
    StandsBelow(snaps0, maxIdx, k);
    assert cursors[k].Objects() <= repr;
    alive := SeekGroup(cursors, repr, k, maxTS, maxID);
    GroupSeen(cursors, repr, k);
    ghost var s := GroupViews(cursors, repr)[k];
    var matches := alive && cur.InvertedTS() == maxTS && cur.EventID() == maxID;
    CatchUp(snaps0, before, maxIdx, k, allMatch0, s, matches);
    Caught'(snaps0, GroupViews(cursors, repr), maxIdx, k + 1, allMatch0 && matches);
    if !alive {
      assert s.bag == multiset{} by { DeadBag(s); }
      EmptyCommon(BagsOf(GroupViews(cursors, repr)), k);
      return;
    }
    if !matches {
      allMatch := false;
    }
  }

  lemma DeadBag(s: Snap)
    requires s.Ok() && !s.live
    ensures s.bag == multiset{}
  {
  }

  lemma Caught'(snaps0: seq<Snap>, snaps: seq<Snap>, maxIdx: nat, k: nat, allMatch: bool)
    requires maxIdx < |snaps0| && Catching(snaps0, snaps, maxIdx, k, allMatch)
    ensures Common(BagsOf(snaps)) == Common(BagsOf(snaps0))
    ensures forall i :: 0 <= i < |snaps| ==> snaps[i].Ok()
  {
  }

  /** A child not looked at yet stands where it stood, consumed no further than its head. */
  lemma Standing(snaps0: seq<Snap>, snaps: seq<Snap>, maxIdx: nat, k: nat, allMatch: bool)
    requires maxIdx < |snaps0| && Catching(snaps0, snaps, maxIdx, k, allMatch) && k < |snaps| && AllLive(snaps0)
    ensures snaps[k] == snaps0[k] && snaps[k].last <= snaps[k].Head() && |snaps[maxIdx].id| == 32
    ensures snaps[k].Ok() && snaps[maxIdx] == snaps0[maxIdx] && snaps0[k].Ok() && snaps0[maxIdx].Ok()
    ensures Common(BagsOf(snaps)) == Common(BagsOf(snaps0))
  {
    hide Rank;
    assert snaps[k].Ok();
  }

  lemma StandsBelow(snaps: seq<Snap>, maxIdx: nat, k: nat)
    requires k < |snaps| && maxIdx < |snaps| && AllLive(snaps) && snaps[k].Ok() && snaps[maxIdx].Ok()
    requires snaps[k].Head() <= snaps[maxIdx].Head()
    requires snaps[k].ts != snaps[maxIdx].ts || snaps[k].id != snaps[maxIdx].id
    ensures snaps[k].Head() < snaps[maxIdx].Head()
  {
    RankOrder(snaps[k].ts, snaps[k].id, snaps[maxIdx].ts, snaps[maxIdx].id);
    hide Rank;
  }

  lemma NotJoined(snaps: seq<Snap>)
    requires snaps != [] && (forall i :: 0 <= i < |snaps| ==> snaps[i].Ok()) && Common(BagsOf(snaps)) == multiset{}
    ensures Joined(false, snaps)
  {
  }

  lemma NowJoined(snaps: seq<Snap>, s: Snap)
    requires snaps != [] && (forall i :: 0 <= i < |snaps| ==> snaps[i].Ok()) && AllAt(snaps, s)
    ensures Joined(true, snaps)
  {
  }

  /** Moving the first child on from the common head takes that head out of the common part. */
  lemma FirstSteps(snaps: seq<Snap>, s: Snap)
    requires Joined(true, snaps) && Stepped(snaps[0], s)
    ensures Common(BagsOf(snaps[0 := s])) == Common(BagsOf(snaps)) - multiset{snaps[0].Head()}
  {
    hide Rank, Common;
    var bags, bags', head := BagsOf(snaps), BagsOf(snaps[0 := s]), snaps[0].Head();
    assert forall i :: 0 <= i < |snaps| ==> snaps[i].Ok() && snaps[i].Head() == head && head in bags[i];
    forall x ensures Common(bags')[x] == (Common(bags) - multiset{head})[x] {
      CommonCount(bags, x);
      CommonCount(bags', x);
      assert forall i :: 1 <= i < |snaps| ==> bags'[i] == bags[i];
    }
  }

  /** The head of a join is one of the common positions. */
  lemma HeadIsCommon(snaps: seq<Snap>)
    requires Joined(true, snaps)
    ensures snaps[0].Head() in Common(BagsOf(snaps))
  {
    hide Rank, Common;
    CommonCount(BagsOf(snaps), snaps[0].Head());
    assert forall i :: 0 <= i < |snaps| ==> snaps[i].Ok() && snaps[i].Head() == snaps[0].Head();
  }

  /** From one match to the next. */
  lemma JoinSteps(snaps: seq<Snap>, last: int, valid: bool, snaps': seq<Snap>)
    requires Joined(true, snaps) && last <= snaps[0].Head() && Joined(valid, snaps')
    requires Common(BagsOf(snaps')) == Common(BagsOf(snaps)) - multiset{snaps[0].Head()}
    ensures valid ==> snaps[0].Head() <= snaps'[0].Head()
    ensures Stepped(JoinView(true, snaps, last), JoinView(valid, snaps', snaps[0].Head()))
  {
    JoinViewOk(true, snaps, last);
    if valid {
      HeadIsCommon(snaps');
    }
    hide Rank, Common, BagsOf;
    JoinViewOk(valid, snaps', snaps[0].Head());
  }

  lemma JoinEnds(snaps: seq<Snap>)
    requires snaps != [] && (forall i :: 0 <= i < |snaps| ==> snaps[i].Ok()) && !snaps[0].live
    ensures Joined(false, snaps)
  {
    EmptyCommon(BagsOf(snaps), 0);
  }

  lemma HeadsAreRanks(s: Snap)
    ensures s.Head() >= 0
  {
  }

  class IntersectCursor {
    const cursors: seq<Group>
    var valid: bool
    ghost const Repr: set<object>
    ghost var last: int

    ghost predicate Valid()
      reads this, Repr
    {
      && this !in Repr
      && GroupsApart(cursors) && GroupsValid(cursors, Repr) && Joined(valid, GroupViews(cursors, Repr))
      && (valid ==> last <= GroupViews(cursors, Repr)[0].Head())
    }

    ghost function View(): (s: Snap)
      reads this, Repr
      requires Valid()
      ensures s.Ok() && s.live == valid && s.bag == Common(BagsOf(GroupViews(cursors, Repr)))
    {
      JoinViewOk(valid, GroupViews(cursors, Repr), last);
      JoinView(valid, GroupViews(cursors, Repr), last)
    }

    constructor (cursors: seq<Group>, ghost repr: set<object>)
      requires cursors != [] && GroupsApart(cursors) && GroupsValid(cursors, repr)
      modifies repr
      ensures Valid() && this.cursors == cursors && Repr == repr
      ensures View().bag == Common(BagsOf(old(GroupViews(cursors, repr))))
    {
      hide Rank, Joined, GroupsApart, GroupsValid, GroupViews, BagsOf, Common, JoinView, Snap.Head, Snap.Ok;
      this.cursors, Repr := cursors, repr;
      last := -1;
      valid := false;
      new;
      FindMatch();
      if valid {
        HeadsAreRanks(GroupViews(cursors, Repr)[0]);
      }
    }

    /** Advance cursors until all stand at the same position, or one has nothing left. */
    method FindMatch()
      requires this !in Repr && cursors != [] && GroupsApart(cursors) && GroupsValid(cursors, Repr)
      modifies this`valid, Repr
      ensures GroupsApart(cursors) && GroupsValid(cursors, Repr) && Joined(valid, GroupViews(cursors, Repr))
      ensures Common(BagsOf(GroupViews(cursors, Repr))) == Common(BagsOf(old(GroupViews(cursors, Repr))))
    {
      hide Rank, Group.Valid, Group.View, Group.Objects, Group.HasCurrent, Snap.Ok, Common, Total, BagsOf, GroupViews,
           Joined, GroupsApart;
      while true
        invariant GroupsValid(cursors, Repr)
        invariant Common(BagsOf(GroupViews(cursors, Repr))) == Common(BagsOf(old(GroupViews(cursors, Repr))))
        decreases Total(BagsOf(GroupViews(cursors, Repr)))
      {
        ghost var snaps := GroupViews(cursors, Repr);
        var alive, maxIdx := MaxHead(cursors, Repr, snaps);
        if !alive {
          NotJoined(snaps);
          valid := false;
          return;
        }
        var allMatch;
        alive, allMatch := SeekOthers(cursors, Repr, maxIdx, snaps);
        if !alive {
          NotJoined(GroupViews(cursors, Repr));
          valid := false;
          return;
        }
        if allMatch {
          NowJoined(GroupViews(cursors, Repr), snaps[maxIdx]);
          valid := true;
          return;
        }
      }
    }

    method Next() returns (ok: bool)
      requires Valid()
      modifies this, Repr
      ensures Valid() && ok == valid
      ensures old(valid) ==> Stepped(old(View()), View())
      ensures !old(valid) ==> !ok && View().bag == old(View()).bag
    {
      hide Rank, Joined, GroupsApart, BagsOf, Common, JoinView, Snap.Head, Snap.Ok, Stepped,
           Group.Valid, Group.View, Group.Objects, Group.HasCurrent, GroupsValid, GroupViews;
      if !valid {
        return false;
      }
      ghost var snaps, before := GroupViews(cursors, Repr), last;
      JoinIsLive(cursors, Repr, snaps);
      GroupInside(cursors, Repr, 0);
      var more := NextGroup(cursors, Repr, 0);
      FirstSteps(snaps, GroupViews(cursors, Repr)[0]);
      last := snaps[0].Head();
      if !more {
        JoinEnds(GroupViews(cursors, Repr));
        valid := false;
        JoinSteps(snaps, before, false, GroupViews(cursors, Repr));
        return false;
      }
      FindMatch();
      JoinSteps(snaps, before, valid, GroupViews(cursors, Repr));
      return valid;
    }
  }

  lemma JoinIsLive(cursors: seq<Group>, repr: set<object>, snaps: seq<Snap>)
    requires GroupsValid(cursors, repr) && snaps == GroupViews(cursors, repr) && Joined(true, snaps)
    ensures cursors != [] && cursors[0].HasCurrent()
  {
    GroupSeen(cursors, repr, 0);
  }

  lemma GroupInside(groups: seq<Group>, repr: set<object>, i: nat)
    requires GroupsValid(groups, repr) && i < |groups|
    ensures groups[i].Objects() <= repr
  {
  }
}
