/** Any mix of steps and forward seeks of one cursor, whatever kind of cursor it is. */
module CursorRuns {
  import opened Bytes
  import opened Events
  import opened Bags
  import opened LeafCursors
  import opened Merging
  import opened IntersectCursors
  import opened FilterCursors

  datatype Move = Step | Seek(target: int)

  /** One move: a step takes the head, a seek needs a target above everything consumed. */
  ghost predicate Moved(s: Snap, m: Move, s': Snap) {
    match m
    case Step => Stepped(s, s')
    case Seek(t) => s.last < t && Sought(s, s', t)
  }

  ghost predicate Traversal(snaps: seq<Snap>, moves: seq<Move>) {
    && |snaps| == |moves| + 1 && snaps[0].Ok()
    && forall i :: 0 <= i < |moves| ==> Moved(snaps[i], moves[i], snaps[i + 1])
  }

  /** The positions the steps took, in order. */
  ghost function Yielded(snaps: seq<Snap>, moves: seq<Move>): seq<int>
    requires |snaps| == |moves| + 1
  {
    if moves == [] then []
    else
      var k := |moves| - 1;
      Yielded(snaps[..k + 1], moves[..k]) + if moves[k].Step? then [snaps[k].Head()] else []
  }

  ghost predicate UpTo(s: seq<int>, bound: int) {
    forall i :: 0 <= i < |s| ==> s[i] <= bound
  }

  ghost predicate NonDecreasing(s: seq<int>) {
    forall i, j :: 0 <= i < j < |s| ==> s[i] <= s[j]
  }

  ghost predicate NoTargetAbove(moves: seq<Move>, x: int) {
    forall i :: 0 <= i < |moves| && moves[i].Seek? ==> moves[i].target <= x
  }

  /** Positions come in order; nothing consumed or passed over comes back; and a position that no
      target lies above is never lost: it has been yielded or is still to come, as often as it was
      there. */
  ghost predicate Accounted(start: Bag, moves: seq<Move>, out: seq<int>, end: Bag) {
    && NonDecreasing(out)
    && (forall x :: x in end ==> UpTo(out, x) && NoTargetAbove(moves, x))
    && (forall x :: multiset(out)[x] + end[x] <= start[x])
    && (forall x :: NoTargetAbove(moves, x) ==> multiset(out)[x] + end[x] == start[x])
  }

  lemma {:induction false} TraversalAccounts(snaps: seq<Snap>, moves: seq<Move>)
    requires Traversal(snaps, moves)
    ensures snaps[|moves|].Ok() && Accounted(snaps[0].bag, moves, Yielded(snaps, moves), snaps[|moves|].bag)
  {
    hide Accounted, Snap.Ok;
    if moves == [] {
      NothingMoved(snaps[0].bag, moves, Yielded(snaps, moves));
    } else {
      var k := |moves| - 1;
      var before, most := snaps[..k + 1], moves[..k];
      assert Traversal(before, most) by {
        forall i | 0 <= i < k ensures Moved(before[i], most[i], before[i + 1]) {
          assert Moved(snaps[i], moves[i], snaps[i + 1]);
        }
      }
      TraversalAccounts(before, most);
      assert Moved(snaps[k], moves[k], snaps[k + 1]);
      assert moves == most + [moves[k]];
      var out := Yielded(before, most);
      if moves[k].Step? {
        TakeHead(snaps[0].bag, most, out, snaps[k], snaps[k + 1]);
      } else {
        SkipBelow(snaps[0].bag, most, out, snaps[k], snaps[k + 1], moves[k].target);
        assert out + [] == out;
      }
    }
  }

  lemma NothingMoved(bag: Bag, moves: seq<Move>, out: seq<int>)
    requires moves == [] && out == []
    ensures Accounted(bag, moves, out, bag)
  {
  }

  lemma NoTargetSnoc(moves: seq<Move>, m: Move, x: int)
    ensures NoTargetAbove(moves + [m], x) <==> NoTargetAbove(moves, x) && (m.Seek? ==> m.target <= x)
  {
    var all := moves + [m];
    assert all[|moves|] == m;
    assert forall i :: 0 <= i < |moves| ==> all[i] == moves[i];
  }

  lemma TakeHead(start: Bag, moves: seq<Move>, out: seq<int>, s: Snap, s': Snap)
    requires s.Ok() && Stepped(s, s') && Accounted(start, moves, out, s.bag)
    ensures s'.Ok() && Accounted(start, moves + [Step], out + [s.Head()], s'.bag)
  {
    hide NoTargetAbove, NonDecreasing, UpTo, Snap.Head;
    var x := s.Head();
    AppendTop(out, x);
    forall y ensures NoTargetAbove(moves + [Step], y) <==> NoTargetAbove(moves, y) { NoTargetSnoc(moves, Step, y); }
    assert forall y :: y in s'.bag ==> y in s.bag && x <= y;
  }

  lemma AppendTop(out: seq<int>, x: int)
    requires NonDecreasing(out) && UpTo(out, x)
    ensures NonDecreasing(out + [x]) && multiset(out + [x]) == multiset(out) + multiset{x}
    ensures forall y :: x <= y ==> UpTo(out + [x], y)
  {
  }

  lemma SkipBelow(start: Bag, moves: seq<Move>, out: seq<int>, s: Snap, s': Snap, t: int)
    requires s.Ok() && Sought(s, s', t) && Accounted(start, moves, out, s.bag)
    ensures s'.Ok() && Accounted(start, moves + [Seek(t)], out, s'.bag)
  {
    forall y
      ensures NoTargetAbove(moves + [Seek(t)], y) <==> NoTargetAbove(moves, y) && t <= y
    {
      NoTargetSnoc(moves, Seek(t), y);
    }
    hide NoTargetAbove, NonDecreasing, UpTo;
  }

  /** Stepping a cursor until it is exhausted yields its whole bag in order. */
  lemma SteppingYieldsAll(snaps: seq<Snap>, moves: seq<Move>)
    requires Traversal(snaps, moves) && (forall i :: 0 <= i < |moves| ==> moves[i].Step?)
    requires !snaps[|moves|].live
    ensures NonDecreasing(Yielded(snaps, moves)) && multiset(Yielded(snaps, moves)) == snaps[0].bag
  {
    TraversalAccounts(snaps, moves);
    forall x: int ensures NoTargetAbove(moves, x) {}
    hide Yielded, NoTargetAbove, UpTo, NonDecreasing, Traversal;
    var out, start := Yielded(snaps, moves), snaps[0].bag;
    forall x ensures multiset(out)[x] == start[x] {}
  }

  // ---------- Calls on a cursor ----------

  datatype Call = Next | SeekGE(ts: uint64, id: Bytes)

  function MoveOf(c: Call): Move {
    if c.Next? then Step else Seek(Rank(c.ts, c.id))
  }

  function MovesOf(calls: seq<Call>): seq<Move> {
    seq(|calls|, i requires 0 <= i < |calls| => MoveOf(calls[i]))
  }

  lemma OneMoreMove(snaps: seq<Snap>, calls: seq<Call>, n: nat, s: Snap)
    requires n < |calls| && |snaps| == n + 1 && Traversal(snaps, MovesOf(calls[..n])) && snaps[n].Ok()
    requires Moved(snaps[n], MoveOf(calls[n]), s)
    ensures Traversal(snaps + [s], MovesOf(calls[..n + 1]))
    ensures Yielded(snaps + [s], MovesOf(calls[..n + 1])) ==
            Yielded(snaps, MovesOf(calls[..n])) + if calls[n].Next? then [snaps[n].Head()] else []
  {
    hide Moved, Rank, Snap.Ok, Snap.Head;
    var all, moves := snaps + [s], MovesOf(calls[..n + 1]);
    assert moves[..n] == MovesOf(calls[..n]) && moves[n] == MoveOf(calls[n]) && all[..n + 1] == snaps;
    forall i | 0 <= i < n + 1 ensures Moved(all[i], moves[i], all[i + 1]) {
      assert i < n ==> Moved(snaps[i], moves[..n][i], snaps[i + 1]);
    }
  }

  lemma NoMoves(snaps: seq<Snap>, calls: seq<Call>)
    requires |snaps| == 1 && snaps[0].Ok()
    ensures Traversal(snaps, MovesOf(calls[..0])) && Yielded(snaps, MovesOf(calls[..0])) == []
  {
  }

  lemma MovedOn(s: Snap, c: Call, s': Snap)
    requires if c.Next? then Stepped(s, s') else s.last < Rank(c.ts, c.id) && Sought(s, s', Rank(c.ts, c.id))
    ensures Moved(s, MoveOf(c), s') && s'.Ok()
    ensures s'.last == if c.Next? then s.Head() else Rank(c.ts, c.id) - 1
  {
    hide Rank;
  }

  /** Drive a scan or a union through calls, as far as they are allowed: a step needs an entry, and a
      seek a target above all that was consumed. What comes out, and what is left, is accounted for. */
  method Drive(cursor: Group, calls: seq<Call>) returns (n: nat, out: seq<int>, ghost snaps: seq<Snap>)
    requires cursor.Valid() && cursor.View().last == -1
    requires forall i :: 0 <= i < |calls| && calls[i].SeekGE? ==> |calls[i].id| == 32
    modifies cursor.Objects()
    ensures cursor.Valid() && n <= |calls| && |snaps| == n + 1
    ensures snaps[0] == old(cursor.View()) && snaps[n] == cursor.View()
    ensures Traversal(snaps, MovesOf(calls[..n])) && out == Yielded(snaps, MovesOf(calls[..n]))
    ensures Accounted(old(cursor.View()).bag, MovesOf(calls[..n]), out, cursor.View().bag)
    ensures n < |calls| ==>
              if calls[n].Next? then !cursor.HasCurrent() else Rank(calls[n].ts, calls[n].id) <= cursor.View().last
  {
    hide Group.Valid, Group.View, Snap.Ok, Stepped, Sought, Rank, Yielded, Traversal, Accounted;
    n, out, snaps := 0, [], [cursor.View()];
    var consumed: int := -1;
    NoMoves(snaps, calls);
    while n < |calls|
      invariant cursor.Valid() && n <= |calls| && |snaps| == n + 1 && consumed == cursor.View().last
      invariant snaps[0] == old(cursor.View()) && snaps[n] == cursor.View()
      invariant Traversal(snaps, MovesOf(calls[..n])) && out == Yielded(snaps, MovesOf(calls[..n]))
    {
      ghost var before := cursor.View();
      cursor.Seen();
      if calls[n].Next? {
        if !cursor.HasCurrent() {
          break;
        }
        consumed := Rank(cursor.InvertedTS(), cursor.EventID());
        out := out + [consumed];
        var more := cursor.Next();
      } else {
        var target: int := Rank(calls[n].ts, calls[n].id);
        if target <= consumed {
          break;
        }
        var more := cursor.SeekGE(calls[n].ts, calls[n].id);
        consumed := target - 1;
      }
      MovedOn(before, calls[n], cursor.View());
      OneMoreMove(snaps, calls, n, cursor.View());
      snaps := snaps + [cursor.View()];
      n := n + 1;
    }
    TraversalAccounts(snaps, MovesOf(calls[..n]));
  }

  lemma OneMoreStep(snaps: seq<Snap>, calls: seq<Call>, s: Snap)
    requires |snaps| == |calls| + 1 && Traversal(snaps, MovesOf(calls)) && snaps[|calls|].Ok()
    requires Stepped(snaps[|calls|], s)
    ensures Traversal(snaps + [s], MovesOf(calls + [Next]))
    ensures Yielded(snaps + [s], MovesOf(calls + [Next])) ==
            Yielded(snaps, MovesOf(calls)) + [snaps[|calls|].Head()]
  {
    hide Traversal, Yielded, Stepped, Rank, Snap.Ok, Snap.Head, MovesOf;
    var more, n := calls + [Next], |calls|;
    assert more[..n] == calls && more[..n + 1] == more;
    MovedOn(snaps[n], Next, s);
    OneMoreMove(snaps, more, n, s);
  }

  lemma StepShrinks(s: Snap, s': Snap)
    requires s.Ok() && Stepped(s, s')
    ensures |s'.bag| < |s.bag|
  {
    hide Rank;
    assert s.bag == s'.bag + multiset{s.Head()};
  }

  /** What a cursor over several conditions stands for is in all of them. */
  lemma JoinMembers(cursor: Cursor)
    requires cursor.Valid() && cursor.Join?
    ensures var views := GroupViews(cursor.join.cursors, cursor.join.Repr);
            forall x :: x in cursor.View().bag <==> forall i :: 0 <= i < |views| ==> x in views[i].bag
  {
    hide Group.Valid, Group.View, GroupsValid, GroupViews, Snap.Ok, Common;
    var views := GroupViews(cursor.join.cursors, cursor.join.Repr);
    assert views != [];
    forall x ensures x in Common(BagsOf(views)) <==> forall i :: 0 <= i < |views| ==> x in views[i].bag {
      CommonCount(BagsOf(views), x);
      if forall i :: 0 <= i < |views| ==> x in views[i].bag {
        assert InOthers(BagsOf(views), x) && x in BagsOf(views)[0];
      }
      if x in Common(BagsOf(views)) {
        assert forall i :: 0 <= i < |views| ==> x in BagsOf(views)[i];
      }
    }
  }

  /** Step the cursor of a filter, of whatever shape, until it is exhausted: it yields its whole bag in
      order, and one over several conditions exactly the positions that all of them have. */
  method Drain(cursor: Cursor) returns (out: seq<int>)
    requires cursor.Valid()
    modifies cursor.Objects()
    ensures cursor.Valid() && !cursor.HasCurrent()
    ensures NonDecreasing(out) && multiset(out) == old(cursor.View()).bag
    ensures cursor.Join? ==>
              var views := old(GroupViews(cursor.join.cursors, cursor.join.Repr));
              forall x :: x in out <==> forall i :: 0 <= i < |views| ==> x in views[i].bag
  {
    hide Cursor.Valid, Cursor.View, Cursor.HasCurrent, Snap.Ok, Stepped, Rank, Yielded, Traversal;
    if cursor.Join? {
      JoinMembers(cursor);
    }
    out := [];
    ghost var calls, snaps := [], [cursor.View()];
    NoMoves(snaps, calls);
    while cursor.HasCurrent()
      invariant cursor.Valid() && |snaps| == |calls| + 1
      invariant snaps[0] == old(cursor.View()) && snaps[|calls|] == cursor.View()
      invariant forall i :: 0 <= i < |calls| ==> calls[i] == Next
      invariant Traversal(snaps, MovesOf(calls)) && out == Yielded(snaps, MovesOf(calls))
      decreases |cursor.View().bag|
    {
      out := out + [Rank(cursor.InvertedTS(), cursor.EventID())];
      var more := cursor.Next();
      StepShrinks(snaps[|calls|], cursor.View());
      OneMoreStep(snaps, calls, cursor.View());
      calls, snaps := calls + [Next], snaps + [cursor.View()];
    }
    SteppingYieldsAll(snaps, MovesOf(calls));
    assert forall x :: x in out <==> x in multiset(out);
  }
}
