/** What storing an event means, independently of how events are kept: the live events by id,
    and the deletion records by event id and by address. Both storages are proved against it. */
module StoreSpec {
  import opened Bytes
  import opened Events

  /** Who asked for the deletion, and when. */
  datatype Record = Record(pubkey: string, createdAt: int64)

  datatype State = State(
    live: map<string, Event>, deletedIds: map<string, Record>, deletedAddrs: map<string, Record>)

  const EMPTY := State(map[], map[], map[])

  // ---------- Deletion requests (NIP-09) ----------

  /** The values of the tags with this name. */
  function Targets(name: string, tags: seq<Tag>): set<string> {
    set i | 0 <= i < |tags| && |tags[i]| >= 2 && tags[i][0] == name :: tags[i][1]
  }

  lemma TargetsSnoc(name: string, tags: seq<Tag>, i: nat)
    requires i < |tags|
    ensures Targets(name, tags[..i + 1]) == Targets(name, tags[..i]) + Targets(name, [tags[i]])
    ensures Targets(name, [tags[i]]) == if |tags[i]| >= 2 && tags[i][0] == name then {tags[i][1]} else {}
  {
    var one := [tags[i]];
    assert one[0] == tags[i];
    forall x ensures x in Targets(name, tags[..i + 1]) <==> x in Targets(name, tags[..i]) || x in Targets(name, one) {
      if x in Targets(name, tags[..i + 1]) {
        var j :| 0 <= j < i + 1 && |tags[j]| >= 2 && tags[j][0] == name && tags[j][1] == x;
        assert j < i ==> tags[..i][j] == tags[j];
      }
      if x in Targets(name, tags[..i]) {
        var j :| 0 <= j < i && |tags[..i][j]| >= 2 && tags[..i][j][0] == name && tags[..i][j][1] == x;
        assert tags[..i + 1][j] == tags[j];
      }
      if x in Targets(name, one) {
        assert tags[..i + 1][i] == one[0];
      }
    }
  }

  /** Request `k` removes stored event `e`: by id, unless `e` is itself a request, or by address,
      unless `e` is newer than the request. Only the author can ask. */
  predicate Removes(k: Event, e: Event) {
    e.pubkey == k.pubkey &&
    ((e.id in Targets("e", k.tags) && e.kind != 5) ||
     (Address(e) in Targets("a", k.tags) && e.createdAt <= k.createdAt))
  }

  function RecordOf(k: Event): Record {
    Record(k.pubkey, k.createdAt)
  }

  function Kept(live: map<string, Event>, k: Event): map<string, Event> {
    map id | id in live && !Removes(k, live[id]) :: live[id]
  }

  function Mark(records: map<string, Record>, targets: set<string>, r: Record): map<string, Record> {
    records + map x | x in targets :: r
  }

  function Delete(s: State, k: Event): State {
    State(
      Kept(s.live, k),
      Mark(s.deletedIds, Targets("e", k.tags), RecordOf(k)),
      Mark(s.deletedAddrs, Targets("a", k.tags), RecordOf(k)))
  }

  // ---------- Storing one event ----------

  predicate DeletedById(s: State, e: Event) {
    e.id in s.deletedIds && s.deletedIds[e.id].pubkey == e.pubkey
  }

  predicate DeletedByAddress(s: State, e: Event) {
    var addr := Address(e);
    addr != "" && addr in s.deletedAddrs &&
    s.deletedAddrs[addr].pubkey == e.pubkey && e.createdAt <= s.deletedAddrs[addr].createdAt
  }

  predicate Rejected(s: State, e: Event) {
    DeletedById(s, e) || DeletedByAddress(s, e) || e.id in s.live
  }

  /** The ids of the live events at an address. */
  function Holders(s: State, addr: string): set<string> {
    set id | id in s.live && Address(s.live[id]) == addr
  }

  predicate BeatsHolders(s: State, e: Event) {
    forall id :: id in Holders(s, Address(e)) ==> Before(e, s.live[id])
  }

  /** The new state and whether the event counts as stored. An event with an address replaces the
      live event there if it is newer, or as new with a smaller id. */
  function Store(s: State, e: Event): (State, bool) {
    if Rejected(s, e) then (s, false)
    else if e.kind == 5 then
      var d := Delete(s, e);
      if DeletedById(d, e) then (d, true) else (d.(live := d.live[e.id := e]), true)
    else if Address(e) != "" then
      if BeatsHolders(s, e) then
        (s.(live := (s.live - Holders(s, Address(e)))[e.id := e]), true)
      else (s, false)
    else if TypeOf(e).Ephemeral? then (s, false)
    else (s.(live := s.live[e.id := e]), true)
  }

  function Run(s: State, history: seq<Event>): State {
    if history == [] then s
    else Store(Run(s, history[..|history| - 1]), history[|history| - 1]).0
  }

  // ---------- What every history keeps ----------

  ghost predicate KeyedById(s: State) {
    forall id :: id in s.live ==> s.live[id].id == id
  }

  /** At most one live event at each address. */
  ghost predicate OnePerAddress(s: State) {
    forall id, id' :: id in s.live && id' in s.live && Address(s.live[id]) == Address(s.live[id']) != "" ==> id == id'
  }

  /** The current record for an id by P leaves no live event of P with that id, requests aside. */
  ghost predicate IdTombstones(s: State) {
    forall id :: id in s.live && DeletedById(s, s.live[id]) ==> s.live[id].kind == 5
  }

  /** The current record for an address by P at time T leaves no live event of P there up to T. */
  ghost predicate AddressTombstones(s: State) {
    forall id :: id in s.live ==> !DeletedByAddress(s, s.live[id])
  }

  ghost predicate NoEphemeral(s: State) {
    forall id :: id in s.live ==> !TypeOf(s.live[id]).Ephemeral?
  }

  ghost predicate Invariant(s: State) {
    KeyedById(s) && OnePerAddress(s) && IdTombstones(s) && AddressTombstones(s) && NoEphemeral(s)
  }

  lemma DeleteKeepsInvariant(s: State, k: Event)
    requires Invariant(s)
    ensures Invariant(Delete(s, k))
  {
    hide Address, TypeOf;
    var d := Delete(s, k);
    forall id | id in d.live
      ensures DeletedById(d, d.live[id]) ==> d.live[id].kind == 5
      ensures !DeletedByAddress(d, d.live[id])
    {
      var e := d.live[id];
      assert !Removes(k, e) && id == e.id;
      assert !DeletedByAddress(s, e);
      assert DeletedById(s, e) ==> e.kind == 5;
    }
  }

  /** Adding an event that nothing rejects, in place of any holders of its address. */
  lemma AddKeepsInvariant(s: State, e: Event)
    requires Invariant(s) && !TypeOf(e).Ephemeral?
    requires (DeletedById(s, e) ==> e.kind == 5) && !DeletedByAddress(s, e)
    requires Address(e) != "" ==> Holders(s, Address(e)) == {}
    ensures Invariant(s.(live := s.live[e.id := e]))
  {
    hide Address, TypeOf;
    var t := s.(live := s.live[e.id := e]);
    forall id, id' | id in t.live && id' in t.live && Address(t.live[id]) == Address(t.live[id']) != ""
      ensures id == id'
    {
      assert id != e.id ==> id !in Holders(s, Address(e));
      assert id' != e.id ==> id' !in Holders(s, Address(e));
    }
    forall id | id in t.live
      ensures DeletedById(t, t.live[id]) ==> t.live[id].kind == 5
      ensures !DeletedByAddress(t, t.live[id])
    {
      assert id != e.id ==> (DeletedById(s, s.live[id]) ==> s.live[id].kind == 5);
      assert id != e.id ==> !DeletedByAddress(s, s.live[id]);
    }
  }

  lemma DropKeepsInvariant(s: State, ids: set<string>)
    requires Invariant(s)
    ensures Invariant(s.(live := s.live - ids))
  {
    hide Address, TypeOf;
    var t := s.(live := s.live - ids);
    forall id | id in t.live
      ensures DeletedById(t, t.live[id]) ==> t.live[id].kind == 5
      ensures !DeletedByAddress(t, t.live[id])
    {
      assert DeletedById(s, s.live[id]) ==> s.live[id].kind == 5;
      assert !DeletedByAddress(s, s.live[id]);
    }
  }

  /** One stored event keeps the whole invariant, whatever the event. */
  lemma StoreKeepsInvariant(s: State, e: Event)
    requires Invariant(s)
    ensures Invariant(Store(s, e).0)
  {
    hide Address, TypeOf, Before;
    RequestsAreRegular(e);
    AddressEmpty(e);
    if !Rejected(s, e) {
      if e.kind == 5 {
        DeleteKeepsInvariant(s, e);
        var d := Delete(s, e);
        if !DeletedById(d, e) {
          AddKeepsInvariant(d, e);
        }
      } else if Address(e) != "" {
        DropKeepsInvariant(s, Holders(s, Address(e)));
        var t := s.(live := s.live - Holders(s, Address(e)));
        assert Holders(t, Address(e)) == {};
        AddKeepsInvariant(t, e);
      } else if !TypeOf(e).Ephemeral? {
        AddKeepsInvariant(s, e);
      }
    }
  }

  /** Tombstones and one live event per address hold after every history. */
  lemma {:induction false} RunKeepsInvariant(history: seq<Event>)
    ensures Invariant(Run(EMPTY, history))
  {
    if history != [] {
      RunKeepsInvariant(history[..|history| - 1]);
      StoreKeepsInvariant(Run(EMPTY, history[..|history| - 1]), history[|history| - 1]);
    }
  }

  predicate NoEmptyATag(e: Event) {
    e.kind == 5 ==> "" !in Targets("a", e.tags)
  }

  /** An accepted request with an empty `a` value, by the author of `e` and not older than it. */
  predicate EmptyATagReaches(s: State, k: Event, e: Event) {
    k.kind == 5 && !Rejected(s, k) && "" in Targets("a", k.tags) && k.pubkey == e.pubkey && e.createdAt <= k.createdAt
  }

  /** A deletion request against a deletion request has no effect (NIP-09), with one exception: an
      empty `a` value reaches every regular event of its author up to its time, requests included. */
  lemma RequestGoesExactly(s: State, k: Event, id: string)
    requires Invariant(s) && id in s.live && s.live[id].kind == 5
    ensures id !in Store(s, k).0.live <==> EmptyATagReaches(s, k, s.live[id])
    ensures id in Store(s, k).0.live ==> Store(s, k).0.live[id] == s.live[id]
  {
    hide Address, TypeOf;
    RequestsAreRegular(s.live[id]);
  }

  /** No call of a history carries an empty `a` value that reaches the event. */
  ghost predicate NeverReached(s: State, history: seq<Event>, e: Event) {
    forall i :: 0 <= i < |history| ==> !EmptyATagReaches(Run(s, history[..i]), history[i], e)
  }

  ghost predicate LiveThroughout(s: State, history: seq<Event>, e: Event) {
    forall i :: 0 <= i <= |history| ==> Live(Run(s, history[..i]), e)
  }

  lemma OneMoreCall(s: State, history: seq<Event>, n: nat, e: Event)
    requires |history| == n + 1
    ensures NeverReached(s, history, e) <==>
            NeverReached(s, history[..n], e) && !EmptyATagReaches(Run(s, history[..n]), history[n], e)
    ensures LiveThroughout(s, history, e) <==> LiveThroughout(s, history[..n], e) && Live(Run(s, history), e)
    ensures LiveThroughout(s, history[..n], e) ==> Live(Run(s, history[..n]), e)
  {
    hide Run, Live, EmptyATagReaches;
    var most := history[..n];
    assert history[..n + 1] == history && most[..n] == most;
    assert forall i :: 0 <= i <= n ==> most[..i] == history[..i];
  }

  /** So a live request is live after every call of a history exactly when no call reaches it so. */
  lemma {:induction false} RequestsStay(s: State, history: seq<Event>, id: string)
    requires Invariant(s) && id in s.live && s.live[id].kind == 5
    ensures LiveThroughout(s, history, s.live[id]) <==> NeverReached(s, history, s.live[id])
    ensures Invariant(Run(s, history))
  {
    var e := s.live[id];
    if history == [] {
      assert history[..0] == [];
    } else {
      var n := |history| - 1;
      var most, k := history[..n], history[n];
      RequestsStay(s, most, id);
      StoreKeepsInvariant(Run(s, most), k);
      OneMoreCall(s, history, n, e);
      hide NeverReached, LiveThroughout, EmptyATagReaches;
      if Live(Run(s, most), e) {
        RequestGoesExactly(Run(s, most), k, id);
      }
      hide Store;
    }
  }

  // ---------- Convergence (NIP-01, section "Kinds") ----------

  /** Equal ids are equal events: an id is the hash of the event's content. */
  ghost predicate IdsIdentify(history: seq<Event>) {
    forall i, j :: 0 <= i < |history| && 0 <= j < |history| && history[i].id == history[j].id ==>
      history[i] == history[j]
  }

  /** Regular events survive; of the events at one address the newest does, and of equally new
      ones the one with the smallest id. */
  ghost predicate Survives(history: seq<Event>, e: Event) {
    e in history && !TypeOf(e).Ephemeral? &&
    (Address(e) != "" ==>
      forall e' :: e' in history && Address(e') == Address(e) ==> e' == e || Before(e, e'))
  }

  ghost predicate Live(s: State, e: Event) {
    e.id in s.live && s.live[e.id] == e
  }

  ghost predicate Converged(s: State, history: seq<Event>) {
    && Invariant(s)
    && s.deletedIds == map[] && s.deletedAddrs == map[]
    && forall e :: Live(s, e) <==> Survives(history, e)
  }

  /** The newest event of a history at an address some event of it lives at. */
  lemma Newest(history: seq<Event>, x: Event) returns (best: Event)
    requires IdsIdentify(history) && x in history && Address(x) != ""
    ensures Survives(history, best) && Address(best) == Address(x) && (best == x || Before(best, x))
  {
    hide Address, TypeOf, Before;
    best := x;
    var i := 0;
    while i < |history|
      invariant 0 <= i <= |history|
      invariant best in history && Address(best) == Address(x) && (best == x || Before(best, x))
      invariant forall j :: 0 <= j < i && Address(history[j]) == Address(x) ==>
                  history[j] == best || Before(best, history[j])
    {
      var e := history[i];
      if Address(e) == Address(x) && e != best && !Before(best, e) {
        BeforeOrder(best, e, x);
        assert Before(e, best);
        BeforeOrder(e, best, x);
        forall j | 0 <= j < i && Address(history[j]) == Address(x) ensures history[j] == e || Before(e, history[j]) {
          BeforeOrder(e, best, history[j]);
        }
        best := e;
      }
      i := i + 1;
    }
    AddressEmpty(best);
  }

  lemma SurvivesSnoc(h: seq<Event>, x: Event, e: Event)
    ensures Survives(h + [x], e) <==>
            !TypeOf(e).Ephemeral? && (e in h || e == x) &&
            (Address(e) != "" ==>
              && (forall e' :: e' in h && Address(e') == Address(e) ==> e' == e || Before(e, e'))
              && (Address(x) == Address(e) ==> x == e || Before(e, x)))
  {
    hide Address, TypeOf, Before;
    forall e' ensures e' in h + [x] <==> e' in h || e' == x {}
  }

  lemma LiveIsKnown(s: State, h: seq<Event>, x: Event)
    requires Converged(s, h) && IdsIdentify(h + [x]) && x.id in s.live
    ensures s.live[x.id] == x && x in h
  {
    hide Address, TypeOf, Before;
    var y := s.live[x.id];
    assert Live(s, y);
    assert y in h;
    var i :| 0 <= i < |h| && h[i] == y;
    assert (h + [x])[i] == y && (h + [x])[|h|] == x;
  }

  /** A new event at an address: the newest of the old ones is the one holder, and decides. */
  lemma AddressStep(s: State, h: seq<Event>, x: Event, e: Event)
    requires Converged(s, h) && IdsIdentify(h + [x]) && IdsIdentify(h)
    requires x.id !in s.live && Address(x) != "" && x.kind != 5
    ensures Live(Store(s, x).0, e) <==> Survives(h + [x], e)
  {
    hide Address, TypeOf, Before;
    AddressEmpty(x);
    SurvivesSnoc(h, x, e);
    assert Live(s, e) <==> Survives(h, e);
    if BeatsHolders(s, x) {
      BeforeOrder(x, e, e);
      if e == x {
        forall e' | e' in h && Address(e') == Address(x) ensures e' == x || Before(x, e') {
          var best := Newest(h, e');
          assert Live(s, best);
          assert best.id in Holders(s, Address(x));
          BeforeOrder(x, best, e');
        }
      } else if Address(e) == Address(x) && Survives(h, e) {
        assert e.id in Holders(s, Address(x));
      }
    } else {
      var id :| id in Holders(s, Address(x)) && !Before(x, s.live[id]);
      var y := s.live[id];
      BeforeOrder(x, y, y);
      assert Before(y, x);
      if Survives(h, e) && Address(e) == Address(x) {
        assert e.id == id;
      }
      assert Live(s, y) && y in h;
      BeforeOrder(y, x, y);
    }
  }

  lemma ConvergeStep(s: State, h: seq<Event>, x: Event)
    requires Converged(s, h) && IdsIdentify(h + [x]) && x.kind != 5
    ensures Converged(Store(s, x).0, h + [x])
  {
    hide Address, TypeOf, Before, Holders, BeatsHolders;
    StoreKeepsInvariant(s, x);
    AddressEmpty(x);
    assert IdsIdentify(h) by {
      forall i, j | 0 <= i < |h| && 0 <= j < |h| && h[i].id == h[j].id ensures h[i] == h[j] {
        assert (h + [x])[i] == h[i] && (h + [x])[j] == h[j];
      }
    }
    forall e ensures Live(Store(s, x).0, e) <==> Survives(h + [x], e) {
      assert Live(s, e) <==> Survives(h, e);
      if x.id in s.live {
        LiveIsKnown(s, h, x);
        forall e' ensures e' in h + [x] <==> e' in h {}
      } else if Address(x) != "" {
        AddressStep(s, h, x, e);
      } else {
        assert Live(s, x) <==> Survives(h, x);
        SurvivesSnoc(h, x, e);
        assert e.id == x.id && e in h ==> e == x by {
          if e.id == x.id && e in h {
            var i :| 0 <= i < |h| && h[i] == e;
            assert (h + [x])[i] == e && (h + [x])[|h|] == x;
          }
        }
      }
    }
  }

  /** A history without deletion requests leaves exactly its survivors live. */
  lemma {:induction false} Convergence(history: seq<Event>)
    requires IdsIdentify(history) && forall i :: 0 <= i < |history| ==> history[i].kind != 5
    ensures Converged(Run(EMPTY, history), history)
  {
    if history == [] {
      assert forall e :: !Live(EMPTY, e);
    } else {
      var h, x := history[..|history| - 1], history[|history| - 1];
      assert history == h + [x];
      Convergence(h);
      ConvergeStep(Run(EMPTY, h), h, x);
    }
  }

  /** Order and repetition do not matter: histories of the same events end in the same state. */
  lemma SameEventsSameState(h1: seq<Event>, h2: seq<Event>)
    requires IdsIdentify(h1) && IdsIdentify(h2)
    requires forall i :: 0 <= i < |h1| ==> h1[i].kind != 5
    requires forall i :: 0 <= i < |h2| ==> h2[i].kind != 5
    requires forall e :: e in h1 <==> e in h2
    ensures Run(EMPTY, h1) == Run(EMPTY, h2)
  {
    hide Address, TypeOf, Before, Run;
    Convergence(h1);
    Convergence(h2);
    var s1, s2 := Run(EMPTY, h1), Run(EMPTY, h2);
    forall e ensures Live(s1, e) <==> Live(s2, e) {
      assert Survives(h1, e) <==> Survives(h2, e);
    }
    forall id ensures id in s1.live <==> id in s2.live {
      if id in s1.live { assert Live(s1, s1.live[id]); assert Live(s2, s1.live[id]); }
      if id in s2.live { assert Live(s2, s2.live[id]); assert Live(s1, s2.live[id]); }
    }
    forall id | id in s1.live ensures s1.live[id] == s2.live[id] {
      assert Live(s1, s1.live[id]);
      assert Live(s2, s1.live[id]);
    }
    assert s1.live == s2.live;
  }
}
