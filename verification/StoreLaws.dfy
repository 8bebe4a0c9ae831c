/** What storing means for those who send events, in terms of kinds, authors, times and tags alone. */
module StoreLaws {
  import opened Bytes
  import opened Events
  import opened Addresses
  import opened StoreSpec

  ghost predicate HasTag(k: Event, name: string, x: string) {
    exists i :: 0 <= i < |k.tags| && |k.tags[i]| >= 2 && k.tags[i][0] == name && k.tags[i][1] == x
  }

  /** The newer event wins, of equally new ones that with the smaller id. */
  predicate Wins(e: Event, x: Event) {
    e.createdAt > x.createdAt || (e.createdAt == x.createdAt && StringLess(e.id, x.id))
  }

  predicate IdRecordHits(s: State, e: Event) {
    e.id in s.deletedIds && s.deletedIds[e.id].pubkey == e.pubkey
  }

  predicate AddrRecordHits(s: State, e: Event) {
    Address(e) != "" && Address(e) in s.deletedAddrs &&
    s.deletedAddrs[Address(e)].pubkey == e.pubkey && s.deletedAddrs[Address(e)].createdAt >= e.createdAt
  }

  lemma TagsAreTargets(k: Event, name: string, x: string)
    ensures HasTag(k, name, x) <==> x in Targets(name, k.tags)
  {
  }

  ghost predicate KnownWell(s: State) {
    KeyedById(s) && forall id :: id in s.live ==> |s.live[id].pubkey| == 64
  }

  // ---------- Events that are no requests ----------

  /** When an event that is no request is stored: its id is not live, its kind is not ephemeral, no
      current record by its author hits it, and it wins against all live events of its place. */
  ghost predicate Accepted(s: State, e: Event) {
    && e.id !in s.live && !EphemeralKind(e.kind)
    && !IdRecordHits(s, e) && !AddrRecordHits(s, e)
    && forall id :: id in s.live && SamePlace(s.live[id], e) ==> Wins(e, s.live[id])
  }

  /** And then it takes the place of exactly those. */
  lemma StoredExactly(s: State, e: Event)
    requires KnownWell(s) && |e.pubkey| == 64 && e.kind != 5
    ensures Store(s, e).1 <==> Accepted(s, e)
    ensures Store(s, e).0 ==
            if !Store(s, e).1 then s
            else s.(live := (map id | id in s.live && !SamePlace(s.live[id], e) :: s.live[id])[e.id := e])
  {
    HoldersArePlaced(s, e);
    KindsAre(e);
    AddressEmpty(e);
    hide Address, TypeOf, SamePlace, StringLess, Holders, KnownWell;
    if Store(s, e).1 {
      hide BeatsHolders, Rejected, Accepted, EphemeralKind;
      assert Store(s, e).0.live == (s.live - Holders(s, Address(e)))[e.id := e] || Address(e) == "";
      assert (map id | id in s.live && !SamePlace(s.live[id], e) :: s.live[id]) ==
             if Address(e) == "" then s.live else s.live - Holders(s, Address(e));
    }
  }

  lemma HoldersArePlaced(s: State, e: Event)
    requires KnownWell(s) && |e.pubkey| == 64
    ensures forall id :: id in s.live ==>
              (SamePlace(s.live[id], e) <==> Address(e) != "" && id in Holders(s, Address(e)))
    ensures forall id :: id in Holders(s, Address(e)) ==> id in s.live
  {
    forall id | id in s.live ensures Address(s.live[id]) == Address(e) != "" <==> SamePlace(s.live[id], e) {
      SharedAddress(s.live[id], e);
    }
    hide Address, SamePlace;
  }

  // ---------- Deletion requests ----------

  /** A request asks for an event of its author, by an `e` value that is its id, unless it is a request
      too, or by an `a` value that is its address, unless it is newer than the request. */
  ghost predicate AsksFor(k: Event, x: Event) {
    x.pubkey == k.pubkey &&
    ((HasTag(k, "e", x.id) && x.kind != 5) || (HasTag(k, "a", Address(x)) && x.createdAt <= k.createdAt))
  }

  /** A request is accepted unless its id is live or hit by a record of its author. Then exactly the live
      events it asks for go, it comes unless it names itself, and every `e` and `a` value has a record
      with its author and time. */
  lemma RequestDoes(s: State, k: Event)
    requires KeyedById(s) && k.kind == 5
    ensures Store(s, k).1 <==> k.id !in s.live && !IdRecordHits(s, k)
    ensures !Store(s, k).1 ==> Store(s, k).0 == s
    ensures Store(s, k).1 ==>
              var t := Store(s, k).0;
              && (forall id :: id in s.live ==> (id !in t.live <==> AsksFor(k, s.live[id])))
              && (forall id :: id in t.live ==>
                    (id == k.id && t.live[id] == k) || (id in s.live && t.live[id] == s.live[id]))
              && (k.id in t.live <==> !HasTag(k, "e", k.id))
              && RecordsLeft(s.deletedIds, t.deletedIds, k, "e") && RecordsLeft(s.deletedAddrs, t.deletedAddrs, k, "a")
  {
    RequestsAreRegular(k);
    TagsAreTargets(k, "e", k.id);
    RequestKeeps(s, k);
    MarkLeaves(s.deletedIds, k, "e");
    MarkLeaves(s.deletedAddrs, k, "a");
    hide Address, TypeOf, HasTag, Targets, AsksFor, RecordsLeft, Kept, Mark, BeatsHolders;
  }

  lemma RequestKeeps(s: State, k: Event)
    ensures forall id :: id in s.live ==> (id in Kept(s.live, k) <==> !AsksFor(k, s.live[id]))
    ensures forall id :: id in Kept(s.live, k) ==> id in s.live && Kept(s.live, k)[id] == s.live[id]
  {
    forall name, x ensures HasTag(k, name, x) <==> x in Targets(name, k.tags) { TagsAreTargets(k, name, x); }
    hide Address, HasTag, Targets;
  }

  lemma MarkLeaves(records: map<string, Record>, k: Event, name: string)
    ensures RecordsLeft(records, Mark(records, Targets(name, k.tags), RecordOf(k)), k, name)
    ensures forall x :: HasTag(k, name, x) ==>
              var after := Mark(records, Targets(name, k.tags), RecordOf(k));
              x in after && after[x].pubkey == k.pubkey
    ensures forall x :: !HasTag(k, name, x) ==>
              var after := Mark(records, Targets(name, k.tags), RecordOf(k));
              (x in after <==> x in records) && (x in after ==> after[x] == records[x])
  {
    forall x ensures HasTag(k, name, x) <==> x in Targets(name, k.tags) { TagsAreTargets(k, name, x); }
    hide HasTag, Targets;
  }

  ghost predicate RecordsLeft(before: map<string, Record>, after: map<string, Record>, k: Event, name: string) {
    && (forall x :: HasTag(k, name, x) ==> x in after && after[x] == Record(k.pubkey, k.createdAt))
    && (forall x :: !HasTag(k, name, x) ==>
          (x in after <==> x in before) && (x in before ==> after[x] == before[x]))
  }

  /** What a request deleted stays refused: by address up to the time of the request, by id at any time.
      A newer event at the address is not refused for the request's sake. */
  lemma DeletedIsRefused(s: State, k: Event, e: Event)
    requires KnownWell(s) && Invariant(s) && k.kind == 5 && Store(s, k).1 && e.pubkey == k.pubkey
    ensures var t := Store(s, k).0;
            && (Address(e) != "" && HasTag(k, "a", Address(e)) && e.createdAt <= k.createdAt ==>
                  !Store(t, e).1 && !Live(t, e))
            && (Address(e) != "" && HasTag(k, "a", Address(e)) && e.createdAt > k.createdAt ==> !AddrRecordHits(t, e))
            && (HasTag(k, "e", e.id) ==> !Store(t, e).1 && (e.kind != 5 ==> !Live(t, e)))
  {
    RequestDoes(s, k);
    StoreKeepsInvariant(s, k);
    var t := Store(s, k).0;
    RecordsRefuse(t, e);
    hide Address, TypeOf, HasTag, Store;
  }

  /** A record that hits refuses, and what it hits is not live, requests under an id record aside. */
  lemma RecordsRefuse(t: State, e: Event)
    requires Invariant(t)
    ensures IdRecordHits(t, e) || AddrRecordHits(t, e) ==> Store(t, e) == (t, false)
    ensures IdRecordHits(t, e) && e.kind != 5 ==> !Live(t, e)
    ensures AddrRecordHits(t, e) ==> !Live(t, e)
  {
    hide Address, TypeOf;
    assert Live(t, e) ==> !DeletedByAddress(t, e) && (DeletedById(t, e) ==> e.kind == 5);
  }

  // ---------- Flags ----------

  /** A call that reports nothing stored changes nothing. One that does had a new id, and the event is
      live after it unless it is a request that names itself. */
  lemma FlagTells(s: State, e: Event)
    requires KnownWell(s) && |e.pubkey| == 64
    ensures !Store(s, e).1 ==> Store(s, e).0 == s
    ensures Store(s, e).1 ==> e.id !in s.live && (Live(Store(s, e).0, e) <==> !(e.kind == 5 && HasTag(e, "e", e.id)))
  {
    if e.kind == 5 {
      RequestDoes(s, e);
    } else {
      StoredExactly(s, e);
    }
    hide Store, HasTag, SamePlace;
  }

  // ---------- Histories ----------

  /** Call `i` of a history is an accepted request with this tag. */
  ghost predicate Names(history: seq<Event>, i: int, name: string, x: string) {
    0 <= i < |history| && history[i].kind == 5 && HasTag(history[i], name, x) &&
    Store(Run(EMPTY, history[..i]), history[i]).1
  }

  ghost predicate NamesLast(history: seq<Event>, i: int, name: string, x: string) {
    Names(history, i, name, x) && forall j :: i < j < |history| ==> !Names(history, j, name, x)
  }

  lemma NamesSnoc(history: seq<Event>, i: int, name: string, x: string)
    requires history != []
    ensures var n := |history| - 1;
            && (i < n ==> (Names(history, i, name, x) <==> Names(history[..n], i, name, x)))
            && (i >= n ==> !Names(history[..n], i, name, x))
  {
    hide HasTag, Store, Run;
    var n := |history| - 1;
    assert 0 <= i < n ==> history[..n][..i] == history[..i];
  }

  lemma NamesLastSnoc(history: seq<Event>, i: int, name: string, x: string)
    requires history != []
    ensures var n := |history| - 1;
            NamesLast(history, i, name, x) <==>
              if Names(history, n, name, x) then i == n else NamesLast(history[..n], i, name, x)
  {
    hide Names, NamesLast;
    if Names(history, |history| - 1, name, x) {
      NamedAtEnd(history, i, name, x);
    } else {
      NamedBefore(history, i, name, x);
    }
  }

  lemma NamedAtEnd(history: seq<Event>, i: int, name: string, x: string)
    requires history != [] && Names(history, |history| - 1, name, x)
    ensures NamesLast(history, i, name, x) <==> i == |history| - 1
  {
    NamesSnoc(history, i, name, x);
    hide HasTag, Store, Run;
  }

  lemma NamedBefore(history: seq<Event>, i: int, name: string, x: string)
    requires history != [] && !Names(history, |history| - 1, name, x)
    ensures NamesLast(history, i, name, x) <==> NamesLast(history[..|history| - 1], i, name, x)
  {
    var n := |history| - 1;
    forall j ensures Names(history, j, name, x) <==> Names(history[..n], j, name, x) {
      NamesSnoc(history, j, name, x);
      NamesInside(history, j, name, x);
    }
    hide Names;
  }

  lemma NamesInside(history: seq<Event>, i: int, name: string, x: string)
    ensures Names(history, i, name, x) ==> 0 <= i < |history|
  {
    hide HasTag, Store, Run;
  }

  /** The records at the end are those of the last accepted requests with the respective tags. */
  lemma {:induction false} LastRequestDecides(history: seq<Event>, x: string, i: int)
    requires forall j :: 0 <= j < |history| ==> |history[j].pubkey| == 64
    ensures KnownWell(Run(EMPTY, history))
    ensures NamesLast(history, i, "e", x) ==>
              var t := Run(EMPTY, history);
              x in t.deletedIds && t.deletedIds[x] == Record(history[i].pubkey, history[i].createdAt)
    ensures NamesLast(history, i, "a", x) ==>
              var t := Run(EMPTY, history);
              x in t.deletedAddrs && t.deletedAddrs[x] == Record(history[i].pubkey, history[i].createdAt)
  {
    hide Store, HasTag, Names, NamesLast;
    if history == [] {
      NothingNamed(i, x);
    } else {
      var n := |history| - 1;
      var s, k := Run(EMPTY, history[..n]), history[n];
      LastRequestDecides(history[..n], x, i);
      assert 0 <= i < n ==> history[..n][i] == history[i];
      LastIsInside(history[..n], i, "e", x);
      LastIsInside(history[..n], i, "a", x);
      NamesLastSnoc(history, i, "e", x);
      NamesLastSnoc(history, i, "a", x);
      CallDoes(s, k);
      LastNames(history, x);
    }
  }

  /** And there is no record for what no accepted request names. */
  lemma {:induction false} NeverNamed(history: seq<Event>, x: string)
    requires forall j :: 0 <= j < |history| ==> |history[j].pubkey| == 64
    ensures (forall i :: !Names(history, i, "e", x)) ==> x !in Run(EMPTY, history).deletedIds
    ensures (forall i :: !Names(history, i, "a", x)) ==> x !in Run(EMPTY, history).deletedAddrs
  {
    hide Store, HasTag, Names;
    if history != [] {
      var n := |history| - 1;
      NeverNamed(history[..n], x);
      LastRequestDecides(history[..n], x, 0);
      forall i, name ensures Names(history[..n], i, name, x) ==> Names(history, i, name, x) {
        NamesSnoc(history, i, name, x);
      }
      CallDoes(Run(EMPTY, history[..n]), history[n]);
      LastNames(history, x);
    }
  }

  lemma LastIsInside(history: seq<Event>, i: int, name: string, x: string)
    ensures NamesLast(history, i, name, x) ==> 0 <= i < |history|
  {
    hide HasTag, Store, Run;
  }

  lemma NothingNamed(i: int, x: string)
    ensures !NamesLast([], i, "e", x) && !NamesLast([], i, "a", x)
  {
  }

  lemma LastNames(history: seq<Event>, x: string)
    requires history != []
    ensures var n := |history| - 1;
            forall name :: Names(history, n, name, x) <==>
              history[n].kind == 5 && HasTag(history[n], name, x) && Store(Run(EMPTY, history[..n]), history[n]).1
  {
    hide HasTag, Store, Run;
  }

  lemma CallDoes(s: State, e: Event)
    requires KnownWell(s) && |e.pubkey| == 64
    ensures var (t, ok) := Store(s, e);
            && KnownWell(t)
            && (e.kind == 5 && ok ==>
                  && RecordsLeft(s.deletedIds, t.deletedIds, e, "e")
                  && RecordsLeft(s.deletedAddrs, t.deletedAddrs, e, "a"))
            && (e.kind != 5 || !ok ==> t.deletedIds == s.deletedIds && t.deletedAddrs == s.deletedAddrs)
  {
    LiveStayKnown(s, e);
    if e.kind == 5 {
      RequestDoes(s, e);
    } else {
      StoredExactly(s, e);
    }
    hide Store, HasTag, RecordsLeft, AsksFor, SamePlace, Accepted, KnownWell;
  }

  lemma LiveStayKnown(s: State, e: Event)
    requires KnownWell(s) && |e.pubkey| == 64
    ensures KnownWell(Store(s, e).0)
  {
    if e.kind == 5 {
      RequestDoes(s, e);
      hide Store, HasTag, RecordsLeft, AsksFor;
    } else {
      StoredExactly(s, e);
      hide Store, SamePlace, Accepted;
    }
  }

  /** After every history: an event by the author of the last accepted request that names its address,
      and not newer, is refused and not live; one whose id the last accepted request naming it is by its
      author is refused, and not live unless it is a request. */
  lemma DeletedStaysRefused(history: seq<Event>, i: int, e: Event)
    requires forall j :: 0 <= j < |history| ==> |history[j].pubkey| == 64
    ensures var t := Run(EMPTY, history);
            && (Address(e) != "" && NamesLast(history, i, "a", Address(e)) ==>
                  history[i].pubkey == e.pubkey && e.createdAt <= history[i].createdAt ==>
                    !Store(t, e).1 && !Live(t, e))
            && (NamesLast(history, i, "e", e.id) && history[i].pubkey == e.pubkey ==>
                  !Store(t, e).1 && (e.kind != 5 ==> !Live(t, e)))
  {
    LastRequestDecides(history, e.id, i);
    LastRequestDecides(history, Address(e), i);
    RunKeepsInvariant(history);
    RecordsRefuse(Run(EMPTY, history), e);
    hide Address, Run, Store, Live, Names, Invariant, KnownWell;
  }

  /** After every history no two live events are of one place, and nothing ephemeral is live. */
  lemma OneOfEachPlace(history: seq<Event>)
    requires forall j :: 0 <= j < |history| ==> |history[j].pubkey| == 64
    ensures var live := Run(EMPTY, history).live.Values;
            && (forall x, y :: x in live && y in live && SamePlace(x, y) ==> x == y)
            && (forall x :: x in live ==> !EphemeralKind(x.kind))
  {
    RunKeepsInvariant(history);
    LastRequestDecides(history, "", 0);
    var s := Run(EMPTY, history);
    hide Run, Address, SamePlace, TypeOf;
    forall x, y | x in s.live.Values && y in s.live.Values && SamePlace(x, y) ensures x == y {
      SharedAddress(x, y);
    }
    forall x | x in s.live.Values ensures !EphemeralKind(x.kind) {
      KindsAre(x);
    }
  }
}
