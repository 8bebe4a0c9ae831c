/** What storing in Pebble means for those who send events: the same laws, said of the events stored. */
module PebbleLaws {
  import opened Bytes
  import opened Events
  import opened Addresses
  import opened Keys
  import opened StoreSpec
  import opened StoreLaws
  import opened PebbleModel
  import opened Simulation
  import opened PebbleState
  import opened PebbleHistory
  import opened Agreement

  predicate IdRecordFor(db: DB, e: Event) {
    var r := GetRecord(db, DeletedIdKey(FromHex(e.id)));
    r.Some? && r.value.pubkey == e.pubkey
  }

  predicate AddrRecordFor(db: DB, e: Event) {
    var r := GetRecord(db, DeletedAddrKey(Address(e)));
    Address(e) != "" && r.Some? && r.value.pubkey == e.pubkey && r.value.createdAt >= e.createdAt
  }

  lemma LiveAreKnown(fnv: Hash, slot: Slot, s: State, db: DB)
    requires Represents(fnv, slot, s, db)
    ensures KnownWell(s) && Invariant(s)
  {
    hide KeyAgrees, Address, TypeOf;
  }

  lemma RecordsHit(fnv: Hash, slot: Slot, s: State, db: DB, e: Event)
    requires Represents(fnv, slot, s, db) && WellFormed(e)
    ensures IdRecordFor(db, e) <==> IdRecordHits(s, e)
    ensures AddrRecordFor(db, e) <==> AddrRecordHits(s, e)
  {
    RecordsAgree(fnv, slot, s, db, e);
    hide Represents, FromHex, Address, WellFormed;
  }

  // ---------- Places ----------

  /** After every history no two stored events are of one place, and nothing ephemeral is stored. */
  lemma OneStoredOfEachPlace(fnv: Hash, history: seq<Event>)
    requires AllWellFormedEvents(history)
    ensures var stored := Stored(RunPebble(fnv, map[], history));
            && (forall x, y :: x in stored && y in stored && SamePlace(x, y) ==> x == y)
            && (forall x :: x in stored ==> !EphemeralKind(x.kind))
  {
    var s, db := RunState(fnv, history), RunPebble(fnv, map[], history);
    HistoryStep(fnv, ANYWHERE, history);
    StoredAreLive(fnv, ANYWHERE, s, db);
    LiveAreKnown(fnv, ANYWHERE, s, db);
    hide RunPebble, RunState, Represents, Address, SamePlace, TypeOf, Stored;
    forall x, y | x in s.live.Values && y in s.live.Values && SamePlace(x, y) ensures x == y {
      SharedAddress(x, y);
    }
    forall x | x in s.live.Values ensures !EphemeralKind(x.kind) {
      KindsAre(x);
    }
  }

  // ---------- One call ----------

  /** When an event that is no request is stored, in terms of what is stored and the records. */
  ghost predicate AcceptedBy(db: DB, e: Event) {
    && (forall x :: x in Stored(db) ==> x.id != e.id) && !EphemeralKind(e.kind)
    && !IdRecordFor(db, e) && !AddrRecordFor(db, e)
    && forall x :: x in Stored(db) && SamePlace(x, e) ==> Wins(e, x)
  }

  /** An event that is no request is stored exactly then, and takes the place of exactly the stored
      events of its place. */
  lemma StoresExactly(fnv: Hash, history: seq<Event>, e: Event)
    requires AllWellFormedEvents(history + [e]) && IdsIdentifyAddresses(history + [e]) && e.kind != 5
    ensures var db := RunPebble(fnv, map[], history);
            var (after, ok) := PebbleModel.Store(fnv, db, e);
            && (ok <==> AcceptedBy(db, e))
            && Stored(after) == if ok then (set x | x in Stored(db) && !SamePlace(x, e)) + {e} else Stored(db)
  {
    hide AllWellFormedEvents, IdsIdentifyAddresses, RunPebble, RunState, Represents, PebbleModel.Store, Stored, Placed;
    var slot := SlotBefore(history, e);
    HistoryStep(fnv, slot, history);
    StepStores(fnv, slot, RunState(fnv, history), RunPebble(fnv, map[], history), e);
  }

  lemma SlotBefore(history: seq<Event>, e: Event) returns (slot: Slot)
    requires AllWellFormedEvents(history + [e]) && IdsIdentifyAddresses(history + [e])
    ensures Precise(slot) && Placed(slot, e) && WellFormed(e) && AllWellFormedEvents(history)
    ensures forall i :: 0 <= i < |history| ==> Placed(slot, history[i])
  {
    var all := history + [e];
    slot := SlotOfHistory(all);
    hide WellFormed, Placed, IdsIdentifyAddresses;
    assert Placed(slot, all[|history|]) && all[|history|] == e && WellFormed(all[|history|]);
    forall i | 0 <= i < |history| ensures Placed(slot, history[i]) && WellFormed(history[i]) {
      assert all[i] == history[i];
    }
  }

  lemma StepStores(fnv: Hash, slot: Slot, s: State, db: DB, e: Event)
    requires Represents(fnv, slot, s, db) && Precise(slot) && Placed(slot, e) && WellFormed(e) && e.kind != 5
    ensures var (after, ok) := PebbleModel.Store(fnv, db, e);
            && (ok <==> AcceptedBy(db, e))
            && Stored(after) == if ok then (set x | x in Stored(db) && !SamePlace(x, e)) + {e} else Stored(db)
  {
    var (after, ok) := PebbleModel.Store(fnv, db, e);
    StoreStep(fnv, slot, s, db, e);
    NextIsStep(fnv, slot, s, db, e);
    LiveAreKnown(fnv, slot, s, db);
    RecordsHit(fnv, slot, s, db, e);
    StoredAreLive(fnv, slot, s, db);
    StoredAreLive(fnv, slot, PebbleNext(s, db, e), after);
    hide Represents, PebbleModel.Store, PebbleNext, Stored, IdRecordFor, AddrRecordFor, IdRecordHits, AddrRecordHits,
         SamePlace, Address, FromHex, TypeOf;
    StepIsStore(s, e);
    StoredExactly(s, e);
    PlacesInValues(s, e);
    hide StoreSpec.Store, PebbleStep;
  }

  lemma StepIsStore(s: State, e: Event)
    requires e.kind != 5
    ensures PebbleStep(s, e) == StoreSpec.Store(s, e)
  {
    AddressEmpty(e);
    hide Address, TypeOf, Rejected, BeatsHolders, Holders;
  }

  /** What is said of ids and live events, said of the events alone. */
  lemma PlacesInValues(s: State, e: Event)
    requires KnownWell(s)
    ensures (exists x :: x in s.live.Values && x.id == e.id) <==> e.id in s.live
    ensures (forall id :: id in s.live && SamePlace(s.live[id], e) ==> Wins(e, s.live[id])) <==>
              forall x :: x in s.live.Values && SamePlace(x, e) ==> Wins(e, x)
    ensures e.id !in s.live ==>
              (map id | id in s.live && !SamePlace(s.live[id], e) :: s.live[id])[e.id := e].Values ==
              (set x | x in s.live.Values && !SamePlace(x, e)) + {e}
  {
    hide SamePlace, Wins;
    if e.id in s.live {
      assert s.live[e.id] in s.live.Values;
    }
    assert forall id :: id in s.live ==> s.live[id] in s.live.Values;
    var kept := map id | id in s.live && !SamePlace(s.live[id], e) :: s.live[id];
    if e.id !in s.live {
      forall x ensures x in kept[e.id := e].Values <==> x == e || (x in s.live.Values && !SamePlace(x, e)) {
        if x in s.live.Values && !SamePlace(x, e) {
          assert s.live[x.id] == x;
          assert kept[e.id := e][x.id] == x;
        }
        if x == e {
          assert kept[e.id := e][e.id] == e;
        }
      }
    }
  }

  // ---------- Deletion requests ----------

  /** A request reaches an event of its author by an `e` value of 64 digits that spells its id, unless it
      is a request too, or by an `a` value that is its address, unless it is newer than the request. */
  ghost predicate ReachesStored(k: Event, x: Event) {
    x.pubkey == k.pubkey &&
    (((exists v :: HasTag(k, "e", v) && |v| == 64 && FromHex(v) == FromHex(x.id)) && x.kind != 5) ||
     (Address(x) != "" && HasTag(k, "a", Address(x)) && x.createdAt <= k.createdAt))
  }

  /** A request is accepted unless its id is stored or hit by a record of its author. Then exactly the
      stored events it reaches go, and it comes, even if it names itself. */
  lemma RequestStores(fnv: Hash, history: seq<Event>, k: Event)
    requires AllWellFormedEvents(history + [k]) && IdsIdentifyAddresses(history + [k]) && k.kind == 5
    ensures var db := RunPebble(fnv, map[], history);
            var (after, ok) := PebbleModel.Store(fnv, db, k);
            && (ok <==> !IdRecordFor(db, k) && forall x :: x in Stored(db) ==> x.id != k.id)
            && Stored(after) == if ok then (set x | x in Stored(db) && !ReachesStored(k, x)) + {k} else Stored(db)
  {
    hide AllWellFormedEvents, IdsIdentifyAddresses, RunPebble, RunState, Represents, PebbleModel.Store, Stored, Placed;
    var slot := SlotBefore(history, k);
    HistoryStep(fnv, slot, history);
    StepRequests(fnv, slot, RunState(fnv, history), RunPebble(fnv, map[], history), k);
  }

  lemma StepRequests(fnv: Hash, slot: Slot, s: State, db: DB, k: Event)
    requires Represents(fnv, slot, s, db) && Precise(slot) && Placed(slot, k) && WellFormed(k) && k.kind == 5
    ensures var (after, ok) := PebbleModel.Store(fnv, db, k);
            && (ok <==> !IdRecordFor(db, k) && forall x :: x in Stored(db) ==> x.id != k.id)
            && Stored(after) == if ok then (set x | x in Stored(db) && !ReachesStored(k, x)) + {k} else Stored(db)
  {
    var (after, ok) := PebbleModel.Store(fnv, db, k);
    StoreStep(fnv, slot, s, db, k);
    NextIsStep(fnv, slot, s, db, k);
    LiveAreKnown(fnv, slot, s, db);
    RecordsHit(fnv, slot, s, db, k);
    StoredAreLive(fnv, slot, s, db);
    StoredAreLive(fnv, slot, PebbleNext(s, db, k), after);
    forall id | id in s.live ensures Reaches(k, s.live[id]) <==> ReachesStored(k, s.live[id]) {
      LiveIsWellFormed(fnv, slot, s, db, id);
      ReachingIsSpelling(k, s.live[id]);
    }
    hide Represents, PebbleModel.Store, PebbleNext, Stored, IdRecordFor, Reaches, ReachesStored;
    RequestsAreRegular(k);
    PlacesInValues(s, k);
    RequestInState(s, k);
    hide PebbleStep;
  }

  lemma ReachingIsSpelling(k: Event, x: Event)
    requires WellFormed(x)
    ensures Reaches(k, x) <==> ReachesStored(k, x)
  {
    SpelledInTags(k, x.id);
    TagsAreTargets(k, "a", Address(x));
    hide FromHex, HasTag, Targets, Address, ReadIds, WellFormed;
  }

  lemma SpelledInTags(k: Event, id: string)
    requires Id64(id)
    ensures id in ReadIds(k) <==> exists v :: HasTag(k, "e", v) && |v| == 64 && FromHex(v) == FromHex(id)
  {
    forall v ensures HasTag(k, "e", v) <==> v in Targets("e", k.tags) { TagsAreTargets(k, "e", v); }
    forall v | |v| == 64 ensures Spelled(v) == id <==> FromHex(v) == FromHex(id) { SpellsIt(v, id); }
    hide FromHex, HasTag, Targets, Spelled;
    if id in ReadIds(k) {
      var v :| v in Targets("e", k.tags) && |v| == 64 && Spelled(v) == id;
      assert HasTag(k, "e", v);
    }
  }

  lemma SpellsIt(v: string, id: string)
    requires |v| == 64 && Id64(id)
    ensures Spelled(v) == id <==> FromHex(v) == FromHex(id)
  {
    HexBack(id);
    FromHexLength(v);
    HexRoundTrip(FromHex(v));
    hide FromHex, ToHex;
  }

  lemma RequestInState(s: State, k: Event)
    requires KnownWell(s) && k.kind == 5
    requires forall id :: id in s.live ==> (Reaches(k, s.live[id]) <==> ReachesStored(k, s.live[id]))
    ensures PebbleStep(s, k).1 <==> k.id !in s.live && !IdRecordHits(s, k)
    ensures PebbleStep(s, k).0.live.Values ==
            if PebbleStep(s, k).1 then (set x | x in s.live.Values && !ReachesStored(k, x)) + {k} else s.live.Values
  {
    RequestsAreRegular(k);
    hide Reaches, ReachesStored, Address, TypeOf, Mark;
    var t := PebbleStep(s, k).0;
    if PebbleStep(s, k).1 {
      forall x ensures x in t.live.Values <==> x == k || (x in s.live.Values && !ReachesStored(k, x)) {
        if x in s.live.Values && !ReachesStored(k, x) {
          assert s.live[x.id] == x && t.live[x.id] == x;
        }
        if x == k {
          assert t.live[k.id] == k;
        }
      }
    }
  }

  /** What a request deleted stays refused: it leaves a record with its author and time for every address
      named and every id spelled; an event of its author that such a record is for is not stored by the
      next call, and is not stored after the request, requests named by id aside. */
  lemma RefusesDeleted(fnv: Hash, history: seq<Event>, k: Event, e: Event)
    requires AllWellFormedEvents(history) && WellFormed(k) && WellFormed(e) && k.kind == 5
    requires PebbleModel.Store(fnv, RunPebble(fnv, map[], history), k).1 && e.pubkey == k.pubkey
    ensures var after := PebbleModel.Store(fnv, RunPebble(fnv, map[], history), k).0;
            && (forall a :: HasTag(k, "a", a) ==>
                  GetRecord(after, DeletedAddrKey(a)) == Some(Record(k.pubkey, k.createdAt)))
            && (forall v :: HasTag(k, "e", v) && |v| == 64 ==>
                  GetRecord(after, DeletedIdKey(FromHex(v))) == Some(Record(k.pubkey, k.createdAt)))
            && (Address(e) != "" && HasTag(k, "a", Address(e)) && e.createdAt <= k.createdAt ==>
                  PebbleModel.Store(fnv, after, e) == (after, false) && e !in Stored(after))
            && (Address(e) != "" && HasTag(k, "a", Address(e)) && e.createdAt > k.createdAt ==>
                  !AddrRecordFor(after, e))
            && ((exists v :: HasTag(k, "e", v) && |v| == 64 && FromHex(v) == FromHex(e.id)) ==>
                  PebbleModel.Store(fnv, after, e) == (after, false) && (e.kind != 5 ==> e !in Stored(after)))
  {
    hide RunPebble, RunState, Represents, PebbleModel.Store, Stored, HasTag, FromHex, Address, WellFormed, GetRecord;
    HistoryStep(fnv, ANYWHERE, history);
    var s, db := RunState(fnv, history), RunPebble(fnv, map[], history);
    RequestRefuses(fnv, s, db, k);
    RecordedIsRefused(fnv, PebbleNext(s, db, k), PebbleModel.Store(fnv, db, k).0, e);
  }

  lemma RequestRefuses(fnv: Hash, s: State, db: DB, k: Event)
    requires Represents(fnv, ANYWHERE, s, db) && WellFormed(k) && k.kind == 5 && PebbleModel.Store(fnv, db, k).1
    ensures var after := PebbleModel.Store(fnv, db, k).0;
            && Represents(fnv, ANYWHERE, PebbleNext(s, db, k), after)
            && (forall a :: HasTag(k, "a", a) ==>
                  GetRecord(after, DeletedAddrKey(a)) == Some(Record(k.pubkey, k.createdAt)))
            && (forall v :: HasTag(k, "e", v) && |v| == 64 ==>
                  GetRecord(after, DeletedIdKey(FromHex(v))) == Some(Record(k.pubkey, k.createdAt)))
  {
    var t, after := PebbleNext(s, db, k), PebbleModel.Store(fnv, db, k).0;
    AcceptedIsNotRefused(fnv, db, k);
    StoreStep(fnv, ANYWHERE, s, db, k);
    forall name, v ensures HasTag(k, name, v) <==> v in Targets(name, k.tags) { TagsAreTargets(k, name, v); }
    assert t.deletedAddrs == Mark(s.deletedAddrs, Targets("a", k.tags), Record(k.pubkey, k.createdAt));
    assert t.deletedIds == Mark(s.deletedIds, ReadIds(k), Record(k.pubkey, k.createdAt));
    hide Represents, PebbleModel.Store, PebbleNext, HasTag, Targets, GetRecord, FromHex, ToHex, Refused;
    forall a | HasTag(k, "a", a) ensures GetRecord(after, DeletedAddrKey(a)) == Some(Record(k.pubkey, k.createdAt)) {
      AddrRecord(fnv, ANYWHERE, t, after, a);
    }
    forall v | HasTag(k, "e", v) && |v| == 64
      ensures GetRecord(after, DeletedIdKey(FromHex(v))) == Some(Record(k.pubkey, k.createdAt))
    {
      SpelledIsId(v);
      FromHexLength(v);
      HexRoundTrip(FromHex(v));
      assert Spelled(v) in ReadIds(k);
      IdRecord(fnv, ANYWHERE, t, after, Spelled(v));
    }
  }

  lemma AcceptedIsNotRefused(fnv: Hash, db: DB, k: Event)
    requires PebbleModel.Store(fnv, db, k).1
    ensures !Refused(db, k)
  {
    hide Refused;
  }

  lemma RecordedIsRefused(fnv: Hash, t: State, after: DB, e: Event)
    requires Represents(fnv, ANYWHERE, t, after) && WellFormed(e)
    ensures IdRecordFor(after, e) || AddrRecordFor(after, e) ==> PebbleModel.Store(fnv, after, e) == (after, false)
    ensures IdRecordFor(after, e) && e.kind != 5 ==> e !in Stored(after)
    ensures AddrRecordFor(after, e) ==> e !in Stored(after)
  {
    RecordsHit(fnv, ANYWHERE, t, after, e);
    LiveAreKnown(fnv, ANYWHERE, t, after);
    RecordsRefuse(t, e);
    StoredIsLive(fnv, ANYWHERE, t, after, e);
    RefuseTheSame(fnv, ANYWHERE, t, after, e);
    hide Represents, IdRecordFor, AddrRecordFor, Stored, Refused, WellFormed, Live, Address, TypeOf;
  }

  /** One more call changes the record of an address only if it is an accepted request naming it. */
  lemma CallKeepsRecord(fnv: Hash, s: State, db: DB, e: Event, a: string)
    requires Represents(fnv, ANYWHERE, s, db) && WellFormed(e) && !(e.kind == 5 && HasTag(e, "a", a))
    ensures GetRecord(PebbleModel.Store(fnv, db, e).0, DeletedAddrKey(a)) == GetRecord(db, DeletedAddrKey(a))
  {
    StoreStep(fnv, ANYWHERE, s, db, e);
    AddrRecord(fnv, ANYWHERE, s, db, a);
    AddrRecord(fnv, ANYWHERE, PebbleNext(s, db, e), PebbleModel.Store(fnv, db, e).0, a);
    TagsAreTargets(e, "a", a);
    hide Represents, PebbleModel.Store, HasTag, Targets, ReadIds, ReachedIds, Refused, AtAddress, Before, Address;
  }

  /** And it stays refused, by address, whatever comes after the request, until another one names the
      address. */
  lemma {:induction false} StaysRefused(fnv: Hash, history: seq<Event>, k: Event, rest: seq<Event>, e: Event)
    requires AllWellFormedEvents(history + [k] + rest) && WellFormed(e)
    requires k.kind == 5 && PebbleModel.Store(fnv, RunPebble(fnv, map[], history), k).1
    requires e.pubkey == k.pubkey && Address(e) != "" && HasTag(k, "a", Address(e)) && e.createdAt <= k.createdAt
    requires forall i :: 0 <= i < |rest| ==> !(rest[i].kind == 5 && HasTag(rest[i], "a", Address(e)))
    ensures var db := RunPebble(fnv, map[], history + [k] + rest);
            && GetRecord(db, DeletedAddrKey(Address(e))) == Some(Record(k.pubkey, k.createdAt))
            && PebbleModel.Store(fnv, db, e) == (db, false) && e !in Stored(db)
  {
    hide RunPebble, RunState, Represents, PebbleModel.Store, Stored, HasTag, FromHex, Address, WellFormed, GetRecord;
    var all := history + [k] + rest;
    var n := |all| - 1;
    assert all[..n + 1] == all;
    PebbleExtends(fnv, all, n);
    HistoryStep(fnv, ANYWHERE, all[..n]);
    if rest == [] {
      assert all[..n] == history && all[n] == k;
      RequestRefuses(fnv, RunState(fnv, history), RunPebble(fnv, map[], history), k);
    } else {
      var most := rest[..|rest| - 1];
      assert all[..n] == history + [k] + most && all[n] == rest[|rest| - 1];
      StaysRefused(fnv, history, k, most, e);
      CallKeepsRecord(fnv, RunState(fnv, all[..n]), RunPebble(fnv, map[], all[..n]), all[n], Address(e));
    }
    HistoryStep(fnv, ANYWHERE, all);
    RecordedIsRefused(fnv, RunState(fnv, all), RunPebble(fnv, map[], all), e);
  }
}
