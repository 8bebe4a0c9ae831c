/** The state Pebble keeps, when ids identify addresses, and when memory keeps the same. */
module PebbleState {
  import opened Bytes
  import opened Events
  import opened Keys
  import opened StoreSpec
  import opened PebbleModel
  import opened Simulation

  /** Request `k` reaches stored event `e` in Pebble: by an id read in an `e` value, unless `e` is itself
      a request, or by an address that is not empty, unless `e` is newer than the request. */
  predicate Reaches(k: Event, e: Event) {
    e.pubkey == k.pubkey &&
    ((e.id in ReadIds(k) && e.kind != 5) ||
     (Address(e) != "" && Address(e) in Targets("a", k.tags) && e.createdAt <= k.createdAt))
  }

  function Reached(s: State, k: Event): set<string> {
    set id | id in s.live && Reaches(k, s.live[id])
  }

  /** One call on Pebble, in terms of the state alone. */
  function PebbleStep(s: State, e: Event): (State, bool) {
    if Rejected(s, e) || TypeOf(e).Ephemeral? then (s, false)
    else if e.kind == 5 then
      var d := PebbleDelete(s, e, Reached(s, e));
      (d.(live := d.live[e.id := e]), true)
    else StoreSpec.Store(s, e)
  }

  lemma ReachedAreReached(fnv: Hash, slot: Slot, s: State, db: DB, k: Event)
    requires Represents(fnv, slot, s, db) && Precise(slot)
    ensures ReachedIds(db, k) == Reached(s, k)
  {
    hide Address, Represents, Victim, ReadIds, Targets, FromHex, ToHex;
    forall id | id in ReachedIds(db, k) ensures id in Reached(s, k) {
      var i :| 0 <= i < |k.tags| && Victim(db, k, k.tags[i]).Some? && Victim(db, k, k.tags[i]).value.id == id;
      VictimIsRemoved(fnv, slot, s, db, k, i);
    }
    forall id | id in Reached(s, k) ensures id in ReachedIds(db, k) {
      var x := s.live[id];
      LiveIsWellFormed(fnv, slot, s, db, id);
      if x.id in ReadIds(k) && x.kind != 5 {
        ReadIsReached(fnv, slot, s, db, k, x);
      } else {
        NamedIsReached(fnv, slot, s, db, k, x);
      }
    }
  }

  lemma LiveIsWellFormed(fnv: Hash, slot: Slot, s: State, db: DB, id: string)
    requires Represents(fnv, slot, s, db) && id in s.live
    ensures Live(s, s.live[id]) && s.live[id].id == id && WellFormed(s.live[id]) && Id64(id)
  {
  }

  /** When ids identify addresses the state says what Pebble does. */
  lemma NextIsStep(fnv: Hash, slot: Slot, s: State, db: DB, e: Event)
    requires Represents(fnv, slot, s, db) && Precise(slot) && Placed(slot, e)
    ensures (PebbleNext(s, db, e), PebbleModel.Store(fnv, db, e).1) == PebbleStep(s, e)
  {
    RefuseTheSame(fnv, slot, s, db, e);
    RequestsAreRegular(e);
    AddressEmpty(e);
    ReachedAreReached(fnv, slot, s, db, e);
    var a := Address(e);
    if a != "" {
      EntryLeadsHome(fnv, slot, s, db, a);
    }
    hide Refused, TypeOf, Address, Represents, FromHex, ToHex, Before, WriteOps, RequestOps, DeleteOps, Apply, Reached,
         ReachedIds, Rejected;
    if !Refused(db, e) && e.kind != 5 && a != "" {
      if AtAddress(db, a).Some? {
        assert BeatsHolders(s, e) <==> Before(e, AtAddress(db, a).value);
      } else {
        assert s.live - {} == s.live;
      }
    }
  }

  /** Where the id of a stored request can only be that of an event without address, no call removes it. */
  lemma RequestIsKept(fnv: Hash, slot: Slot, s: State, db: DB, e: Event, id: string)
    requires Represents(fnv, slot, s, db) && Placed(slot, e)
    requires id in s.live && s.live[id].kind == 5 && slot(id).Some?
    ensures id in PebbleNext(s, db, e).live && PebbleNext(s, db, e).live[id] == s.live[id]
  {
    LiveIsWellFormed(fnv, slot, s, db, id);
    RefuseTheSame(fnv, slot, s, db, e);
    RequestsAreRegular(s.live[id]);
    AddressEmpty(s.live[id]);
    if Address(e) != "" {
      EntryLeadsHome(fnv, slot, s, db, Address(e));
    }
    if id in ReachedIds(db, e) {
      var i :| 0 <= i < |e.tags| && Victim(db, e, e.tags[i]).Some? && Victim(db, e, e.tags[i]).value.id == id;
      VictimIsRemoved(fnv, slot, s, db, e, i);
      assert false;
    }
    hide Refused, TypeOf, Address, Represents, FromHex, ToHex, Before, ReachedIds, ReadIds, Targets, Victim;
  }

  // ---------- States that Pebble cannot tell apart ----------

  /** The same live events, and the same records as far as Pebble can hold them: an `e` value that is
      not an id leaves a record in memory only. */
  ghost predicate Alike(s: State, t: State) {
    && s.live == t.live && s.deletedAddrs == t.deletedAddrs
    && forall id :: Id64(id) ==>
         (id in s.deletedIds <==> id in t.deletedIds) && (id in s.deletedIds ==> s.deletedIds[id] == t.deletedIds[id])
  }

  lemma AlikeRepresents(fnv: Hash, slot: Slot, s: State, t: State, db: DB)
    requires Represents(fnv, slot, s, db) && GoodState(slot, t) && Alike(s, t)
    ensures Represents(fnv, slot, t, db)
  {
    hide FromHex, ToHex, Address, IndexKeys, RecordBytes, GoodState;
    forall k ensures KeyAgrees(fnv, slot, t, db, k) {
      assert KeyAgrees(fnv, slot, s, db, k);
      if k.DeletedIdKey? && |k.id| == 32 {
        HexRoundTrip(k.id);
      }
    }
  }

  /** One database represents one state, up to what Pebble cannot hold. */
  lemma RepresentedAreAlike(fnv: Hash, slot: Slot, s: State, t: State, db: DB)
    requires Represents(fnv, slot, s, db) && Represents(fnv, slot, t, db)
    ensures Alike(s, t)
  {
    hide FromHex, ToHex, Address, IndexKeys, KeyAgrees;
    forall id ensures id in s.live <==> id in t.live {
      if Id64(id) { LiveAt(fnv, slot, s, db, id); LiveAt(fnv, slot, t, db, id); }
      if id in s.live { LiveIsWellFormed(fnv, slot, s, db, id); }
      if id in t.live { LiveIsWellFormed(fnv, slot, t, db, id); }
    }
    forall id | id in s.live ensures s.live[id] == t.live[id] {
      LiveIsWellFormed(fnv, slot, s, db, id);
      LiveAt(fnv, slot, s, db, id);
      LiveAt(fnv, slot, t, db, id);
    }
    forall a
      ensures a in s.deletedAddrs <==> a in t.deletedAddrs
      ensures a in s.deletedAddrs ==> s.deletedAddrs[a] == t.deletedAddrs[a]
    {
      AddrRecord(fnv, slot, s, db, a);
      AddrRecord(fnv, slot, t, db, a);
    }
    forall id | Id64(id)
      ensures id in s.deletedIds <==> id in t.deletedIds
      ensures id in s.deletedIds ==> s.deletedIds[id] == t.deletedIds[id]
    {
      IdRecord(fnv, slot, s, db, id);
      IdRecord(fnv, slot, t, db, id);
    }
  }

  lemma AddrRecord(fnv: Hash, slot: Slot, s: State, db: DB, a: string)
    requires Represents(fnv, slot, s, db)
    ensures DeletedAddrKey(a) in db <==> a in s.deletedAddrs
    ensures a in s.deletedAddrs ==> GetRecord(db, DeletedAddrKey(a)) == Some(s.deletedAddrs[a])
  {
    hide FromHex, ToHex, IndexKeys, Address, DecodeRecord, RecordBytes;
    assert KeyAgrees(fnv, slot, s, db, DeletedAddrKey(a));
    if a in s.deletedAddrs {
      RecordRoundTrip(s.deletedAddrs[a]);
    }
  }

  lemma IdRecord(fnv: Hash, slot: Slot, s: State, db: DB, id: string)
    requires Represents(fnv, slot, s, db) && Id64(id)
    ensures DeletedIdKey(FromHex(id)) in db <==> id in s.deletedIds
    ensures id in s.deletedIds ==> GetRecord(db, DeletedIdKey(FromHex(id))) == Some(s.deletedIds[id])
  {
    hide FromHex, ToHex, IndexKeys, Address, DecodeRecord, RecordBytes;
    HexBack(id);
    assert KeyAgrees(fnv, slot, s, db, DeletedIdKey(FromHex(id)));
    if id in s.deletedIds {
      RecordRoundTrip(s.deletedIds[id]);
    }
  }

  // ---------- When memory does as Pebble does ----------

  /** `e` values as long as an id are lower-case hexadecimal. */
  predicate LowerETags(e: Event) {
    e.kind == 5 ==> forall x :: x in Targets("e", e.tags) && |x| == 64 ==> LowerHex(x)
  }

  /** 64-digit lower-case ids and keys, also in `e` values of that length, and no empty `a` value. */
  ghost predicate Decent(slot: Slot, e: Event) {
    Placed(slot, e) && NoEmptyATag(e) && LowerETags(e)
  }

  /** A request marks this id in memory, or the id carries that very mark already. */
  predicate Marked(s: State, k: Event, id: string) {
    id in Targets("e", k.tags) || (id in s.deletedIds && s.deletedIds[id] == RecordOf(k))
  }

  ghost predicate ETagsFollow(s: State, k: Event) {
    forall x :: x in Targets("e", k.tags) && |x| == 64 ==> Marked(s, k, Spelled(x))
  }

  /** A request Pebble can follow in this state: whatever id it reads in an `e` value memory marks as
      well, and whatever memory removes is named by id or lives at an address that is not empty. */
  ghost predicate Followable(s: State, k: Event) {
    WellFormed(k) && k.kind == 5 && ETagsFollow(s, k) &&
    forall id :: id in s.live && Removes(k, s.live[id]) && Address(s.live[id]) == "" ==>
      s.live[id].id in Targets("e", k.tags) && s.live[id].kind != 5
  }

  lemma DecentIsFollowable(slot: Slot, s: State, k: Event)
    requires Decent(slot, k) && k.kind == 5
    ensures Followable(s, k)
  {
    hide Address, FromHex, ToHex;
    forall x | x in Targets("e", k.tags) && |x| == 64 ensures Marked(s, k, Spelled(x)) { HexBack(x); }
  }

  /** A request that does not ask for its own deletion. */
  predicate SparesItself(e: Event) {
    e.kind == 5 ==> e.id !in Targets("e", e.tags)
  }

  /** Nothing to follow, or Pebble can follow it and the request spares itself. */
  ghost predicate InStep(s: State, e: Event) {
    e.kind == 5 && !Rejected(s, e) ==> Followable(s, e) && SparesItself(e)
  }

  lemma DecentIsInStep(slot: Slot, s: State, e: Event)
    requires Decent(slot, e) && SparesItself(e)
    ensures Placed(slot, e) && InStep(s, e)
  {
    hide Rejected, WellFormed, Address;
    if e.kind == 5 {
      DecentIsFollowable(slot, s, e);
    }
  }

  /** The events memory removes are those Pebble reaches, and both leave the same records, exactly when
      Pebble can follow the request. */
  lemma DeleteExact(slot: Slot, s: State, k: Event)
    requires GoodState(slot, s) && WellFormed(k) && k.kind == 5
    ensures Alike(Delete(s, k), PebbleDelete(s, k, Reached(s, k))) <==> Followable(s, k)
  {
    hide Alike, Delete, PebbleDelete, Address, FromHex, ToHex, WellFormed, GoodState, Targets, ReadIds, Removes,
         Reached;
    if Followable(s, k) {
      FollowedAlike(slot, s, k);
    } else if !ETagsFollow(s, k) {
      var x :| x in Targets("e", k.tags) && |x| == 64 && !Marked(s, k, Spelled(x));
      UnmarkedDiffers(s, k, x);
    } else {
      FollowableParts(s, k);
      var id :| id in s.live && Removes(k, s.live[id]) && Address(s.live[id]) == "" &&
                !(s.live[id].id in Targets("e", k.tags) && s.live[id].kind != 5);
      NotReached(slot, s, k, id);
      LeftDiffers(s, k, id);
    }
  }

  lemma FollowedAlike(slot: Slot, s: State, k: Event)
    requires GoodState(slot, s) && Followable(s, k)
    ensures Alike(Delete(s, k), PebbleDelete(s, k, Reached(s, k)))
  {
    hide Address, FromHex, ToHex, WellFormed, Removes, Reaches, Targets, ReadIds, GoodState;
    forall id | id in s.live ensures Removes(k, s.live[id]) <==> Reaches(k, s.live[id]) {
      RemovedIffReached(slot, s, k, id);
    }
    assert Kept(s.live, k) == s.live - Reached(s, k);
    forall id | Id64(id) && id in Targets("e", k.tags) ensures id in ReadIds(k) { TargetIsRead(k, id); }
    forall id | id in ReadIds(k) ensures Marked(s, k, id) { ReadIsMarked(s, k, id); }
    hide Reached, Kept, Followable, ETagsFollow;
  }

  lemma ReadIsMarked(s: State, k: Event, id: string)
    requires ETagsFollow(s, k) && id in ReadIds(k)
    ensures Marked(s, k, id)
  {
    hide Marked, Targets, Spelled;
  }

  /** An id that Pebble reads in an `e` value and memory does not mark. */
  lemma UnmarkedDiffers(s: State, k: Event, x: string)
    requires x in Targets("e", k.tags) && |x| == 64 && !Marked(s, k, Spelled(x))
    ensures !Alike(Delete(s, k), PebbleDelete(s, k, Reached(s, k)))
  {
    hide FromHex, ToHex, Targets, Kept, Reached;
    SpelledIsId(x);
    assert Spelled(x) in ReadIds(k);
    hide ReadIds, Spelled;
  }

  lemma LeftDiffers(s: State, k: Event, id: string)
    requires id in s.live && Removes(k, s.live[id]) && !Reaches(k, s.live[id])
    ensures !Alike(Delete(s, k), PebbleDelete(s, k, Reached(s, k)))
  {
    hide Removes, Reaches, ReadIds, Targets, Mark;
    assert id !in Delete(s, k).live && id in PebbleDelete(s, k, Reached(s, k)).live;
  }

  lemma FollowableParts(s: State, k: Event)
    requires WellFormed(k) && k.kind == 5 && ETagsFollow(s, k) && !Followable(s, k)
    ensures exists id :: id in s.live && Removes(k, s.live[id]) && Address(s.live[id]) == "" &&
                         !(s.live[id].id in Targets("e", k.tags) && s.live[id].kind != 5)
  {
    hide Removes, Address, Targets, ETagsFollow;
  }

  lemma SpelledIsId(x: string)
    requires |x| == 64
    ensures Id64(Spelled(x))
  {
    FromHexLength(x);
    HexRoundTrip(FromHex(x));
    hide FromHex;
  }

  lemma TargetIsRead(k: Event, id: string)
    requires Id64(id) && id in Targets("e", k.tags)
    ensures id in ReadIds(k)
  {
    HexBack(id);
    hide Targets, FromHex, ToHex;
    assert Spelled(id) == id;
  }

  lemma RemovedIffReached(slot: Slot, s: State, k: Event, id: string)
    requires GoodState(slot, s) && Followable(s, k) && id in s.live
    ensures Removes(k, s.live[id]) <==> Reaches(k, s.live[id])
  {
    hide Address, Targets, FromHex, ToHex;
    var v := s.live[id];
    assert v.id == id && Id64(id) && (DeletedById(s, v) ==> v.kind == 5);
    if id in Targets("e", k.tags) {
      TargetIsRead(k, id);
    }
    if id in ReadIds(k) {
      assert Marked(s, k, id);
    }
  }

  lemma NotReached(slot: Slot, s: State, k: Event, id: string)
    requires GoodState(slot, s) && ETagsFollow(s, k) && id in s.live && Address(s.live[id]) == ""
    requires !(s.live[id].id in Targets("e", k.tags) && s.live[id].kind != 5)
    ensures !Reaches(k, s.live[id])
  {
    hide Address, Targets, FromHex, ToHex;
    var v := s.live[id];
    assert v.id == id && (DeletedById(s, v) ==> v.kind == 5);
    if id in ReadIds(k) {
      assert Marked(s, k, id);
    }
  }

  /** One call: memory and Pebble always give the same flag, and end in states alike exactly when the
      event is no accepted request, or one that Pebble can follow and that spares itself. */
  lemma StepExact(slot: Slot, s: State, e: Event)
    requires GoodState(slot, s) && WellFormed(e)
    ensures StoreSpec.Store(s, e).1 == PebbleStep(s, e).1
    ensures Alike(StoreSpec.Store(s, e).0, PebbleStep(s, e).0) <==> InStep(s, e)
  {
    AddressEmpty(e);
    RequestsAreRegular(e);
    hide Address, TypeOf, WellFormed, BeatsHolders, Holders;
    if e.kind == 5 && !Rejected(s, e) {
      DeleteExact(slot, s, e);
      var d, p := Delete(s, e), PebbleDelete(s, e, Reached(s, e));
      assert DeletedById(d, e) <==> e.id in Targets("e", e.tags) by { hide Removes, ReadIds; }
      hide Followable, GoodState, ReadIds, Reached, Targets, Removes;
      assert e.id !in d.live && e.id !in p.live;
      hide Delete, PebbleDelete;
      if e.id !in Targets("e", e.tags) {
        AlikeWith(d, p, e);
      }
    }
  }

  lemma AlikeWith(d: State, p: State, e: Event)
    requires e.id !in d.live && e.id !in p.live
    ensures Alike(d.(live := d.live[e.id := e]), p.(live := p.live[e.id := e])) <==> Alike(d, p)
  {
    var m, n := d.live[e.id := e], p.live[e.id := e];
    if m == n {
      assert d.live == m - {e.id} == n - {e.id} == p.live;
    }
  }
}
