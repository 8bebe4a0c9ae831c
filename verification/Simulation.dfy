/** The Pebble database represents an abstract state after every commit, whatever events come; and when
    that state is the one memory keeps. */
module Simulation {
  import opened Bytes
  import opened Events
  import opened Keys
  import opened StoreSpec
  import opened PebbleModel

  /** What is known of where events with an id can live: nothing, or the one address. */
  type Slot = string -> Option<string>

  /** Nothing is known of any id. */
  const ANYWHERE: Slot := (id: string) => None

  predicate Fits(slot: Slot, id: string, a: string) {
    slot(id).Some? ==> slot(id).value == a
  }

  /** Ids identify addresses. */
  ghost predicate Precise(slot: Slot) {
    forall id :: slot(id).Some?
  }

  ghost predicate RecordAgrees(records: map<string, Record>, x: string, db: DB, k: Key) {
    && (k in db <==> x in records)
    && (k in db ==> db[k] == RecordValue(RecordBytes(records[x])))
  }

  /** What the entry of one key, or its absence, says about the state. An address entry may
      dangle, but it points at the live event of its address whenever there is one. */
  ghost predicate KeyAgrees(fnv: Hash, slot: Slot, s: State, db: DB, k: Key) {
    match k
    case EventKey(id) =>
      && (k in db <==> |id| == 32 && ToHex(id) in s.live)
      && (k in db ==> db[k] == EventValue(s.live[ToHex(id)]))
    case CreatedAtKey(_, id) => k in db <==> |id| == 32 && ToHex(id) in s.live && k in IndexKeys(fnv, s.live[ToHex(id)])
    case FieldKey(_, _, id) => k in db <==> |id| == 32 && ToHex(id) in s.live && k in IndexKeys(fnv, s.live[ToHex(id)])
    case DeletedIdKey(id) => if |id| == 32 then RecordAgrees(s.deletedIds, ToHex(id), db, k) else k !in db
    case DeletedAddrKey(a) => RecordAgrees(s.deletedAddrs, a, db, k)
    case AddrKey(a) =>
      && (k in db ==> a != "" && db[k].IdValue? && |db[k].id| == 32 && Fits(slot, ToHex(db[k].id), a))
      && (forall id :: id in s.live && Address(s.live[id]) == a != "" ==> k in db && db[k] == IdValue(FromHex(id)))
  }

  ghost predicate GoodState(slot: Slot, s: State) {
    && Invariant(s)
    && (forall id :: id in s.live ==> WellFormed(s.live[id]) && Fits(slot, id, Address(s.live[id])))
    && (forall x :: x in s.deletedIds ==> Id64(s.deletedIds[x].pubkey))
    && (forall a :: a in s.deletedAddrs ==> Id64(s.deletedAddrs[a].pubkey))
  }

  ghost predicate Represents(fnv: Hash, slot: Slot, s: State, db: DB) {
    GoodState(slot, s) && forall k :: KeyAgrees(fnv, slot, s, db, k)
  }

  ghost predicate Placed(slot: Slot, e: Event) {
    WellFormed(e) && Fits(slot, e.id, Address(e))
  }

  /** The id Pebble reads in an `e` value of 64 characters. */
  function Spelled(x: string): string {
    ToHex(FromHex(x))
  }

  lemma HexBack(x: string)
    requires Id64(x)
    ensures |FromHex(x)| == 32 && ToHex(FromHex(x)) == x
  {
    HexOrder(x, x);
  }

  // ---------- Reading ----------

  /** The database holds the event of an id exactly when it is live. */
  lemma GetLive(fnv: Hash, slot: Slot, s: State, db: DB, id: Bytes)
    requires Represents(fnv, slot, s, db)
    ensures GetEvent(db, id) == if |id| == 32 && ToHex(id) in s.live then Some(s.live[ToHex(id)]) else None
    ensures |id| == 32 && ToHex(id) in s.live ==>
              s.live[ToHex(id)].id == ToHex(id) && FromHex(s.live[ToHex(id)].id) == id
  {
    hide FromHex, ToHex, IndexKeys, Address;
    assert KeyAgrees(fnv, slot, s, db, EventKey(id));
    HexRoundTrip(id);
  }

  lemma LiveAt(fnv: Hash, slot: Slot, s: State, db: DB, x: string)
    requires Represents(fnv, slot, s, db) && Id64(x)
    ensures EventKey(FromHex(x)) in db <==> x in s.live
    ensures GetEvent(db, FromHex(x)) == if x in s.live then Some(s.live[x]) else None
  {
    hide FromHex, ToHex, IndexKeys, Address;
    HexBack(x);
    GetLive(fnv, slot, s, db, FromHex(x));
    assert KeyAgrees(fnv, slot, s, db, EventKey(FromHex(x)));
  }

  lemma OwnKeysHold(fnv: Hash, slot: Slot, s: State, db: DB)
    requires Represents(fnv, slot, s, db)
    ensures EventsAtOwnKeys(db)
  {
    forall id ensures GetEvent(db, id).Some? ==> FromHex(GetEvent(db, id).value.id) == id {
      GetLive(fnv, slot, s, db, id);
    }
  }

  /** An address entry leads to a live event or dangles. No other event is live at the address, and
      if ids identify addresses the one it leads to is. */
  lemma EntryLeadsHome(fnv: Hash, slot: Slot, s: State, db: DB, a: string)
    requires Represents(fnv, slot, s, db) && a != ""
    ensures AtAddress(db, a).Some? ==>
              var x := AtAddress(db, a).value;
              && Live(s, x) && Holders(s, a) <= {x.id} && AddrKey(a) in db && db[AddrKey(a)] == IdValue(FromHex(x.id))
              && (slot(x.id).Some? ==> Address(x) == a && Holders(s, a) == {x.id})
    ensures AtAddress(db, a).None? ==> Holders(s, a) == {}
  {
    hide FromHex, ToHex, IndexKeys, Address;
    assert KeyAgrees(fnv, slot, s, db, AddrKey(a));
    if AddrKey(a) in db {
      GetLive(fnv, slot, s, db, db[AddrKey(a)].id);
    }
    forall id | id in s.live && Address(s.live[id]) == a
      ensures AtAddress(db, a) == Some(s.live[id])
    {
      HexBack(id);
      GetLive(fnv, slot, s, db, FromHex(id));
    }
  }

  lemma RecordsAgree(fnv: Hash, slot: Slot, s: State, db: DB, e: Event)
    requires Represents(fnv, slot, s, db) && WellFormed(e)
    ensures RecordBy(GetRecord(db, DeletedIdKey(FromHex(e.id))), e.pubkey) <==> DeletedById(s, e)
    ensures GetRecord(db, DeletedAddrKey(Address(e))) ==
              if Address(e) in s.deletedAddrs then Some(s.deletedAddrs[Address(e)]) else None
  {
    hide FromHex, ToHex, IndexKeys, Address, DecodeRecord, RecordBytes;
    HexBack(e.id);
    assert KeyAgrees(fnv, slot, s, db, DeletedIdKey(FromHex(e.id)));
    assert KeyAgrees(fnv, slot, s, db, DeletedAddrKey(Address(e)));
    if e.id in s.deletedIds {
      RecordRoundTrip(s.deletedIds[e.id]);
    }
    if Address(e) in s.deletedAddrs {
      RecordRoundTrip(s.deletedAddrs[Address(e)]);
    }
  }

  /** The two storages refuse the same events, though they check in different orders. */
  lemma RefuseTheSame(fnv: Hash, slot: Slot, s: State, db: DB, e: Event)
    requires Represents(fnv, slot, s, db) && WellFormed(e)
    ensures Refused(db, e) <==> Rejected(s, e) || TypeOf(e).Ephemeral?
  {
    RecordsAgree(fnv, slot, s, db, e);
    LiveAt(fnv, slot, s, db, e.id);
    hide FromHex, ToHex, Address, TypeOf, Represents;
  }

  // ---------- Deletion requests ----------

  /** The ids Pebble reads in the `e` values of a request. */
  function ReadIds(k: Event): set<string> {
    set x | x in Targets("e", k.tags) && |x| == 64 :: Spelled(x)
  }

  /** The ids of the stored events that the tags of a request reach through the database. */
  function ReachedIds(db: DB, k: Event): set<string> {
    set i | 0 <= i < |k.tags| && Victim(db, k, k.tags[i]).Some? :: Victim(db, k, k.tags[i]).value.id
  }

  /** What a request does to the state Pebble keeps: it removes these events and leaves its records. */
  function PebbleDelete(s: State, k: Event, reached: set<string>): State {
    State(
      s.live - reached,
      Mark(s.deletedIds, ReadIds(k), RecordOf(k)),
      Mark(s.deletedAddrs, Targets("a", k.tags), RecordOf(k)))
  }

  lemma TagTarget(k: Event, i: nat)
    requires i < |k.tags| && |k.tags[i]| >= 2
    ensures k.tags[i][1] in Targets(k.tags[i][0], k.tags)
  {
  }

  /** What a tag reaches is live, by the author of the request, and either named by id or, if ids
      identify addresses, at the address named. */
  lemma VictimIsRemoved(fnv: Hash, slot: Slot, s: State, db: DB, k: Event, i: nat)
    requires Represents(fnv, slot, s, db)
    requires i < |k.tags| && Victim(db, k, k.tags[i]).Some?
    ensures var tag, x := k.tags[i], Victim(db, k, k.tags[i]).value;
            && |tag| >= 2 && Live(s, x) && x.pubkey == k.pubkey
            && (tag[0] == "e" ==> x.id == Spelled(tag[1]) && x.id in ReadIds(k) && x.kind != 5)
            && (tag[0] != "e" ==>
                  && tag[0] == "a" && tag[1] in Targets("a", k.tags) && tag[1] != "" && x.createdAt <= k.createdAt
                  && db[AddrKey(tag[1])] == IdValue(FromHex(x.id))
                  && (slot(x.id).Some? ==> Address(x) == tag[1]))
  {
    hide Address, Targets, IndexKeys;
    var tag := k.tags[i];
    TagTarget(k, i);
    if tag[0] == "e" {
      GetLive(fnv, slot, s, db, FromHex(tag[1]));
    } else {
      assert KeyAgrees(fnv, slot, s, db, AddrKey(tag[1]));
      EntryLeadsHome(fnv, slot, s, db, tag[1]);
      assert AtAddress(db, tag[1]) == GetEvent(db, db[AddrKey(tag[1])].id);
    }
    hide FromHex, ToHex, Represents;
  }

  /** An event of the author whose id is read, unless it is a request, is reached. */
  lemma ReadIsReached(fnv: Hash, slot: Slot, s: State, db: DB, k: Event, x: Event)
    requires Represents(fnv, slot, s, db) && Live(s, x)
    requires x.id in ReadIds(k) && x.pubkey == k.pubkey && x.kind != 5
    ensures x.id in ReachedIds(db, k)
  {
    hide Address, FromHex, ToHex, IndexKeys;
    var v :| v in Targets("e", k.tags) && |v| == 64 && Spelled(v) == x.id;
    var i :| 0 <= i < |k.tags| && |k.tags[i]| >= 2 && k.tags[i][0] == "e" && k.tags[i][1] == v;
    FromHexLength(v);
    GetLive(fnv, slot, s, db, FromHex(v));
    hide Represents;
    assert Victim(db, k, k.tags[i]) == Some(x);
  }

  lemma FromHexLength(x: string)
    requires |x| == 64
    ensures |FromHex(x)| == 32
  {
  }

  /** So is an event of the author at an address the request names, unless it is newer. */
  lemma NamedIsReached(fnv: Hash, slot: Slot, s: State, db: DB, k: Event, x: Event)
    requires Represents(fnv, slot, s, db) && Live(s, x)
    requires Address(x) != "" && Address(x) in Targets("a", k.tags) && x.pubkey == k.pubkey
    requires x.createdAt <= k.createdAt
    ensures x.id in ReachedIds(db, k)
  {
    hide Address, FromHex, ToHex, IndexKeys;
    var i :| 0 <= i < |k.tags| && |k.tags[i]| >= 2 && k.tags[i][0] == "a" && k.tags[i][1] == Address(x);
    EntryLeadsHome(fnv, slot, s, db, Address(x));
    assert x.id in Holders(s, Address(x));
    assert Victim(db, k, k.tags[i]) == Some(x);
  }

  /** The batch of a request deletes the event and index keys of exactly the events it reaches. */
  lemma DelsAreRemovals(fnv: Hash, slot: Slot, s: State, db: DB, k: Event, key: Key)
    requires Represents(fnv, slot, s, db)
    requires key.EventKey? || IndexKey(key)
    ensures key in RequestDels(fnv, db, k, |k.tags|) <==>
              |key.id| == 32 && ToHex(key.id) in s.live && ToHex(key.id) in ReachedIds(db, k) &&
              key in OwnKeys(fnv, s.live[ToHex(key.id)])
  {
    hide FromHex, ToHex, Address, Represents, Victim, IndexKeys, ReadIds, Targets, OwnKeys;
    if key in RequestDels(fnv, db, k, |k.tags|) {
      var i :| 0 <= i < |k.tags| && key in TagDels(fnv, db, k, k.tags[i]);
      VictimIsRemoved(fnv, slot, s, db, k, i);
      var x := Victim(db, k, k.tags[i]).value;
      assert key in OwnKeys(fnv, x);
      KeyOwner(fnv, slot, s, db, x, key);
    }
    if |key.id| == 32 && ToHex(key.id) in s.live && ToHex(key.id) in ReachedIds(db, k) &&
       key in OwnKeys(fnv, s.live[ToHex(key.id)])
    {
      var i :| 0 <= i < |k.tags| && Victim(db, k, k.tags[i]).Some? &&
               Victim(db, k, k.tags[i]).value.id == ToHex(key.id);
      VictimIsRemoved(fnv, slot, s, db, k, i);
      assert key in TagDels(fnv, db, k, k.tags[i]);
    }
  }

  /** An event key or index key names the live event it belongs to. */
  lemma KeyOwner(fnv: Hash, slot: Slot, s: State, db: DB, x: Event, key: Key)
    requires Represents(fnv, slot, s, db) && Live(s, x) && key in OwnKeys(fnv, x)
    ensures (key.EventKey? || IndexKey(key)) && |key.id| == 32 && ToHex(key.id) == x.id
  {
    HexBack(x.id);
    if key in IndexKeys(fnv, x) {
      IndexKeysCarryId(fnv, x, key);
    }
  }

  lemma RequestRecords(k: Event, id: Bytes)
    requires |id| == 32
    ensures DeletedIdKey(id) in RequestSets(k, |k.tags|) <==> ToHex(id) in ReadIds(k)
  {
    assert k.tags[..|k.tags|] == k.tags;
    RequestSetsKeys(k, |k.tags|, DeletedIdKey(id));
    HexRoundTrip(id);
    forall x | |x| == 64 ensures Spelled(x) == ToHex(id) <==> FromHex(x) == id {
      FromHexLength(x);
      HexRoundTrip(FromHex(x));
    }
    hide FromHex, ToHex, Targets, Spelled;
  }

  lemma OwnKeysSplit(fnv: Hash, x: Event, key: Key)
    ensures key.EventKey? ==> (key in OwnKeys(fnv, x) <==> key.id == FromHex(x.id))
    ensures IndexKey(key) ==> (key in OwnKeys(fnv, x) <==> key in IndexKeys(fnv, x))
  {
    hide FromHex;
  }

  lemma RequestEventAgrees(fnv: Hash, slot: Slot, s: State, db: DB, k: Event, key: Key)
    requires Represents(fnv, slot, s, db)
    requires key.EventKey? || IndexKey(key)
    ensures KeyAgrees(fnv, slot, PebbleDelete(s, k, ReachedIds(db, k)),
                      (db - RequestDels(fnv, db, k, |k.tags|)) + RequestSets(k, |k.tags|), key)
  {
    hide FromHex, ToHex, Address, Targets, RequestSets, RequestDels, IndexKeys, Mark, OwnKeys, GoodState, ReachedIds;
    var d := (db - RequestDels(fnv, db, k, |k.tags|)) + RequestSets(k, |k.tags|);
    assert KeyAgrees(fnv, slot, s, db, key);
    RequestSetsKeys(k, |k.tags|, key);
    DelsAreRemovals(fnv, slot, s, db, k, key);
    GetLive(fnv, slot, s, db, key.id);
    hide Represents, ReadIds;
    if |key.id| == 32 && ToHex(key.id) in s.live {
      OwnKeysSplit(fnv, s.live[ToHex(key.id)], key);
    }
    assert key in d <==> key in db && (key !in RequestDels(fnv, db, k, |k.tags|));
    assert key in d ==> d[key] == db[key];
  }

  lemma RequestRecordAgrees(fnv: Hash, slot: Slot, s: State, db: DB, k: Event, key: Key)
    requires Represents(fnv, slot, s, db)
    requires RecordKey(key)
    ensures KeyAgrees(fnv, slot, PebbleDelete(s, k, ReachedIds(db, k)),
                      (db - RequestDels(fnv, db, k, |k.tags|)) + RequestSets(k, |k.tags|), key)
  {
    hide FromHex, ToHex, Address, Targets, RequestSets, RequestDels, RecordBytes, ReadIds, ReachedIds, IndexKeys,
         GoodState;
    assert KeyAgrees(fnv, slot, s, db, key);
    NoRecordDeleted(fnv, db, k, key);
    RequestSetsKeys(k, |k.tags|, key);
    assert k.tags[..|k.tags|] == k.tags;
    if key.DeletedIdKey? && |key.id| == 32 {
      RequestRecords(k, key.id);
    } else if key.DeletedIdKey? {
      ShortId(k, key);
    }
    hide Represents;
  }

  lemma ShortId(k: Event, key: Key)
    requires key.DeletedIdKey? && |key.id| != 32
    ensures key !in RequestSets(k, |k.tags|)
  {
    hide FromHex, Targets;
    RequestSetsKeys(k, |k.tags|, key);
  }

  lemma NoRecordDeleted(fnv: Hash, db: DB, k: Event, key: Key)
    requires RecordKey(key)
    ensures key !in RequestDels(fnv, db, k, |k.tags|)
  {
    hide FromHex, OwnKeys, Victim;
    forall i | 0 <= i < |k.tags| ensures key !in TagDels(fnv, db, k, k.tags[i]) {
      match Victim(db, k, k.tags[i]) {
        case Some(e) => OwnKeysAreNoRecords(fnv, e);
        case None =>
      }
    }
  }

  lemma RequestAddrAgrees(fnv: Hash, slot: Slot, s: State, db: DB, k: Event, a: string)
    requires Represents(fnv, slot, s, db)
    ensures KeyAgrees(fnv, slot, PebbleDelete(s, k, ReachedIds(db, k)),
                      (db - RequestDels(fnv, db, k, |k.tags|)) + RequestSets(k, |k.tags|), AddrKey(a))
  {
    hide FromHex, ToHex, Address, Targets, RequestSets, RecordBytes, Victim, OwnKeys, IndexKeys, ReadIds;
    assert KeyAgrees(fnv, slot, s, db, AddrKey(a));
    RequestSetsKeys(k, |k.tags|, AddrKey(a));
    var dels := RequestDels(fnv, db, k, |k.tags|);
    forall id | id in s.live && Address(s.live[id]) == a != "" && id !in ReachedIds(db, k)
      ensures AddrKey(a) !in dels
    {
      if AddrKey(a) in dels {
        var i :| 0 <= i < |k.tags| && AddrKey(a) in TagDels(fnv, db, k, k.tags[i]);
        VictimIsRemoved(fnv, slot, s, db, k, i);
        var x := Victim(db, k, k.tags[i]).value;
        OwnKeysAreNoRecords(fnv, x);
        HexBack(x.id);
        HexBack(id);
      }
    }
    hide RequestDels, Represents, ReachedIds;
  }

  /** After the commit of a deletion request, before its own write, whatever its tags: the database
      represents the state without the events reached and with the records left. */
  lemma RequestStep(fnv: Hash, slot: Slot, s: State, db: DB, k: Event)
    requires Represents(fnv, slot, s, db) && WellFormed(k)
    ensures Represents(fnv, slot, PebbleDelete(s, k, ReachedIds(db, k)), Apply(db, RequestOps(fnv, db, k, |k.tags|)))
  {
    OwnKeysHold(fnv, slot, s, db);
    RequestOpsEffect(fnv, db, k, |k.tags|);
    GoodAfterRequest(fnv, slot, s, db, k);
    hide KeyAgrees, RequestOps, RequestSets, RequestDels, GoodState, PebbleDelete;
    forall key
      ensures KeyAgrees(fnv, slot, PebbleDelete(s, k, ReachedIds(db, k)),
                        Apply(db, RequestOps(fnv, db, k, |k.tags|)), key)
    {
      if key.AddrKey? {
        RequestAddrAgrees(fnv, slot, s, db, k, key.addr);
      } else if RecordKey(key) {
        RequestRecordAgrees(fnv, slot, s, db, k, key);
      } else {
        RequestEventAgrees(fnv, slot, s, db, k, key);
      }
    }
  }

  lemma GoodAfterRequest(fnv: Hash, slot: Slot, s: State, db: DB, k: Event)
    requires Represents(fnv, slot, s, db) && WellFormed(k)
    ensures GoodState(slot, PebbleDelete(s, k, ReachedIds(db, k)))
  {
    hide Address, TypeOf, Targets, ReachedIds, ReadIds, KeyAgrees;
    var d := PebbleDelete(s, k, ReachedIds(db, k));
    forall id | id in d.live
      ensures DeletedById(d, d.live[id]) ==> d.live[id].kind == 5
      ensures !DeletedByAddress(d, d.live[id])
    {
      var e := d.live[id];
      assert !DeletedByAddress(s, e) && (DeletedById(s, e) ==> e.kind == 5);
      if e.id in ReadIds(k) && e.pubkey == k.pubkey && e.kind != 5 {
        ReadIsReached(fnv, slot, s, db, k, e);
      }
      if Address(e) != "" && Address(e) in Targets("a", k.tags) && e.pubkey == k.pubkey && e.createdAt <= k.createdAt {
        NamedIsReached(fnv, slot, s, db, k, e);
      }
    }
    hide WellFormed, Fits;
  }

  // ---------- Replacing and adding ----------

  /** Removing one live event's keys removes all its index entries and none of another's. */
  lemma DropStep(fnv: Hash, slot: Slot, s: State, db: DB, x: Event)
    requires Represents(fnv, slot, s, db) && Live(s, x)
    ensures Represents(fnv, slot, s.(live := s.live - {x.id}), db - OwnKeys(fnv, x))
  {
    DropKeepsInvariant(s, {x.id});
    forall key ensures KeyAgrees(fnv, slot, s.(live := s.live - {x.id}), db - OwnKeys(fnv, x), key) {
      DropKeyAgrees(fnv, slot, s, db, x, key);
    }
    hide KeyAgrees, OwnKeys, Address;
  }

  lemma DropKeyAgrees(fnv: Hash, slot: Slot, s: State, db: DB, x: Event, key: Key)
    requires Represents(fnv, slot, s, db) && Live(s, x)
    ensures KeyAgrees(fnv, slot, s.(live := s.live - {x.id}), db - OwnKeys(fnv, x), key)
  {
    hide FromHex, ToHex, Address, IndexKeys, OwnKeys, Invariant, RecordBytes;
    assert KeyAgrees(fnv, slot, s, db, key);
    OwnKeysAreNoRecords(fnv, x);
    if key.EventKey? || IndexKey(key) {
      OwnKeysSplit(fnv, x, key);
      HexBack(x.id);
      HexRoundTrip(key.id);
      if key in OwnKeys(fnv, x) {
        KeyOwner(fnv, slot, s, db, x, key);
      }
    }
  }

  /** Writing a new event that nothing rejects adds it to the state. */
  lemma AddStep(fnv: Hash, slot: Slot, s: State, db: DB, e: Event)
    requires Represents(fnv, slot, s, db) && Placed(slot, e) && !TypeOf(e).Ephemeral?
    requires e.id !in s.live && (DeletedById(s, e) ==> e.kind == 5) && !DeletedByAddress(s, e)
    requires Address(e) != "" ==> Holders(s, Address(e)) == {}
    ensures Represents(fnv, slot, s.(live := s.live[e.id := e]), Apply(db, WriteOps(fnv, e)))
  {
    var t, d := s.(live := s.live[e.id := e]), Apply(db, WriteOps(fnv, e));
    AddKeepsInvariant(s, e);
    WriteOpsEffect(fnv, db, e);
    forall key ensures KeyAgrees(fnv, slot, t, d, key) {
      if key.AddrKey? {
        AddAddrAgrees(fnv, slot, s, db, e, d, key.addr);
      } else {
        AddKeyAgrees(fnv, slot, s, db, e, d, key);
      }
    }
    hide KeyAgrees, WriteOps, Address, TypeOf;
  }

  /** The entry of the address of a new event is the only address entry that changes. */
  lemma AddAddrAgrees(fnv: Hash, slot: Slot, s: State, db: DB, e: Event, d: DB, a: string)
    requires Represents(fnv, slot, s, db) && Placed(slot, e)
    requires e.id !in s.live
    requires Address(e) != "" ==> Holders(s, Address(e)) == {}
    requires d == if Address(e) != "" then (db + WrittenValues(fnv, e))[AddrKey(Address(e)) := IdValue(FromHex(e.id))]
                  else db + WrittenValues(fnv, e)
    ensures KeyAgrees(fnv, slot, s.(live := s.live[e.id := e]), d, AddrKey(a))
  {
    hide FromHex, ToHex, Address, IndexKeys, GoodState, OwnKeys;
    assert KeyAgrees(fnv, slot, s, db, AddrKey(a));
    HexBack(e.id);
    OwnKeysAreNoRecords(fnv, e);
    forall id | id in s.live && Address(s.live[id]) == a != ""
      ensures a != Address(e)
    {
      assert a == Address(e) ==> id in Holders(s, Address(e));
    }
  }

  lemma AddKeyAgrees(fnv: Hash, slot: Slot, s: State, db: DB, e: Event, d: DB, key: Key)
    requires Represents(fnv, slot, s, db) && Placed(slot, e)
    requires e.id !in s.live && !key.AddrKey?
    requires d == if Address(e) != "" then (db + WrittenValues(fnv, e))[AddrKey(Address(e)) := IdValue(FromHex(e.id))]
                  else db + WrittenValues(fnv, e)
    ensures KeyAgrees(fnv, slot, s.(live := s.live[e.id := e]), d, key)
  {
    hide FromHex, ToHex, Address, IndexKeys, GoodState;
    assert KeyAgrees(fnv, slot, s, db, key);
    HexBack(e.id);
    OwnKeysAreNoRecords(fnv, e);
    if key in IndexKeys(fnv, e) {
      IndexKeysCarryId(fnv, e, key);
    }
    if (key.EventKey? || IndexKey(key)) && |key.id| == 32 {
      HexRoundTrip(key.id);
    }
  }

  // ---------- Store ----------

  /** The state Pebble keeps after one call, read off the state and the database before it. */
  function PebbleNext(s: State, db: DB, e: Event): State {
    if Refused(db, e) then s
    else if e.kind == 5 then
      var d := PebbleDelete(s, e, ReachedIds(db, e));
      d.(live := d.live[e.id := e])
    else
      var existing := if Address(e) != "" then AtAddress(db, Address(e)) else None;
      if existing.None? then s.(live := s.live[e.id := e])
      else if Before(e, existing.value) then s.(live := (s.live - {existing.value.id})[e.id := e])
      else s
  }

  /** One event, not a request, that nothing refuses. */
  lemma PlaceStep(fnv: Hash, slot: Slot, s: State, db: DB, e: Event)
    requires Represents(fnv, slot, s, db) && Placed(slot, e) && e.kind != 5 && !Refused(db, e)
    ensures Represents(fnv, slot, PebbleNext(s, db, e), PebbleModel.Store(fnv, db, e).0)
  {
    RefuseTheSame(fnv, slot, s, db, e);
    hide Refused, TypeOf, Address, FromHex, ToHex, WriteOps, DeleteOps, Before, KeyAgrees, GoodState;
    var a := Address(e);
    if a == "" {
      assert [] + WriteOps(fnv, e) == WriteOps(fnv, e);
      AddStep(fnv, slot, s, db, e);
    } else {
      EntryLeadsHome(fnv, slot, s, db, a);
      if AtAddress(db, a).None? {
        assert [] + WriteOps(fnv, e) == WriteOps(fnv, e);
        AddStep(fnv, slot, s, db, e);
      } else {
        ReplaceStep(fnv, slot, s, db, e);
      }
    }
  }

  lemma ReplaceStep(fnv: Hash, slot: Slot, s: State, db: DB, e: Event)
    requires Represents(fnv, slot, s, db) && Placed(slot, e) && e.kind != 5
    requires !Rejected(s, e) && !TypeOf(e).Ephemeral? && !Refused(db, e)
    requires Address(e) != "" && AtAddress(db, Address(e)).Some?
    ensures Represents(fnv, slot, PebbleNext(s, db, e), PebbleModel.Store(fnv, db, e).0)
  {
    hide Refused, TypeOf, Address, FromHex, ToHex, WriteOps, DeleteOps, Before, KeyAgrees, GoodState, OwnKeys;
    var a := Address(e);
    EntryLeadsHome(fnv, slot, s, db, a);
    var x := AtAddress(db, a).value;
    if Before(e, x) {
      var id := db[AddrKey(a)].id;
      OwnKeysHold(fnv, slot, s, db);
      DeleteOpsEffect(fnv, db, db, id);
      DropStep(fnv, slot, s, db, x);
      ApplyAppend(db, DeleteOps(fnv, db, id), WriteOps(fnv, e));
      var t := s.(live := s.live - {x.id});
      assert Holders(t, a) == {};
      AddStep(fnv, slot, t, db - OwnKeys(fnv, x), e);
    }
  }

  /** What Pebble holds after an accepted request: its deletions and records, then the request. */
  lemma RequestWritten(fnv: Hash, db: DB, e: Event)
    requires e.kind == 5 && !Refused(db, e)
    ensures PebbleModel.Store(fnv, db, e) ==
            (Apply(Apply(db, RequestOps(fnv, db, e, |e.tags|)), WriteOps(fnv, e)), true)
  {
    hide Refused, TypeOf, Address, WriteOps, RequestOps, Apply;
    RequestsAreRegular(e);
    assert [] + WriteOps(fnv, e) == WriteOps(fnv, e);
  }

  /** A deletion request that nothing refuses: the events it reaches go and it comes, even if it names
      itself. */
  lemma StoreRequestStep(fnv: Hash, slot: Slot, s: State, db: DB, e: Event)
    requires Represents(fnv, slot, s, db) && Placed(slot, e) && e.kind == 5 && !Refused(db, e)
    ensures Represents(fnv, slot, PebbleNext(s, db, e), PebbleModel.Store(fnv, db, e).0)
  {
    RefuseTheSame(fnv, slot, s, db, e);
    RequestsAreRegular(e);
    RequestStep(fnv, slot, s, db, e);
    RequestWritten(fnv, db, e);
    hide Refused, TypeOf, Address, FromHex, ToHex, WriteOps, RequestOps, Before, KeyAgrees, GoodState, Targets,
         ReachedIds, ReadIds, PebbleModel.Store, Represents;
    AddStep(fnv, slot, PebbleDelete(s, e, ReachedIds(db, e)), Apply(db, RequestOps(fnv, db, e, |e.tags|)), e);
  }

  /** One call, whatever the event: the database goes on representing a state. */
  lemma StoreStep(fnv: Hash, slot: Slot, s: State, db: DB, e: Event)
    requires Represents(fnv, slot, s, db) && Placed(slot, e)
    ensures Represents(fnv, slot, PebbleNext(s, db, e), PebbleModel.Store(fnv, db, e).0)
  {
    if Refused(db, e) {
      hide Refused, Represents, TypeOf, Address;
    } else if e.kind == 5 {
      StoreRequestStep(fnv, slot, s, db, e);
    } else {
      PlaceStep(fnv, slot, s, db, e);
    }
  }

  /** The index entries are exactly those of the live events. */
  lemma IndexesAreExact(fnv: Hash, slot: Slot, s: State, db: DB, k: Key)
    requires Represents(fnv, slot, s, db) && IndexKey(k)
    ensures k in db <==> exists id :: id in s.live && k in IndexKeys(fnv, s.live[id])
  {
    assert KeyAgrees(fnv, slot, s, db, k);
    forall id | id in s.live && k in IndexKeys(fnv, s.live[id]) ensures |k.id| == 32 && ToHex(k.id) == id {
      IndexKeysCarryId(fnv, s.live[id], k);
      HexBack(id);
    }
    hide FromHex, ToHex, Address, IndexKeys;
  }

  /** Every live event with an address is the one its address entry points at. */
  lemma AddressesAreCoherent(fnv: Hash, slot: Slot, s: State, db: DB, x: Event)
    requires Represents(fnv, slot, s, db) && Live(s, x) && Address(x) != ""
    ensures AddrKey(Address(x)) in db && db[AddrKey(Address(x))] == IdValue(FromHex(x.id))
    ensures AtAddress(db, Address(x)) == Some(x) && Holders(s, Address(x)) == {x.id}
  {
    EntryLeadsHome(fnv, slot, s, db, Address(x));
    hide Address, FromHex, Represents;
    assert x.id in Holders(s, Address(x));
  }

  // ---------- Histories ----------

  function RunPebble(fnv: Hash, db: DB, history: seq<Event>): DB {
    if history == [] then db
    else PebbleModel.Store(fnv, RunPebble(fnv, db, history[..|history| - 1]), history[|history| - 1]).0
  }

  function PebbleAnswers(fnv: Hash, db: DB, history: seq<Event>): seq<bool> {
    if history == [] then []
    else
      var h := history[..|history| - 1];
      PebbleAnswers(fnv, db, h) + [PebbleModel.Store(fnv, RunPebble(fnv, db, h), history[|history| - 1]).1]
  }

  /** The state Pebble keeps over a history. */
  function RunState(fnv: Hash, history: seq<Event>): State {
    if history == [] then EMPTY
    else
      var h := history[..|history| - 1];
      PebbleNext(RunState(fnv, h), RunPebble(fnv, map[], h), history[|history| - 1])
  }

  lemma EmptyRepresents(fnv: Hash, slot: Slot)
    ensures Represents(fnv, slot, EMPTY, map[])
  {
    forall k ensures KeyAgrees(fnv, slot, EMPTY, map[], k) {
      hide FromHex, ToHex, Address, IndexKeys;
    }
  }

  /** Over every history, whatever its requests ask for and whatever the hash function. */
  lemma {:induction false} HistoryStep(fnv: Hash, slot: Slot, history: seq<Event>)
    requires forall i :: 0 <= i < |history| ==> Placed(slot, history[i])
    ensures Represents(fnv, slot, RunState(fnv, history), RunPebble(fnv, map[], history))
  {
    hide Represents, PebbleModel.Store, PebbleNext, Placed;
    if history == [] {
      EmptyRepresents(fnv, slot);
    } else {
      var h := history[..|history| - 1];
      HistoryStep(fnv, slot, h);
      StoreStep(fnv, slot, RunState(fnv, h), RunPebble(fnv, map[], h), history[|history| - 1]);
    }
  }
}
