/** The Pebble storage as an object: batches are built step by step and committed as a whole. */
module PebbleStorage {
  import opened Bytes
  import opened Events
  import opened Keys
  import opened StoreSpec
  import opened PebbleModel

  class Batch {
    var ops: seq<Op>

    constructor ()
      ensures ops == []
    {
      ops := [];
    }

    method Put(key: Key, value: Value)
      modifies this
      ensures ops == old(ops) + [Set(key, value)]
    {
      ops := ops + [Set(key, value)];
    }

    method Delete(key: Key)
      modifies this
      ensures ops == old(ops) + [Del(key)]
    {
      ops := ops + [Del(key)];
    }
  }

  class PebbleStorage {
    const fnv: Hash
    var db: DB

    constructor (fnv: Hash)
      ensures db == map[] && this.fnv == fnv
    {
      this.fnv := fnv;
      db := map[];
    }

    method Commit(batch: Batch)
      modifies this`db
      ensures db == Apply(old(db), batch.ops)
    {
      var i := 0;
      var d := db;
      while i < |batch.ops|
        invariant 0 <= i <= |batch.ops|
        invariant d == Apply(db, batch.ops[..i])
      {
        assert batch.ops[..i + 1][..i] == batch.ops[..i];
        match batch.ops[i] {
          case Set(key, value) => d := d[key := value];
          case Del(key) => d := d - {key};
        }
        i := i + 1;
      }
      assert batch.ops[..i] == batch.ops;
      db := d;
    }

    method GetEventByID(id: Bytes) returns (event: Option<Event>)
      ensures event == GetEvent(db, id)
    {
      if EventKey(id) !in db {
        return None;
      }
      match db[EventKey(id)] {
        case EventValue(e) => return Some(e);
        case _ => return None;
      }
    }

    method GetDeletionRecord(key: Key) returns (record: Option<Record>)
      ensures record == GetRecord(db, key)
    {
      if key !in db || !db[key].RecordValue? {
        return None;
      }
      var value := db[key].bytes;
      if |value| != 40 {
        return None;
      }
      var bits := BigEndian(value[32..40]);
      assert value[32..40] == value[32..];
      EightBytes(value[32..]);
      var pubkey := BytesToHex(value[..32]);
      return Some(Record(pubkey, ToInt64(bits)));
    }

    method DeleteEventFromBatch(batch: Batch, id: Bytes)
      modifies batch
      ensures batch.ops == old(batch.ops) + DeleteOps(fnv, db, id)
    {
      hide TagOps, InvertTimestamp, FieldHashAuthor, FieldHashKind, FromHex;
      var event := GetEventByID(id);
      if event.None? {
        return;
      }
      var e := event.value;
      var ts := InvertTimestamp(e.createdAt);
      batch.Delete(EventKey(id));
      batch.Delete(CreatedAtKey(ts, id));
      batch.Delete(FieldKey(FieldHashAuthor(fnv, e.pubkey), ts, id));
      batch.Delete(FieldKey(FieldHashKind(fnv, e.kind), ts, id));
      DeleteTags(batch, e.tags, id, ts);
    }

    /** The loop of `DeleteEventFromBatch` over the tags. */
    method DeleteTags(batch: Batch, tags: seq<Tag>, id: Bytes, ts: uint64)
      modifies batch
      ensures batch.ops == old(batch.ops) + TagOps(fnv, ts, id, tags, false)
    {
      hide FieldHashTag;
      var i := 0;
      while i < |tags|
        invariant 0 <= i <= |tags|
        invariant batch.ops == old(batch.ops) + TagOps(fnv, ts, id, tags[..i], false)
      {
        var tag := tags[i];
        assert tags[..i + 1][..i] == tags[..i];
        i := i + 1;
        if |tag| < 2 || |tag[0]| != 1 {
          continue;
        }
        batch.Delete(FieldKey(FieldHashTag(fnv, tag[0][0], tag[1]), ts, id));
      }
      assert tags[..i] == tags;
    }

    method ProcessKind5(event: Event)
      requires |event.pubkey| == 64
      modifies this`db
      ensures db == Apply(old(db), RequestOps(fnv, old(db), event, |event.tags|))
    {
      hide RequestTagOps, Apply, FromHex, PutUint64;
      var batch := new Batch();
      var pubkeyBytes := HexToBytes32(event.pubkey);
      var value := RecordValue(pubkeyBytes + PutUint64(ToUint64(event.createdAt)));
      assert value == RecordValue(RecordBytes(RecordOf(event)));
      hide RecordBytes;
      var i := 0;
      while i < |event.tags|
        invariant 0 <= i <= |event.tags|
        invariant db == old(db)
        invariant batch.ops == RequestOps(fnv, db, event, i)
      {
        var tag := event.tags[i];
        NoRequestTagOps(fnv, db, event, tag);
        assert batch.ops + [] == batch.ops;
        i := i + 1;
        if |tag| < 2 {
          continue;
        }
        if tag[0] == "e" {
          if |tag[1]| != 64 {
            continue;
          }
          RequestE(batch, event, tag, value);
        } else if tag[0] == "a" {
          RequestA(batch, event, tag, value);
        }
      }
      Commit(batch);
    }

    method RequestE(batch: Batch, event: Event, tag: Tag, value: Value)
      requires |tag| >= 2 && tag[0] == "e" && |tag[1]| == 64
      requires value == RecordValue(RecordBytes(RecordOf(event)))
      modifies batch
      ensures batch.ops == old(batch.ops) + RequestTagOps(fnv, db, event, tag)
    {
      hide DeleteOps, FromHex, RecordBytes;
      var eventIDBytes := HexToBytes32(tag[1]);
      batch.Put(DeletedIdKey(eventIDBytes), value);
      var target := GetEventByID(eventIDBytes);
      if target.Some? && target.value.pubkey == event.pubkey && target.value.kind != 5 {
        DeleteEventFromBatch(batch, eventIDBytes);
      }
    }

    method RequestA(batch: Batch, event: Event, tag: Tag, value: Value)
      requires |tag| >= 2 && tag[0] == "a"
      requires value == RecordValue(RecordBytes(RecordOf(event)))
      modifies batch
      ensures batch.ops == old(batch.ops) + RequestTagOps(fnv, db, event, tag)
    {
      hide DeleteOps, FromHex, RecordBytes;
      var addr := tag[1];
      batch.Put(DeletedAddrKey(addr), value);
      var addrKey := AddrKey(addr);
      if addrKey in db && db[addrKey].IdValue? {
        var existingID := db[addrKey].id;
        var target := GetEventByID(existingID);
        if target.Some? && target.value.pubkey == event.pubkey && !(target.value.createdAt > event.createdAt) {
          DeleteEventFromBatch(batch, existingID);
          batch.Delete(addrKey);
        }
      }
    }

    method Store(event: Event) returns (stored: bool)
      requires |event.id| == 64 && |event.pubkey| == 64
      modifies this`db
      ensures (db, stored) == PebbleModel.Store(fnv, old(db), event)
    {
      AddressEmpty(event);
      RequestsAreRegular(event);
      var eventIDBytes := HexToBytes32(event.id);
      hide FromHex, Address, TypeOf, StringLess, RequestOps, DeleteOps, WriteOps;
      var refused := Refuses(event, eventIDBytes);
      if refused {
        return false;
      }
      hide Refused;
      if event.kind == 5 {
        ProcessKind5(event);
      }
      var eventType := TypeOf(event);
      var oldEventID: Option<Bytes> := None;
      if eventType == Replaceable || eventType == Addressable {
        var rejected;
        rejected, oldEventID := Existing(event);
        if rejected {
          return false;
        }
      }
      var batch := new Batch();
      if oldEventID.Some? {
        DeleteEventFromBatch(batch, oldEventID.value);
      }
      ghost var delete := if oldEventID.Some? then DeleteOps(fnv, db, oldEventID.value) else [];
      assert batch.ops == delete;
      WriteEvent(batch, event, eventIDBytes, eventType);
      assert batch.ops == delete + WriteOps(fnv, event);
      Commit(batch);
      return true;
    }

    /** The checks of `Store` that come before any write. */
    method Refuses(event: Event, eventIDBytes: Bytes) returns (refused: bool)
      requires eventIDBytes == FromHex(event.id)
      ensures refused <==> Refused(db, event)
    {
      hide FromHex, Address, TypeOf;
      if EventKey(eventIDBytes) in db {
        return true;
      }
      var rec := GetDeletionRecord(DeletedIdKey(eventIDBytes));
      if rec.Some? && rec.value.pubkey == event.pubkey {
        return true;
      }
      var eventType := TypeOf(event);
      if eventType == Ephemeral {
        return true;
      }
      var addr := Address(event);
      if addr != "" {
        rec := GetDeletionRecord(DeletedAddrKey(addr));
        if rec.Some? && rec.value.pubkey == event.pubkey {
          if event.createdAt <= rec.value.createdAt {
            return true;
          }
        }
      }
      return false;
    }

    /** The part of `Store` that looks for the event to replace. */
    method Existing(event: Event) returns (rejected: bool, oldEventID: Option<Bytes>)
      ensures var existing := AtAddress(db, Address(event));
              && (rejected <==> existing.Some? && !Before(event, existing.value))
              && (!rejected ==>
                    oldEventID == if existing.Some? then Some(db[AddrKey(Address(event))].id) else None)
    {
      hide Address;
      var addrKey := AddrKey(Address(event));
      if addrKey in db && db[addrKey].IdValue? {
        var existingID := db[addrKey].id;
        var existing := GetEventByID(existingID);
        if existing.Some? {
          if event.createdAt < existing.value.createdAt {
            return true, None;
          }
          if event.createdAt == existing.value.createdAt && !StringLess(event.id, existing.value.id) {
            return true, None;
          }
          return false, Some(existingID);
        }
      }
      return false, None;
    }

    /** The part of `Store` that puts the event and its index entries in the batch. */
    method WriteEvent(batch: Batch, event: Event, id: Bytes, eventType: EventType)
      requires id == FromHex(event.id) && eventType == TypeOf(event)
      modifies batch
      ensures batch.ops == old(batch.ops) + WriteOps(fnv, event)
    {
      AddressEmpty(event);
      hide FromHex, Address, TypeOf, TagOps, InvertTimestamp, FieldHashAuthor, FieldHashKind;
      batch.Put(EventKey(id), EventValue(event));
      var ts := InvertTimestamp(event.createdAt);
      batch.Put(CreatedAtKey(ts, id), Empty);
      batch.Put(FieldKey(FieldHashAuthor(fnv, event.pubkey), ts, id), Empty);
      batch.Put(FieldKey(FieldHashKind(fnv, event.kind), ts, id), Empty);
      WriteTags(batch, event, id, ts);
      if eventType == Replaceable || eventType == Addressable {
        batch.Put(AddrKey(Address(event)), IdValue(id));
      }
    }

    method WriteTags(batch: Batch, event: Event, id: Bytes, ts: uint64)
      modifies batch
      ensures batch.ops == old(batch.ops) + TagOps(fnv, ts, id, event.tags, true)
    {
      hide FieldHashTag;
      var i := 0;
      while i < |event.tags|
        invariant 0 <= i <= |event.tags|
        invariant batch.ops == old(batch.ops) + TagOps(fnv, ts, id, event.tags[..i], true)
      {
        var tag := event.tags[i];
        assert event.tags[..i + 1][..i] == event.tags[..i];
        i := i + 1;
        if |tag| < 2 || |tag[0]| != 1 {
          continue;
        }
        batch.Put(FieldKey(FieldHashTag(fnv, tag[0][0], tag[1]), ts, id), Empty);
      }
      assert event.tags[..i] == event.tags;
    }
  }

  /** Tags that are too short or of another kind ask for nothing. */
  lemma NoRequestTagOps(fnv: Hash, db: DB, k: Event, tag: Tag)
    ensures |tag| < 2 || (tag[0] == "e" && |tag[1]| != 64) || (tag[0] != "e" && tag[0] != "a") ==>
              RequestTagOps(fnv, db, k, tag) == []
  {
  }
}
