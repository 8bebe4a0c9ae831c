/** The Pebble storage, write side: what each commit does to the keys and values. */
module PebbleModel {
  import opened Bytes
  import opened Events
  import opened Keys
  import opened StoreSpec

  datatype Value = EventValue(event: Event) | IdValue(id: Bytes) | RecordValue(bytes: Bytes) | Empty

  type DB = map<Key, Value>

  /** FNV-1a, of which nothing is assumed: any two inputs may collide. */
  type Hash = string -> uint64

  datatype Op = Set(key: Key, value: Value) | Del(key: Key)

  /** What committing a batch does: its operations in order. */
  function Apply(db: DB, ops: seq<Op>): DB {
    if ops == [] then db
    else
      var before := Apply(db, ops[..|ops| - 1]);
      match ops[|ops| - 1]
      case Set(key, value) => before[key := value]
      case Del(key) => before - {key}
  }

  // ---------- Keys of one event ----------

  function FieldHashAuthor(fnv: Hash, pubkey: string): uint64 {
    fnv("author\0" + pubkey)
  }

  function FieldHashKind(fnv: Hash, kind: int64): uint64 {
    fnv("kind\0" + FormatInt(kind))
  }

  function FieldHashTag(fnv: Hash, name: char, value: string): uint64 {
    fnv([name] + "\0" + value)
  }

  predicate IndexedTag(tag: Tag) {
    |tag| >= 2 && |tag[0]| == 1
  }

  function TagKey(fnv: Hash, e: Event, tag: Tag): Key
    requires IndexedTag(tag)
  {
    FieldKey(FieldHashTag(fnv, tag[0][0], tag[1]), InvertTimestamp(e.createdAt), FromHex(e.id))
  }

  function TagKeys(fnv: Hash, e: Event, n: nat): set<Key>
    requires n <= |e.tags|
  {
    set i | 0 <= i < n && IndexedTag(e.tags[i]) :: TagKey(fnv, e, e.tags[i])
  }

  function FixedKeys(fnv: Hash, e: Event): set<Key> {
    var ts, id := InvertTimestamp(e.createdAt), FromHex(e.id);
    {CreatedAtKey(ts, id),
     FieldKey(FieldHashAuthor(fnv, e.pubkey), ts, id), FieldKey(FieldHashKind(fnv, e.kind), ts, id)}
  }

  /** The index entries of an event: by time, author, kind and one-letter tags. */
  function IndexKeys(fnv: Hash, e: Event): set<Key> {
    FixedKeys(fnv, e) + TagKeys(fnv, e, |e.tags|)
  }

  function OwnKeys(fnv: Hash, e: Event): set<Key> {
    {EventKey(FromHex(e.id))} + IndexKeys(fnv, e)
  }

  lemma IndexKeysCarryId(fnv: Hash, e: Event, k: Key)
    requires k in IndexKeys(fnv, e)
    ensures IndexKey(k) && k.id == FromHex(e.id) && k.invertedTS == InvertTimestamp(e.createdAt)
  {
  }

  // ---------- Reading ----------

  function GetEvent(db: DB, id: Bytes): Option<Event> {
    if EventKey(id) in db && db[EventKey(id)].EventValue? then Some(db[EventKey(id)].event) else None
  }

  function RecordBytes(r: Record): Bytes {
    FromHex(r.pubkey) + PutUint64(ToUint64(r.createdAt))
  }

  function DecodeRecord(b: Bytes): Option<Record> {
    if |b| != 40 then None
    else
      EightBytes(b[32..]);
      Some(Record(ToHex(b[..32]), ToInt64(BigEndian(b[32..]))))
  }

  lemma RecordRoundTrip(r: Record)
    requires Id64(r.pubkey)
    ensures |RecordBytes(r)| == 40 && DecodeRecord(RecordBytes(r)) == Some(r)
  {
    var b := RecordBytes(r);
    assert b[..32] == FromHex(r.pubkey) && b[32..] == PutUint64(ToUint64(r.createdAt));
    hide FromHex, ToHex, PutUint64, LowerHex, BigEndian;
    HexOrder(r.pubkey, r.pubkey);
    Uint64RoundTrip(ToUint64(r.createdAt));
  }

  function GetRecord(db: DB, k: Key): Option<Record> {
    if k in db && db[k].RecordValue? then DecodeRecord(db[k].bytes) else None
  }

  predicate RecordBy(r: Option<Record>, pubkey: string) {
    r.Some? && r.value.pubkey == pubkey
  }

  // ---------- Batches ----------

  /** Deleting an event: its value and its index entries, read off the stored event. */
  function DeleteOps(fnv: Hash, db: DB, id: Bytes): seq<Op> {
    match GetEvent(db, id)
    case None => []
    case Some(e) =>
      var ts := InvertTimestamp(e.createdAt);
      [Del(EventKey(id)), Del(CreatedAtKey(ts, id)),
       Del(FieldKey(FieldHashAuthor(fnv, e.pubkey), ts, id)), Del(FieldKey(FieldHashKind(fnv, e.kind), ts, id))]
      + TagOps(fnv, ts, id, e.tags, false)
  }

  /** One operation for each indexed tag. */
  function TagOps(fnv: Hash, ts: uint64, id: Bytes, tags: seq<Tag>, write: bool): seq<Op> {
    if tags == [] then []
    else
      var tag := tags[|tags| - 1];
      TagOps(fnv, ts, id, tags[..|tags| - 1], write) +
      if !IndexedTag(tag) then []
      else
        var k := FieldKey(FieldHashTag(fnv, tag[0][0], tag[1]), ts, id);
        [if write then Set(k, Empty) else Del(k)]
  }

  /** Writing an event with its index entries, and the address entry if it has an address. */
  function WriteOps(fnv: Hash, e: Event): seq<Op> {
    var id, ts := FromHex(e.id), InvertTimestamp(e.createdAt);
    [Set(EventKey(id), EventValue(e)), Set(CreatedAtKey(ts, id), Empty),
     Set(FieldKey(FieldHashAuthor(fnv, e.pubkey), ts, id), Empty),
     Set(FieldKey(FieldHashKind(fnv, e.kind), ts, id), Empty)]
    + TagOps(fnv, ts, id, e.tags, true)
    + if Address(e) != "" then [Set(AddrKey(Address(e)), IdValue(id))] else []
  }

  /** The stored event an `e` or `a` tag of a deletion request reaches. */
  function Victim(db: DB, k: Event, tag: Tag): Option<Event> {
    if |tag| < 2 then None
    else if tag[0] == "e" && |tag[1]| == 64 then
      match GetEvent(db, FromHex(tag[1]))
      case Some(e) => if e.pubkey == k.pubkey && e.kind != 5 then Some(e) else None
      case None => None
    else if tag[0] == "a" && AddrKey(tag[1]) in db && db[AddrKey(tag[1])].IdValue? then
      match GetEvent(db, db[AddrKey(tag[1])].id)
      case Some(e) => if e.pubkey == k.pubkey && e.createdAt <= k.createdAt then Some(e) else None
      case None => None
    else None
  }

  function VictimId(db: DB, k: Event, tag: Tag): Bytes
    requires Victim(db, k, tag).Some?
  {
    if tag[0] == "e" then FromHex(tag[1]) else db[AddrKey(tag[1])].id
  }

  /** What one tag of a deletion request puts in the batch; the database is read, not the batch. */
  function RequestTagOps(fnv: Hash, db: DB, k: Event, tag: Tag): seq<Op> {
    var value := RecordValue(RecordBytes(RecordOf(k)));
    if |tag| < 2 then []
    else if tag[0] == "e" then
      if |tag[1]| != 64 then []
      else [Set(DeletedIdKey(FromHex(tag[1])), value)]
           + if Victim(db, k, tag).Some? then DeleteOps(fnv, db, FromHex(tag[1])) else []
    else if tag[0] == "a" then
      [Set(DeletedAddrKey(tag[1]), value)]
      + if Victim(db, k, tag).Some? then DeleteOps(fnv, db, db[AddrKey(tag[1])].id) + [Del(AddrKey(tag[1]))] else []
    else []
  }

  function RequestOps(fnv: Hash, db: DB, k: Event, n: nat): seq<Op>
    requires n <= |k.tags|
  {
    if n == 0 then [] else RequestOps(fnv, db, k, n - 1) + RequestTagOps(fnv, db, k, k.tags[n - 1])
  }

  // ---------- Store ----------

  /** The live event the address entry points at, if the entry does not dangle. */
  function AtAddress(db: DB, addr: string): Option<Event> {
    if AddrKey(addr) in db && db[AddrKey(addr)].IdValue? then GetEvent(db, db[AddrKey(addr)].id) else None
  }

  predicate Refused(db: DB, e: Event) {
    || EventKey(FromHex(e.id)) in db
    || RecordBy(GetRecord(db, DeletedIdKey(FromHex(e.id))), e.pubkey)
    || TypeOf(e).Ephemeral?
    || (Address(e) != "" &&
        RecordBy(GetRecord(db, DeletedAddrKey(Address(e))), e.pubkey) &&
        e.createdAt <= GetRecord(db, DeletedAddrKey(Address(e))).value.createdAt)
  }

  /** The new database and whether the event was stored. */
  function Store(fnv: Hash, db: DB, e: Event): (DB, bool) {
    if Refused(db, e) then (db, false)
    else
      var db1 := if e.kind == 5 then Apply(db, RequestOps(fnv, db, e, |e.tags|)) else db;
      var existing := if Address(e) != "" then AtAddress(db1, Address(e)) else None;
      if existing.Some? && !Before(e, existing.value) then (db1, false)
      else
        var delete := if existing.Some? then DeleteOps(fnv, db1, db1[AddrKey(Address(e))].id) else [];
        (Apply(db1, delete + WriteOps(fnv, e)), true)
  }

  // ---------- Effect of batches ----------

  lemma {:induction false} ApplyAppend(db: DB, a: seq<Op>, b: seq<Op>)
    ensures Apply(db, a + b) == Apply(Apply(db, a), b)
  {
    if b == [] {
      assert a + b == a;
    } else {
      assert (a + b)[..|a + b| - 1] == a + b[..|b| - 1];
      ApplyAppend(db, a, b[..|b| - 1]);
    }
  }

  /** All these keys set to the empty value, or all deleted. */
  function Bulk(db: DB, keys: set<Key>, write: bool): DB {
    if write then db + map k | k in keys :: Empty else db - keys
  }

  lemma BulkOne(db: DB, keys: set<Key>, k: Key, write: bool)
    ensures Bulk(db, keys + {k}, write) ==
            if write then Bulk(db, keys, write)[k := Empty] else Bulk(db, keys, write) - {k}
  {
  }

  lemma TagKeysSnoc(fnv: Hash, e: Event, n: nat)
    requires 0 < n <= |e.tags|
    ensures TagKeys(fnv, e, n) == TagKeys(fnv, e, n - 1) +
              if IndexedTag(e.tags[n - 1]) then {TagKey(fnv, e, e.tags[n - 1])} else {}
  {
    hide FromHex, InvertTimestamp;
    forall k
      ensures k in TagKeys(fnv, e, n) <==>
              (k in TagKeys(fnv, e, n - 1) || (IndexedTag(e.tags[n - 1]) && k == TagKey(fnv, e, e.tags[n - 1])))
    {
    }
  }

  lemma {:induction false} TagOpsEffect(fnv: Hash, db: DB, e: Event, n: nat, write: bool)
    requires n <= |e.tags|
    ensures Apply(db, TagOps(fnv, InvertTimestamp(e.createdAt), FromHex(e.id), e.tags[..n], write))
            == Bulk(db, TagKeys(fnv, e, n), write)
  {
    var ts, id := InvertTimestamp(e.createdAt), FromHex(e.id);
    hide FromHex, InvertTimestamp;
    if n > 0 {
      var tag := e.tags[n - 1];
      var rest := TagOps(fnv, ts, id, e.tags[..n - 1], write);
      assert e.tags[..n][..n - 1] == e.tags[..n - 1];
      TagOpsEffect(fnv, db, e, n - 1, write);
      TagKeysSnoc(fnv, e, n);
      hide TagKeys, Bulk;
      if IndexedTag(tag) {
        var k := TagKey(fnv, e, tag);
        ApplyAppend(db, rest, [if write then Set(k, Empty) else Del(k)]);
        BulkOne(db, TagKeys(fnv, e, n - 1), k, write);
      } else {
        assert rest + [] == rest;
        assert TagKeys(fnv, e, n) == TagKeys(fnv, e, n - 1);
      }
    }
  }

  ghost predicate EventsAtOwnKeys(db: DB) {
    forall id :: GetEvent(db, id).Some? ==> FromHex(GetEvent(db, id).value.id) == id
  }

  /** Deleting a stored event removes exactly its own keys from whatever the batch is applied to. */
  lemma DeleteOpsEffect(fnv: Hash, db: DB, base: DB, id: Bytes)
    requires EventsAtOwnKeys(db)
    ensures Apply(base, DeleteOps(fnv, db, id)) ==
            match GetEvent(db, id) case None => base case Some(e) => base - OwnKeys(fnv, e)
  {
    hide FromHex, InvertTimestamp, FieldHashAuthor, FieldHashKind, TagKeys;
    if GetEvent(db, id).Some? {
      var e := GetEvent(db, id).value;
      var ts := InvertTimestamp(e.createdAt);
      var a, b := FieldKey(FieldHashAuthor(fnv, e.pubkey), ts, id), FieldKey(FieldHashKind(fnv, e.kind), ts, id);
      var fixed := [Del(EventKey(id)), Del(CreatedAtKey(ts, id)), Del(a), Del(b)];
      var tags := TagOps(fnv, ts, id, e.tags, false);
      ApplyFour(base, fixed);
      ApplyAppend(base, fixed, tags);
      TagOpsEffect(fnv, Apply(base, fixed), e, |e.tags|, false);
      assert e.tags[..|e.tags|] == e.tags;
    }
  }

  lemma ApplyFour(db: DB, ops: seq<Op>)
    requires |ops| == 4
    ensures Apply(db, ops) == Apply(Apply(Apply(Apply(db, [ops[0]]), [ops[1]]), [ops[2]]), [ops[3]])
  {
    assert ops == [ops[0]] + ([ops[1]] + ([ops[2]] + [ops[3]]));
    ApplyAppend(db, [ops[0]], [ops[1]] + ([ops[2]] + [ops[3]]));
    ApplyAppend(Apply(db, [ops[0]]), [ops[1]], [ops[2]] + [ops[3]]);
    ApplyAppend(Apply(Apply(db, [ops[0]]), [ops[1]]), [ops[2]], [ops[3]]);
  }

  function WrittenValues(fnv: Hash, e: Event): DB {
    map k | k in OwnKeys(fnv, e) :: if k.EventKey? then EventValue(e) else Empty
  }

  lemma WriteSets(db: DB, key: Key, v: Value, fixed: set<Key>, tags: set<Key>)
    requires key.EventKey? && (forall k :: k in fixed || k in tags ==> !k.EventKey?)
    ensures Bulk(Bulk(db, fixed, true)[key := v], tags, true)
            == db + map k | k in {key} + (fixed + tags) :: if k.EventKey? then v else Empty
  {
    var m := map k | k in {key} + (fixed + tags) :: if k.EventKey? then v else Empty;
    var l := Bulk(Bulk(db, fixed, true)[key := v], tags, true);
    forall k ensures k in l <==> k in db + m {}
    forall k | k in l ensures l[k] == (db + m)[k] {}
  }

  lemma WriteFixedTags(fnv: Hash, db: DB, e: Event)
    ensures Bulk(
              Bulk(db, FixedKeys(fnv, e), true)[EventKey(FromHex(e.id)) := EventValue(e)],
              TagKeys(fnv, e, |e.tags|), true)
            == db + WrittenValues(fnv, e)
  {
    hide FromHex, InvertTimestamp, FieldHashAuthor, FieldHashKind, Bulk;
    WriteSets(db, EventKey(FromHex(e.id)), EventValue(e), FixedKeys(fnv, e), TagKeys(fnv, e, |e.tags|));
  }

  /** Writing an event sets exactly its own keys and its address entry. */
  lemma WriteOpsEffect(fnv: Hash, db: DB, e: Event)
    ensures Apply(db, WriteOps(fnv, e)) ==
            if Address(e) != "" then (db + WrittenValues(fnv, e))[AddrKey(Address(e)) := IdValue(FromHex(e.id))]
            else db + WrittenValues(fnv, e)
  {
    hide FromHex, InvertTimestamp, FieldHashAuthor, FieldHashKind, Address;
    var id, ts := FromHex(e.id), InvertTimestamp(e.createdAt);
    var a, b := FieldKey(FieldHashAuthor(fnv, e.pubkey), ts, id), FieldKey(FieldHashKind(fnv, e.kind), ts, id);
    var fixed := [Set(EventKey(id), EventValue(e)), Set(CreatedAtKey(ts, id), Empty), Set(a, Empty), Set(b, Empty)];
    var tags := TagOps(fnv, ts, id, e.tags, true);
    var addr := if Address(e) != "" then [Set(AddrKey(Address(e)), IdValue(id))] else [];
    ApplyFour(db, fixed);
    assert Apply(db, fixed) == Bulk(db, FixedKeys(fnv, e), true)[EventKey(id) := EventValue(e)];
    ApplyAppend(db, fixed, tags);
    assert e.tags[..|e.tags|] == e.tags;
    TagOpsEffect(fnv, Apply(db, fixed), e, |e.tags|, true);
    WriteFixedTags(fnv, db, e);
    ApplyAppend(db, fixed + tags, addr);
  }

  // ---------- Effect of a deletion request ----------

  function TagDels(fnv: Hash, db: DB, k: Event, tag: Tag): set<Key> {
    match Victim(db, k, tag)
    case None => {}
    case Some(e) => OwnKeys(fnv, e) + if tag[0] == "a" then {AddrKey(tag[1])} else {}
  }

  function RequestDels(fnv: Hash, db: DB, k: Event, n: nat): set<Key>
    requires n <= |k.tags|
  {
    set i, key | 0 <= i < n && key in TagDels(fnv, db, k, k.tags[i]) :: key
  }

  function TagSets(k: Event, tag: Tag): DB {
    var value := RecordValue(RecordBytes(RecordOf(k)));
    if |tag| < 2 then map[]
    else if tag[0] == "e" && |tag[1]| == 64 then map[DeletedIdKey(FromHex(tag[1])) := value]
    else if tag[0] == "a" then map[DeletedAddrKey(tag[1]) := value]
    else map[]
  }

  function RequestSets(k: Event, n: nat): DB
    requires n <= |k.tags|
  {
    if n == 0 then map[] else RequestSets(k, n - 1) + TagSets(k, k.tags[n - 1])
  }

  predicate RecordKey(key: Key) {
    key.DeletedIdKey? || key.DeletedAddrKey?
  }

  lemma OwnKeysAreNoRecords(fnv: Hash, e: Event)
    ensures forall key :: key in OwnKeys(fnv, e) ==> !RecordKey(key) && !key.AddrKey?
  {
  }

  lemma RequestTagEffect(fnv: Hash, db: DB, base: DB, k: Event, tag: Tag)
    requires EventsAtOwnKeys(db)
    ensures Apply(base, RequestTagOps(fnv, db, k, tag)) == (base - TagDels(fnv, db, k, tag)) + TagSets(k, tag)
    ensures forall key :: key in TagDels(fnv, db, k, tag) ==> !RecordKey(key)
    ensures forall key :: key in TagSets(k, tag) ==> RecordKey(key)
  {
    hide FromHex, RecordBytes, DeleteOps, OwnKeys, GetEvent;
    var v := Victim(db, k, tag);
    if v.Some? {
      OwnKeysAreNoRecords(fnv, v.value);
      var id := VictimId(db, k, tag);
      var first := RequestTagOps(fnv, db, k, tag)[0];
      DeleteOpsEffect(fnv, db, Apply(base, [first]), id);
      if tag[0] == "e" {
        ApplyAppend(base, [first], DeleteOps(fnv, db, id));
      } else {
        var rest := DeleteOps(fnv, db, id) + [Del(AddrKey(tag[1]))];
        ApplyAppend(base, [first], rest);
        ApplyAppend(Apply(base, [first]), DeleteOps(fnv, db, id), [Del(AddrKey(tag[1]))]);
        assert RequestTagOps(fnv, db, k, tag) == [first] + rest;
      }
    }
  }

  lemma MinusPlus(db: DB, dels: set<Key>, sets: DB, dels': set<Key>, sets': DB)
    requires forall key :: key in dels' ==> !RecordKey(key)
    requires forall key :: key in sets ==> RecordKey(key)
    ensures ((db - dels) + sets - dels') + sets' == (db - (dels + dels')) + (sets + sets')
  {
  }

  lemma ApplyNothing(db: DB)
    ensures Apply(db, []) == db
  {
  }

  lemma RequestOpsEmpty(fnv: Hash, db: DB, k: Event)
    ensures RequestOps(fnv, db, k, 0) == [] && RequestDels(fnv, db, k, 0) == {} && RequestSets(k, 0) == map[]
  {
  }

  lemma RequestOpsSnoc(fnv: Hash, db: DB, k: Event, n: nat)
    requires n < |k.tags|
    ensures RequestOps(fnv, db, k, n + 1) == RequestOps(fnv, db, k, n) + RequestTagOps(fnv, db, k, k.tags[n])
    ensures RequestDels(fnv, db, k, n + 1) == RequestDels(fnv, db, k, n) + TagDels(fnv, db, k, k.tags[n])
    ensures RequestSets(k, n + 1) == RequestSets(k, n) + TagSets(k, k.tags[n])
  {
    hide TagDels, TagSets, RequestTagOps;
  }

  lemma {:induction false} RequestOpsEffect(fnv: Hash, db: DB, k: Event, n: nat)
    requires n <= |k.tags| && EventsAtOwnKeys(db)
    ensures Apply(db, RequestOps(fnv, db, k, n)) == (db - RequestDels(fnv, db, k, n)) + RequestSets(k, n)
    ensures forall key :: key in RequestSets(k, n) ==> RecordKey(key)
  {
    hide RequestOps, RequestTagOps, RequestDels, RequestSets, TagDels, TagSets, Apply, GetEvent;
    if n == 0 {
      RequestOpsEmpty(fnv, db, k);
      ApplyNothing(db);
    } else {
      var tag := k.tags[n - 1];
      var before := RequestOps(fnv, db, k, n - 1);
      RequestOpsSnoc(fnv, db, k, n - 1);
      RequestOpsEffect(fnv, db, k, n - 1);
      ApplyAppend(db, before, RequestTagOps(fnv, db, k, tag));
      RequestTagEffect(fnv, db, Apply(db, before), k, tag);
      MinusPlus(db, RequestDels(fnv, db, k, n - 1), RequestSets(k, n - 1), TagDels(fnv, db, k, tag), TagSets(k, tag));
    }
  }

  /** The records a request leaves: one for each reachable target. */
  lemma {:induction false} RequestSetsKeys(k: Event, n: nat, key: Key)
    requires n <= |k.tags|
    ensures key in RequestSets(k, n) <==>
              match key
              case DeletedIdKey(id) => exists x :: x in Targets("e", k.tags[..n]) && |x| == 64 && FromHex(x) == id
              case DeletedAddrKey(a) => a in Targets("a", k.tags[..n])
              case _ => false
    ensures key in RequestSets(k, n) ==> RequestSets(k, n)[key] == RecordValue(RecordBytes(RecordOf(k)))
  {
    hide FromHex, RecordBytes;
    if n > 0 {
      RequestSetsKeys(k, n - 1, key);
      TargetsSnoc("e", k.tags, n - 1);
      TargetsSnoc("a", k.tags, n - 1);
      hide Targets;
    }
  }
}
