/** What Pebble keeps over every history of well-formed events, whatever its deletion requests ask for,
    and whether or not memory would keep the same. */
module PebbleHistory {
  import opened Bytes
  import opened Events
  import opened Filters
  import opened Keys
  import opened StoreSpec
  import opened PebbleModel
  import opened Simulation
  import opened PebbleState
  import opened Scans
  import opened PebbleQuery
  import opened PebbleStorage

  ghost predicate AllWellFormedEvents(history: seq<Event>) {
    forall i :: 0 <= i < |history| ==> WellFormed(history[i])
  }

  /** The index entries are exactly those of the stored events. */
  ghost predicate IndexesExact(fnv: Hash, db: DB) {
    forall k :: IndexKey(k) ==>
      (k in db <==> exists id :: GetEvent(db, id).Some? && k in IndexKeys(fnv, GetEvent(db, id).value))
  }

  /** A stored event with an address is the one its address entry leads to, so the only one there. */
  ghost predicate AddressesCoherent(db: DB) {
    forall id :: GetEvent(db, id).Some? && Address(GetEvent(db, id).value) != "" ==>
      AtAddress(db, Address(GetEvent(db, id).value)) == GetEvent(db, id)
  }

  /** No stored event, requests aside, lies under the current record for its id by its author. */
  ghost predicate IdRecordsHold(db: DB) {
    forall id :: GetEvent(db, id).Some? && RecordBy(GetRecord(db, DeletedIdKey(id)), GetEvent(db, id).value.pubkey) ==>
      GetEvent(db, id).value.kind == 5
  }

  /** Nor under the current record for its address by its author, unless it is newer. */
  ghost predicate AddrRecordsHold(db: DB) {
    forall id :: GetEvent(db, id).Some? ==>
      var e := GetEvent(db, id).value;
      var r := GetRecord(db, DeletedAddrKey(Address(e)));
      Address(e) != "" && RecordBy(r, e.pubkey) ==> r.value.createdAt < e.createdAt
  }

  ghost predicate Consistent(fnv: Hash, db: DB) {
    && EventsAtOwnKeys(db) && IndexesExact(fnv, db) && AddressesCoherent(db)
    && IdRecordsHold(db) && AddrRecordsHold(db)
  }

  lemma StoredAt(fnv: Hash, slot: Slot, s: State, db: DB, id: Bytes)
    requires Represents(fnv, slot, s, db) && GetEvent(db, id).Some?
    ensures var e := GetEvent(db, id).value;
            Live(s, e) && WellFormed(e) && |id| == 32 && ToHex(id) == e.id && FromHex(e.id) == id
  {
    GetLive(fnv, slot, s, db, id);
    hide FromHex, Address, KeyAgrees;
  }

  lemma RepresentedIsConsistent(fnv: Hash, slot: Slot, s: State, db: DB)
    requires Represents(fnv, slot, s, db)
    ensures Consistent(fnv, db)
  {
    OwnKeysHold(fnv, slot, s, db);
    hide Represents, FromHex, ToHex, Address, IndexKeys, WellFormed, GetEvent;
    forall k | IndexKey(k)
      ensures k in db <==> exists id :: GetEvent(db, id).Some? && k in IndexKeys(fnv, GetEvent(db, id).value)
    {
      IndexedIsStored(fnv, slot, s, db, k);
    }
    forall id | GetEvent(db, id).Some?
      ensures var e := GetEvent(db, id).value;
              && (Address(e) != "" ==> AtAddress(db, Address(e)) == Some(e))
              && (RecordBy(GetRecord(db, DeletedIdKey(id)), e.pubkey) ==> e.kind == 5)
              && (var r := GetRecord(db, DeletedAddrKey(Address(e)));
                  Address(e) != "" && RecordBy(r, e.pubkey) ==> r.value.createdAt < e.createdAt)
    {
      var e := GetEvent(db, id).value;
      StoredAt(fnv, slot, s, db, id);
      if Address(e) != "" {
        AddressesAreCoherent(fnv, slot, s, db, e);
      }
      RecordsAgree(fnv, slot, s, db, e);
      LiveIsCurrent(fnv, slot, s, db, e);
    }
    hide AtAddress, GetRecord, EventsAtOwnKeys;
  }

  lemma LiveIsCurrent(fnv: Hash, slot: Slot, s: State, db: DB, e: Event)
    requires Represents(fnv, slot, s, db) && Live(s, e)
    ensures (DeletedById(s, e) ==> e.kind == 5) && !DeletedByAddress(s, e)
  {
    hide Address, KeyAgrees;
  }

  lemma IndexedIsStored(fnv: Hash, slot: Slot, s: State, db: DB, k: Key)
    requires Represents(fnv, slot, s, db) && IndexKey(k)
    ensures k in db <==> exists id :: GetEvent(db, id).Some? && k in IndexKeys(fnv, GetEvent(db, id).value)
  {
    IndexesAreExact(fnv, slot, s, db, k);
    hide FromHex, ToHex, IndexKeys, Address, GetEvent, Represents;
    if k in db {
      var x :| x in s.live && k in IndexKeys(fnv, s.live[x]);
      LiveIsWellFormed(fnv, slot, s, db, x);
      LiveAt(fnv, slot, s, db, x);
      assert GetEvent(db, FromHex(x)).Some?;
    }
    if id :| GetEvent(db, id).Some? && k in IndexKeys(fnv, GetEvent(db, id).value) {
      StoredAt(fnv, slot, s, db, id);
    }
  }

  /** After every call of every history the database is consistent. */
  lemma AlwaysConsistent(fnv: Hash, history: seq<Event>)
    requires AllWellFormedEvents(history)
    ensures Consistent(fnv, RunPebble(fnv, map[], history))
  {
    hide WellFormed, Represents, Consistent, RunPebble, RunState;
    HistoryStep(fnv, ANYWHERE, history);
    RepresentedIsConsistent(fnv, ANYWHERE, RunState(fnv, history), RunPebble(fnv, map[], history));
  }

  /** So it is between the two commits of the next request, before the request itself is written. */
  lemma ConsistentBetweenCommits(fnv: Hash, history: seq<Event>, k: Event)
    requires AllWellFormedEvents(history) && WellFormed(k)
    ensures Consistent(fnv, var db := RunPebble(fnv, map[], history); Apply(db, RequestOps(fnv, db, k, |k.tags|)))
  {
    hide Represents, Consistent, RunPebble, RunState, PebbleDelete, Apply, RequestOps;
    HistoryStep(fnv, ANYWHERE, history);
    var s, db := RunState(fnv, history), RunPebble(fnv, map[], history);
    RequestStep(fnv, ANYWHERE, s, db, k);
    RepresentedIsConsistent(fnv, ANYWHERE, PebbleDelete(s, k, ReachedIds(db, k)),
                            Apply(db, RequestOps(fnv, db, k, |k.tags|)));
  }

  /** When ids identify addresses, the state after a history can be told from the history alone. */
  function RunSteps(history: seq<Event>): State {
    if history == [] then EMPTY else PebbleStep(RunSteps(history[..|history| - 1]), history[|history| - 1]).0
  }

  lemma {:induction false} HistoryIsSteps(fnv: Hash, slot: Slot, history: seq<Event>)
    requires Precise(slot) && forall i :: 0 <= i < |history| ==> Placed(slot, history[i])
    ensures RunState(fnv, history) == RunSteps(history)
    ensures Represents(fnv, slot, RunSteps(history), RunPebble(fnv, map[], history))
  {
    hide Represents, Precise, Placed, PebbleModel.Store, PebbleNext, PebbleStep;
    HistoryStep(fnv, slot, history);
    if history != [] {
      var h := history[..|history| - 1];
      HistoryIsSteps(fnv, slot, h);
      NextIsStep(fnv, slot, RunSteps(h), RunPebble(fnv, map[], h), history[|history| - 1]);
    }
  }

  // ---------- Queries ----------

  ghost function Stored(db: DB): set<Event> {
    set k | k in db && k.EventKey? && db[k].EventValue? :: db[k].event
  }

  lemma StoredAreLive(fnv: Hash, slot: Slot, s: State, db: DB)
    requires Represents(fnv, slot, s, db)
    ensures Stored(db) == s.live.Values
  {
    hide FromHex, ToHex, Address, IndexKeys, GoodState;
    forall e | e in Stored(db) ensures e in s.live.Values {
      var k :| k in db && k.EventKey? && db[k].EventValue? && db[k].event == e;
      assert KeyAgrees(fnv, slot, s, db, k);
      assert ToHex(k.id) in s.live.Keys;
    }
    forall e | e in s.live.Values ensures e in Stored(db) {
      var id :| id in s.live && s.live[id] == e;
      LiveIsWellFormed(fnv, slot, s, db, id);
      LiveAt(fnv, slot, s, db, id);
      assert EventKey(FromHex(id)) in db;
    }
  }

  /** A stored request stays stored through every history in which its id is never that of an event
      with an address. */
  lemma {:induction false} RequestsLast(fnv: Hash, history: seq<Event>, e: Event, i: nat)
    requires AllWellFormedEvents(history) && i <= |history|
    requires forall j :: 0 <= j < |history| && history[j].id == e.id ==> Address(history[j]) == ""
    requires e in Stored(RunPebble(fnv, map[], history[..i])) && e.kind == 5
    ensures e in Stored(RunPebble(fnv, map[], history))
  {
    hide Represents, WellFormed, Address, RunPebble, RunState, PebbleNext, PebbleModel.Store, Stored;
    if i == |history| {
      assert history[..i] == history;
    } else {
      var n := |history| - 1;
      var most, x := history[..n], history[n];
      assert most[..i] == history[..i];
      RequestsLast(fnv, most, e, i);
      var slot: Slot := (id: string) => if id == e.id then Some("") else None;
      HistoryStep(fnv, slot, most);
      var s, db := RunState(fnv, most), RunPebble(fnv, map[], most);
      StoredIsLive(fnv, slot, s, db, e);
      StoreStep(fnv, slot, s, db, x);
      RequestIsKept(fnv, slot, s, db, x, e.id);
      PebbleExtends(fnv, history, n);
      assert history[..n + 1] == history;
      StoredIsLive(fnv, slot, PebbleNext(s, db, x), RunPebble(fnv, map[], history), e);
    }
  }

  lemma StoredIsLive(fnv: Hash, slot: Slot, s: State, db: DB, e: Event)
    requires Represents(fnv, slot, s, db)
    ensures e in Stored(db) <==> Live(s, e)
  {
    StoredAreLive(fnv, slot, s, db);
    hide Represents, Stored;
    if id :| id in s.live && s.live[id] == e {
      LiveIsWellFormed(fnv, slot, s, db, id);
    }
  }

  lemma PebbleExtends(fnv: Hash, history: seq<Event>, i: nat)
    requires i < |history|
    ensures var db, e := RunPebble(fnv, map[], history[..i]), history[i];
            && RunPebble(fnv, map[], history[..i + 1]) == PebbleModel.Store(fnv, db, e).0
            && PebbleAnswers(fnv, map[], history[..i + 1]) ==
               PebbleAnswers(fnv, map[], history[..i]) + [PebbleModel.Store(fnv, db, e).1]
  {
    hide PebbleModel.Store;
    assert history[..i + 1][..i] == history[..i] && history[..i + 1][i] == history[i];
  }

  lemma NothingStored(fnv: Hash, history: seq<Event>)
    ensures RunPebble(fnv, map[], history[..0]) == map[] && PebbleAnswers(fnv, map[], history[..0]) == []
  {
  }

  lemma WellFormedIds(e: Event)
    ensures WellFormed(e) ==> |e.id| == 64 && |e.pubkey| == 64
  {
  }

  /** Drive the storage through any history of well-formed events and ask it anything: the answer is
      the right one for the events it then stores. */
  method QueryAfter(fnv: Hash, sha: string -> Bytes, history: seq<Event>, filters: seq<Filter>)
      returns (db: DB, stored: seq<bool>, out: seq<Event>)
    requires ShaFits(sha) && AllWellFormedEvents(history)
    ensures db == RunPebble(fnv, map[], history) && stored == PebbleAnswers(fnv, map[], history)
    ensures Consistent(fnv, db) && IsAnswer(Stored(db), AllEffective(filters), out)
    ensures Admitted((set e | e in Stored(db) && BoundedMatch(filters, e)), filters, out)
  {
    NothingStored(fnv, history);
    AlwaysConsistent(fnv, history);
    HistoryStep(fnv, ANYWHERE, history);
    hide Represents, Consistent, IsAnswer, Admitted, RunPebble, RunState, PebbleAnswers, WellFormed, PebbleModel.Store;
    var storage := new PebbleStorage(fnv);
    stored := [];
    for i := 0 to |history|
      invariant storage.fnv == fnv && storage.db == RunPebble(fnv, map[], history[..i])
      invariant stored == PebbleAnswers(fnv, map[], history[..i])
    {
      PebbleExtends(fnv, history, i);
      WellFormedIds(history[i]);
      var ok := storage.Store(history[i]);
      stored := stored + [ok];
    }
    assert history[..|history|] == history;
    db := storage.db;
    ghost var s := RunState(fnv, history);
    StoredAreLive(fnv, ANYWHERE, s, db);
    out := PebbleQuery.Query(fnv, sha, db, filters, ANYWHERE, s);
  }
}
