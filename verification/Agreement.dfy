/** The two storages side by side: every history, every query, and exactly what agreement needs. */
module Agreement {
  import opened Bytes
  import opened Events
  import opened Filters
  import opened Keys
  import opened StoreSpec
  import opened PebbleModel
  import opened Simulation
  import opened PebbleState
  import opened PebbleHistory
  import opened Scans
  import opened PebbleQuery
  import opened MemoryStorage
  import opened PebbleStorage

  /** Events with one id live at one address. */
  ghost predicate IdsIdentifyAddresses(history: seq<Event>) {
    forall i, j :: 0 <= i < |history| && 0 <= j < |history| && history[i].id == history[j].id ==>
      Address(history[i]) == Address(history[j])
  }

  /** Every accepted request is one that keeps the stores in step. */
  ghost predicate AllInStep(history: seq<Event>) {
    forall i :: 0 <= i < |history| ==> InStep(Run(EMPTY, history[..i]), history[i])
  }

  ghost predicate Agreeable(history: seq<Event>) {
    AllWellFormedEvents(history) && IdsIdentifyAddresses(history) && AllInStep(history)
  }

  ghost function AddressOfId(history: seq<Event>, id: string): string {
    if history == [] then ""
    else if history[0].id == id then Address(history[0])
    else AddressOfId(history[1..], id)
  }

  lemma {:induction false} AddressFound(history: seq<Event>, i: nat)
    requires IdsIdentifyAddresses(history) && i < |history|
    ensures AddressOfId(history, history[i].id) == Address(history[i])
  {
    hide Address;
    if history[0].id != history[i].id {
      assert history[1..][i - 1] == history[i];
      assert IdsIdentifyAddresses(history[1..]) by {
        forall k, j | 0 <= k < |history| - 1 && 0 <= j < |history| - 1 && history[1..][k].id == history[1..][j].id
          ensures Address(history[1..][k]) == Address(history[1..][j])
        {
          assert history[1..][k] == history[k + 1] && history[1..][j] == history[j + 1];
        }
      }
      AddressFound(history[1..], i - 1);
    }
  }

  /** Such a history assigns every id its address. */
  lemma SlotOfHistory(history: seq<Event>) returns (slot: Slot)
    requires AllWellFormedEvents(history) && IdsIdentifyAddresses(history)
    ensures Precise(slot) && forall i :: 0 <= i < |history| ==> Placed(slot, history[i])
  {
    hide Address;
    slot := (id: string) => Some(AddressOfId(history, id));
    forall i | 0 <= i < |history| ensures Placed(slot, history[i]) {
      AddressFound(history, i);
    }
  }

  /** What a request can make sure of by itself: lower-case `e` values, no empty `a` value, and not
      its own id. */
  predicate Clean(e: Event) {
    NoEmptyATag(e) && LowerETags(e) && SparesItself(e)
  }

  /** Histories of clean events are agreeable. */
  lemma CleanHistories(history: seq<Event>)
    requires AllWellFormedEvents(history) && IdsIdentifyAddresses(history)
    requires forall i :: 0 <= i < |history| ==> Clean(history[i])
    ensures Agreeable(history)
  {
    hide IdsIdentifyAddresses, AllWellFormedEvents, InStep, Placed, NoEmptyATag, LowerETags, SparesItself;
    var slot := SlotOfHistory(history);
    forall i | 0 <= i < |history| ensures InStep(Run(EMPTY, history[..i]), history[i]) {
      assert Clean(history[i]);
      DecentIsInStep(slot, Run(EMPTY, history[..i]), history[i]);
    }
  }

  /** Without requests Pebble, too, stores at the end exactly the events that survive, whatever their
      order and repetition. */
  lemma {:induction false} PebbleConverges(fnv: Hash, history: seq<Event>)
    requires AllWellFormedEvents(history) && IdsIdentify(history)
    requires forall i :: 0 <= i < |history| ==> history[i].kind != 5
    ensures forall e :: e in Stored(RunPebble(fnv, map[], history)) <==> Survives(history, e)
  {
    hide Address, Represents, Run, RunPebble, AllWellFormedEvents, Survives, Stored;
    assert IdsIdentifyAddresses(history);
    assert AllInStep(history);
    var slot := SlotOfHistory(history);
    HistoryExact(fnv, slot, history);
    AgreedAtTheEnd(fnv, slot, history);
    Convergence(history);
    var s := Run(EMPTY, history);
    StoredAreLive(fnv, slot, s, RunPebble(fnv, map[], history));
    forall e ensures e in s.live.Values <==> Live(s, e) {
      if id :| id in s.live && s.live[id] == e {
        assert s.live[id].id == id;
      }
    }
  }

  /** So histories of the same events leave the same events stored. */
  lemma {:induction false} SameEventsSameStored(fnv: Hash, h1: seq<Event>, h2: seq<Event>)
    requires AllWellFormedEvents(h1) && IdsIdentify(h1) && AllWellFormedEvents(h2) && IdsIdentify(h2)
    requires forall i :: 0 <= i < |h1| ==> h1[i].kind != 5
    requires forall i :: 0 <= i < |h2| ==> h2[i].kind != 5
    requires forall e :: e in h1 <==> e in h2
    ensures Stored(RunPebble(fnv, map[], h1)) == Stored(RunPebble(fnv, map[], h2))
  {
    hide Address, TypeOf, Before, RunPebble, Stored, AllWellFormedEvents, IdsIdentify;
    PebbleConverges(fnv, h1);
    PebbleConverges(fnv, h2);
    forall e ensures Survives(h1, e) <==> Survives(h2, e) {}
  }

  /** The two answers are the same exactly when every event memory finds has a bounded match: Pebble
      answers the other filters with nothing. */
  lemma MinSinceExact(live: set<Event>, filters: seq<Filter>, mem: seq<Event>, peb: seq<Event>)
    requires DistinctIds(live)
    requires IsAnswer(live, filters, mem) && IsAnswer(live, AllEffective(filters), peb)
    ensures mem == peb <==> forall e :: e in mem ==> BoundedMatch(filters, e)
  {
    hide Before, Matches, Effective, Boundable, Ordered;
    forall e
      ensures MatchesAny(AllEffective(filters), e) <==> BoundedMatch(filters, e) { EffectiveMatches(filters, e); }
    hide BoundedMatch;
    if forall e :: e in mem ==> MatchesAny(AllEffective(filters), e) {
      assert IsAnswer(live, AllEffective(filters), mem);
      AnswerUnique(live, AllEffective(filters), mem, peb);
    }
  }

  /** Two right answers from two right storages. */
  lemma SameAnswer(fnv: Hash, slot: Slot, s: State, db: DB, filters: seq<Filter>, mem: seq<Event>, peb: seq<Event>)
    requires Represents(fnv, slot, s, db)
    requires IsAnswer(s.live.Values, filters, mem) && IsAnswer(s.live.Values, AllEffective(filters), peb)
    ensures mem == peb <==> forall e :: e in mem ==> BoundedMatch(filters, e)
    ensures (forall i :: 0 <= i < |filters| ==> Boundable(filters[i])) ==> mem == peb
  {
    DatabaseFacts(fnv, slot, s, db);
    hide Boundable, Matches, Represents, Ordered;
    MinSinceExact(s.live.Values, filters, mem, peb);
    assert forall e :: e in mem ==> MatchesAny(filters, e);
  }

  /** The flags of the calls of a history on memory. */
  function Answers(s: State, history: seq<Event>): seq<bool> {
    if history == [] then []
    else
      var h := history[..|history| - 1];
      Answers(s, h) + [StoreSpec.Store(Run(s, h), history[|history| - 1]).1]
  }

  /** Both storages through one history: every call gets the same answer. */
  method Replay(fnv: Hash, history: seq<Event>)
      returns (mem: InMemoryStorage, peb: PebbleStorage, memStored: seq<bool>, pebStored: seq<bool>)
    requires Agreeable(history)
    ensures mem.Valid() && mem.State() == Run(EMPTY, history)
    ensures peb.fnv == fnv && peb.db == RunPebble(fnv, map[], history)
    ensures memStored == pebStored == Answers(EMPTY, history)
  {
    ghost var slot := SlotOfHistory(history);
    HistoryExact(fnv, slot, history);
    RunsStart(fnv, history);
    hide InAgreement, AllInStep, StoreSpec.Store, PebbleModel.Store, InMemoryStorage.State, IdsIdentifyAddresses,
         WellFormed, Run, RunPebble, Answers, PebbleAnswers;
    mem := new InMemoryStorage();
    peb := new PebbleStorage(fnv);
    memStored, pebStored := [], [];
    for i := 0 to |history|
      invariant mem.Valid() && mem.State() == Run(EMPTY, history[..i])
      invariant peb.fnv == fnv && peb.db == RunPebble(fnv, map[], history[..i])
      invariant memStored == Answers(EMPTY, history[..i]) && pebStored == PebbleAnswers(fnv, map[], history[..i])
    {
      RunsExtend(fnv, history, i);
      WellFormedIds(history[i]);
      var m := mem.Store(history[i]);
      var p := peb.Store(history[i]);
      memStored, pebStored := memStored + [m], pebStored + [p];
    }
    assert history[..|history|] == history;
  }

  lemma RunsStart(fnv: Hash, history: seq<Event>)
    ensures Run(EMPTY, history[..0]) == EMPTY && RunPebble(fnv, map[], history[..0]) == map[]
    ensures Answers(EMPTY, history[..0]) == [] == PebbleAnswers(fnv, map[], history[..0])
  {
  }

  lemma RunsExtend(fnv: Hash, history: seq<Event>, i: nat)
    requires i < |history|
    ensures var s, db, e := Run(EMPTY, history[..i]), RunPebble(fnv, map[], history[..i]), history[i];
            && Run(EMPTY, history[..i + 1]) == StoreSpec.Store(s, e).0
            && RunPebble(fnv, map[], history[..i + 1]) == PebbleModel.Store(fnv, db, e).0
            && Answers(EMPTY, history[..i + 1]) == Answers(EMPTY, history[..i]) + [StoreSpec.Store(s, e).1]
            && PebbleAnswers(fnv, map[], history[..i + 1]) ==
               PebbleAnswers(fnv, map[], history[..i]) + [PebbleModel.Store(fnv, db, e).1]
  {
    PebbleExtends(fnv, history, i);
    hide StoreSpec.Store, PebbleModel.Store, RunPebble, PebbleAnswers;
    assert history[..i + 1][..i] == history[..i] && history[..i + 1][i] == history[i];
  }

  /** Drive both storages through one history and ask both the same query: every call gets the
      same answer, and the queries yield the same events in the same order, for bounded filters
      always and for others exactly when every event memory finds has a bounded match. */
  method Differential(fnv: Hash, sha: string -> Bytes, history: seq<Event>, filters: seq<Filter>)
      returns (memStored: seq<bool>, pebStored: seq<bool>, memOut: seq<Event>, pebOut: seq<Event>)
    requires ShaFits(sha) && Agreeable(history)
    ensures memStored == pebStored == Answers(EMPTY, history)
    ensures IsAnswer(Run(EMPTY, history).live.Values, filters, memOut)
    ensures memOut == pebOut <==> forall e :: e in memOut ==> BoundedMatch(filters, e)
    ensures (forall i :: 0 <= i < |filters| ==> Boundable(filters[i])) ==> memOut == pebOut
  {
    ghost var slot := SlotOfHistory(history);
    HistoryExact(fnv, slot, history);
    AgreedAtTheEnd(fnv, slot, history);
    hide InAgreement, Represents, IsAnswer, Boundable, BoundedMatch, Agreeable, InMemoryStorage.State, Run, RunPebble,
         Answers, PebbleAnswers;
    var mem, peb, m, p := Replay(fnv, history);
    memStored, pebStored := m, p;
    memOut := mem.Query(filters);
    pebOut := PebbleQuery.Query(fnv, sha, peb.db, filters, slot, Run(EMPTY, history));
    SameAnswer(fnv, slot, Run(EMPTY, history), peb.db, filters, memOut, pebOut);
  }

  // ---------- Exactly what agreement needs ----------

  /** A deletion request that names itself is dropped by one storage and kept by the other. */
  lemma SelfDeletionDivides(fnv: Hash, slot: Slot, s: State, db: DB, e: Event)
    requires Represents(fnv, slot, s, db) && Placed(slot, e) && e.kind == 5 && !Rejected(s, e) && !Refused(db, e)
    requires e.id in Targets("e", e.tags)
    ensures e.id !in StoreSpec.Store(s, e).0.live
    ensures GetEvent(PebbleModel.Store(fnv, db, e).0, FromHex(e.id)) == Some(e)
  {
    StoreRequestStep(fnv, slot, s, db, e);
    hide Refused, TypeOf, Address, FromHex, ToHex, Targets, ReachedIds, ReadIds, Represents, Removes, PebbleModel.Store;
    LiveAt(fnv, slot, PebbleNext(s, db, e), PebbleModel.Store(fnv, db, e).0, e.id);
  }

  /** An empty `a` value deletes regular events from memory only: whichever it reaches stays in Pebble
      unless it goes by an id that Pebble reads in an `e` value. */
  lemma EmptyATagDivides(fnv: Hash, slot: Slot, s: State, db: DB, k: Event, v: Event)
    requires Represents(fnv, slot, s, db) && Precise(slot) && "" in Targets("a", k.tags)
    requires Live(s, v) && Address(v) == "" && v.pubkey == k.pubkey && v.createdAt <= k.createdAt
    ensures v.id !in Delete(s, k).live
    ensures GetEvent(Apply(db, RequestOps(fnv, db, k, |k.tags|)), FromHex(v.id)) ==
            if v.kind != 5 && v.id in ReadIds(k) then None else Some(v)
  {
    hide FromHex, RequestOps, Targets, Represents, Address, ReachedIds, ReadIds, Apply;
    ReachedAreReached(fnv, slot, s, db, k);
    LeftAfterRequest(fnv, slot, s, db, k, v);
  }

  /** The commit of a request removes the live events reached and no other. */
  lemma LeftAfterRequest(fnv: Hash, slot: Slot, s: State, db: DB, k: Event, v: Event)
    requires Represents(fnv, slot, s, db) && Live(s, v)
    ensures GetEvent(Apply(db, RequestOps(fnv, db, k, |k.tags|)), FromHex(v.id)) ==
            if v.id in ReachedIds(db, k) then None else Some(v)
  {
    var key := EventKey(FromHex(v.id));
    LiveIsWellFormed(fnv, slot, s, db, v.id);
    LiveAt(fnv, slot, s, db, v.id);
    HexBack(v.id);
    OwnKeysHold(fnv, slot, s, db);
    RequestOpsEffect(fnv, db, k, |k.tags|);
    RequestSetsKeys(k, |k.tags|, key);
    DelsAreRemovals(fnv, slot, s, db, k, key);
    OwnKeysSplit(fnv, v, key);
    hide FromHex, ToHex, RequestOps, RequestDels, RequestSets, Represents, Address, ReachedIds, OwnKeys, Apply;
  }

  /** An id that Pebble reads in an `e` value and memory does not mark: the stores part. */
  lemma SpellingDivides(fnv: Hash, slot: Slot, s: State, db: DB, k: Event, x: string)
    requires Represents(fnv, slot, s, db) && WellFormed(k) && k.kind == 5
    requires x in Targets("e", k.tags) && |x| == 64 && !Marked(s, k, Spelled(x))
    ensures !KeyAgrees(fnv, slot, Delete(s, k), Apply(db, RequestOps(fnv, db, k, |k.tags|)), DeletedIdKey(FromHex(x)))
    ensures DeletedIdKey(FromHex(x)) in Apply(db, RequestOps(fnv, db, k, |k.tags|))
  {
    var key, r := DeletedIdKey(FromHex(x)), RecordOf(k);
    assert k.tags[..|k.tags|] == k.tags;
    OwnKeysHold(fnv, slot, s, db);
    RequestOpsEffect(fnv, db, k, |k.tags|);
    RequestSetsKeys(k, |k.tags|, key);
    RecordRoundTrip(r);
    if Spelled(x) in s.deletedIds {
      RecordRoundTrip(s.deletedIds[Spelled(x)]);
    }
    hide FromHex, ToHex, RequestOps, RequestDels, Targets, RequestSets, RecordBytes, DecodeRecord, Represents, Kept;
    var t, d := Delete(s, k), Apply(db, RequestOps(fnv, db, k, |k.tags|));
    assert key in d && d[key] == RecordValue(RecordBytes(r));
    assert !KeyAgrees(fnv, slot, t, d, key);
  }

  lemma GoodAfterDelete(slot: Slot, s: State, k: Event)
    requires GoodState(slot, s) && WellFormed(k)
    ensures GoodState(slot, Delete(s, k))
  {
    DeleteKeepsInvariant(s, k);
    hide Address, Targets, Removes, Invariant, Fits;
  }

  lemma StoredParts(s: State, e: Event)
    ensures var t, d := StoreSpec.Store(s, e).0, Delete(s, e);
            && (forall id :: id in t.live ==>
                  (t.live[id] == e && id == e.id) || (id in s.live && t.live[id] == s.live[id]))
            && (t.deletedIds == s.deletedIds || t.deletedIds == d.deletedIds)
            && (t.deletedAddrs == s.deletedAddrs || t.deletedAddrs == d.deletedAddrs)
  {
    hide Address, TypeOf, Rejected, DeletedById, BeatsHolders, Removes, Mark, Targets;
  }

  lemma GoodAfterStore(slot: Slot, s: State, e: Event)
    requires GoodState(slot, s) && Placed(slot, e)
    ensures GoodState(slot, StoreSpec.Store(s, e).0)
  {
    StoreKeepsInvariant(s, e);
    GoodAfterDelete(slot, s, e);
    StoredParts(s, e);
    hide Address, Invariant, WellFormed, Delete, Fits, StoreSpec.Store;
  }

  /** After the commit of a request the stores agree exactly when Pebble could follow it: it reads in
      the `e` values only ids that memory marks as well, and everything memory removes is named by id
      or lives at an address. */
  lemma RequestExact(fnv: Hash, slot: Slot, s: State, db: DB, k: Event)
    requires Represents(fnv, slot, s, db) && Precise(slot) && WellFormed(k) && k.kind == 5
    ensures Represents(fnv, slot, Delete(s, k), Apply(db, RequestOps(fnv, db, k, |k.tags|))) <==> Followable(s, k)
  {
    GoodAfterDelete(slot, s, k);
    RequestStep(fnv, slot, s, db, k);
    ReachedAreReached(fnv, slot, s, db, k);
    DeleteExact(slot, s, k);
    var t, p, d := Delete(s, k), PebbleDelete(s, k, Reached(s, k)), Apply(db, RequestOps(fnv, db, k, |k.tags|));
    hide Represents, GoodState, Alike, Followable, Delete, PebbleDelete, RequestOps;
    if Alike(t, p) {
      AlikeBack(t, p);
      AlikeRepresents(fnv, slot, p, t, d);
    }
    if Represents(fnv, slot, t, d) {
      RepresentedAreAlike(fnv, slot, t, p, d);
    }
  }

  lemma AlikeBack(s: State, t: State)
    requires Alike(s, t)
    ensures Alike(t, s)
  {
  }

  /** One call on both storages: the flags are always the same, and the stores stay in step exactly
      when the event is no accepted request, or Pebble can follow it and it spares itself. */
  lemma StoreExact(fnv: Hash, slot: Slot, s: State, db: DB, e: Event)
    requires Represents(fnv, slot, s, db) && Precise(slot) && Placed(slot, e)
    ensures StoreSpec.Store(s, e).1 == PebbleModel.Store(fnv, db, e).1
    ensures Represents(fnv, slot, StoreSpec.Store(s, e).0, PebbleModel.Store(fnv, db, e).0) <==> InStep(s, e)
  {
    GoodAfterStore(slot, s, e);
    StoreStep(fnv, slot, s, db, e);
    NextIsStep(fnv, slot, s, db, e);
    StepExact(slot, s, e);
    var t, p, d := StoreSpec.Store(s, e).0, PebbleStep(s, e).0, PebbleModel.Store(fnv, db, e).0;
    hide Represents, GoodState, Alike, InStep, StoreSpec.Store, PebbleModel.Store, PebbleStep, PebbleNext, Placed;
    if Alike(t, p) {
      AlikeBack(t, p);
      AlikeRepresents(fnv, slot, p, t, d);
    }
    if Represents(fnv, slot, t, d) {
      RepresentedAreAlike(fnv, slot, t, p, d);
    }
  }

  /** Both stores say the same after each of the first calls. */
  ghost predicate InAgreement(fnv: Hash, slot: Slot, history: seq<Event>) {
    forall i :: 0 <= i <= |history| ==>
      Represents(fnv, slot, Run(EMPTY, history[..i]), RunPebble(fnv, map[], history[..i]))
  }

  lemma CallsExtend(fnv: Hash, slot: Slot, history: seq<Event>, n: nat)
    requires n < |history| && |history| == n + 1
    ensures InAgreement(fnv, slot, history) <==>
              InAgreement(fnv, slot, history[..n]) &&
              Represents(fnv, slot, Run(EMPTY, history[..n + 1]), RunPebble(fnv, map[], history[..n + 1]))
    ensures AllInStep(history) <==> AllInStep(history[..n]) && InStep(Run(EMPTY, history[..n]), history[n])
  {
    hide Represents, InStep, Run, RunPebble;
    var most := history[..n];
    assert history[..n + 1] == history && most[..n] == most;
    assert forall i :: 0 <= i <= n ==> most[..i] == history[..i];
  }

  /** Over every history of well-formed events whose ids identify addresses: the stores agree after
      every call exactly when every call keeps them in step. */
  lemma {:induction false} HistoryExact(fnv: Hash, slot: Slot, history: seq<Event>)
    requires Precise(slot) && forall i :: 0 <= i < |history| ==> Placed(slot, history[i])
    ensures InAgreement(fnv, slot, history) <==> AllInStep(history)
    ensures AllInStep(history) ==> PebbleAnswers(fnv, map[], history) == Answers(EMPTY, history)
  {
    hide Represents, Precise, Placed, InStep, StoreSpec.Store, PebbleModel.Store, InAgreement, AllInStep, Run,
         RunPebble, Answers, PebbleAnswers;
    if history == [] {
      AgreedAtTheStart(fnv, slot);
    } else {
      var n := |history| - 1;
      CallsExtend(fnv, slot, history, n);
      RunsExtend(fnv, history, n);
      assert history[..n + 1] == history;
      HistoryExact(fnv, slot, history[..n]);
      if InAgreement(fnv, slot, history[..n]) {
        AgreedAtTheEnd(fnv, slot, history[..n]);
        StoreExact(fnv, slot, Run(EMPTY, history[..n]), RunPebble(fnv, map[], history[..n]), history[n]);
      }
    }
  }

  lemma AgreedAtTheStart(fnv: Hash, slot: Slot)
    ensures InAgreement(fnv, slot, []) && AllInStep([])
    ensures PebbleAnswers(fnv, map[], []) == Answers(EMPTY, [])
  {
    hide Represents;
    EmptyRepresents(fnv, slot);
    var none: seq<Event> := [];
    assert none[..0] == none;
  }

  lemma AgreedAtTheEnd(fnv: Hash, slot: Slot, history: seq<Event>)
    requires InAgreement(fnv, slot, history)
    ensures Represents(fnv, slot, Run(EMPTY, history), RunPebble(fnv, map[], history))
  {
    assert history[..|history|] == history;
  }

  /** An `e` value that spells an id in other than lower-case digits names the event for Pebble only. */
  lemma UpperCaseDivides(fnv: Hash, slot: Slot, s: State, db: DB, k: Event, v: Event)
    requires Represents(fnv, slot, s, db) && k.kind == 5
    requires Live(s, v) && v.pubkey == k.pubkey && v.kind != 5
    requires v.id in ReadIds(k) && v.id !in Targets("e", k.tags)
    requires Address(v) in Targets("a", k.tags) ==> v.createdAt > k.createdAt
    ensures Live(Delete(s, k), v)
    ensures GetEvent(Apply(db, RequestOps(fnv, db, k, |k.tags|)), FromHex(v.id)) == None
  {
    LiveIsWellFormed(fnv, slot, s, db, v.id);
    hide FromHex, ToHex, RequestOps, Targets, Represents, Address, ReachedIds, ReadIds, Apply;
    ReadIsReached(fnv, slot, s, db, k, v);
    LeftAfterRequest(fnv, slot, s, db, k, v);
  }

  /** Deleting by id the event at an address leaves the address entry pointing at its id, unless the
      request names the address as well. */
  lemma DanglingEntry(fnv: Hash, slot: Slot, s: State, db: DB, k: Event, v: Event)
    requires Represents(fnv, slot, s, db) && Placed(slot, k) && k.kind == 5 && !Refused(db, k)
    requires Live(s, v) && v.pubkey == k.pubkey && v.kind != 5 && v.id in ReadIds(k)
    requires Address(v) != "" && Address(v) !in Targets("a", k.tags)
    ensures var p, m, d := PebbleNext(s, db, k), StoreSpec.Store(s, k).0, PebbleModel.Store(fnv, db, k).0;
            && Represents(fnv, slot, p, d) && v.id !in p.live && Holders(p, Address(v)) == {}
            && AddrKey(Address(v)) in d && d[AddrKey(Address(v))] == IdValue(FromHex(v.id))
            && (Precise(slot) && InStep(s, k) ==>
                  Represents(fnv, slot, m, d) && v.id !in m.live && Holders(m, Address(v)) == {})
  {
    StoreRequestStep(fnv, slot, s, db, k);
    ReadIsReached(fnv, slot, s, db, k, v);
    AddressesAreCoherent(fnv, slot, s, db, v);
    OwnKeysHold(fnv, slot, s, db);
    AddrSurvives(fnv, slot, s, db, k, Address(v));
    HolderReached(fnv, slot, s, db, k, v);
    var p, m, d := PebbleNext(s, db, k), StoreSpec.Store(s, k).0, PebbleModel.Store(fnv, db, k).0;
    hide PebbleNext, StoreSpec.Store, PebbleModel.Store, Represents, Refused, Address, InStep, Targets, ReadIds,
         FromHex;
    if Precise(slot) && InStep(s, k) {
      StoreExact(fnv, slot, s, db, k);
      RepresentedAreAlike(fnv, slot, m, p, d);
    }
  }

  lemma HolderReached(fnv: Hash, slot: Slot, s: State, db: DB, k: Event, v: Event)
    requires Represents(fnv, slot, s, db) && WellFormed(k) && k.kind == 5 && !Refused(db, k)
    requires Live(s, v) && v.id in ReachedIds(db, k) && Address(v) != "" && Holders(s, Address(v)) == {v.id}
    ensures v.id !in PebbleNext(s, db, k).live && Holders(PebbleNext(s, db, k), Address(v)) == {}
  {
    RefuseTheSame(fnv, slot, s, db, k);
    RequestsAreRegular(k);
    AddressEmpty(k);
    hide Represents, Refused, Address, TypeOf, ReachedIds, ReadIds, Targets;
    assert forall id :: id in Holders(PebbleNext(s, db, k), Address(v)) ==> id in Holders(s, Address(v));
  }

  /** A request leaves the entries of the addresses it does not name alone. */
  lemma AddrSurvives(fnv: Hash, slot: Slot, s: State, db: DB, k: Event, addr: string)
    requires Represents(fnv, slot, s, db) && WellFormed(k) && k.kind == 5 && !Refused(db, k)
    requires addr !in Targets("a", k.tags)
    ensures var d := PebbleModel.Store(fnv, db, k).0;
            && (AddrKey(addr) in d <==> AddrKey(addr) in db)
            && (AddrKey(addr) in db ==> d[AddrKey(addr)] == db[AddrKey(addr)])
  {
    OwnKeysHold(fnv, slot, s, db);
    RequestOpsEffect(fnv, db, k, |k.tags|);
    RequestSetsKeys(k, |k.tags|, AddrKey(addr));
    RequestWritten(fnv, db, k);
    WriteOpsEffect(fnv, Apply(db, RequestOps(fnv, db, k, |k.tags|)), k);
    OwnKeysAreNoRecords(fnv, k);
    RequestsAreRegular(k);
    AddressEmpty(k);
    hide Represents, Refused, Address, TypeOf, FromHex, OwnKeys, RequestOps, RequestSets, Targets, Apply, Victim;
    if AddrKey(addr) in RequestDels(fnv, db, k, |k.tags|) {
      var i :| 0 <= i < |k.tags| && AddrKey(addr) in TagDels(fnv, db, k, k.tags[i]);
      VictimIsRemoved(fnv, slot, s, db, k, i);
      OwnKeysAreNoRecords(fnv, Victim(db, k, k.tags[i]).value);
    }
  }

  /** Were the id of a dangling address entry used again, by an event without address, Pebble would
      take that event for the one at the address and refuse an older event that belongs there,
      which memory stores. Ids that identify addresses are needed. */
  lemma ReusedIdDivides(fnv: Hash, slot: Slot, s: State, db: DB, x: Event, e: Event)
    requires Represents(fnv, slot, s, db)
    requires WellFormed(x) && TypeOf(x).Regular? && x.kind != 5 && !Refused(db, x)
    requires WellFormed(e) && e.id != x.id && !Refused(db, e) && !Before(e, x)
    requires Address(e) != "" && Holders(s, Address(e)) == {}
    requires AddrKey(Address(e)) in db && db[AddrKey(Address(e))] == IdValue(FromHex(x.id))
    ensures var m, p := StoreSpec.Store(s, x), PebbleModel.Store(fnv, db, x);
            m.1 && p.1 && StoreSpec.Store(m.0, e).1 && !PebbleModel.Store(fnv, p.0, e).1
  {
    hide TypeOf, Address, FromHex, ToHex, Represents, WriteOps, Before, IndexKeys, DecodeRecord;
    RefuseTheSame(fnv, slot, s, db, x);
    RefuseTheSame(fnv, slot, s, db, e);
    RequestsAreRegular(e);
    AddressEmpty(x);
    AddressEmpty(e);
    WriteOpsEffect(fnv, db, x);
    OwnKeysAreNoRecords(fnv, x);
    HexBack(x.id);
    HexBack(e.id);
    OwnKeysSplit(fnv, x, EventKey(FromHex(e.id)));
    assert [] + WriteOps(fnv, x) == WriteOps(fnv, x);
    var t, d := StoreSpec.Store(s, x).0, PebbleModel.Store(fnv, db, x).0;
    assert t == s.(live := s.live[x.id := x]) && d == db + WrittenValues(fnv, x);
    assert Holders(t, Address(e)) == Holders(s, Address(e));
    assert AtAddress(d, Address(e)) == Some(x);
    assert !Refused(d, e);
  }
}
