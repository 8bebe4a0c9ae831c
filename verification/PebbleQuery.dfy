/** Opening scans of the index over a snapshot of the database. */
module Scans {
  import opened Bytes
  import opened Events
  import opened Filters
  import opened Bags
  import opened Keys
  import opened PebbleModel
  import opened LeafCursors

  ghost predicate ShaFits(sha: string -> Bytes) {
    forall a :: |sha(a)| == 32
  }

  ghost predicate ValidKeys(db: DB) {
    forall k :: k in db ==> ValidKey(k)
  }

  /** The keys whose bytes lie within the bounds. */
  ghost function Within(sha: string -> Bytes, db: DB, lower: Bytes, upper: Bytes): set<Key> {
    set k | k in db && InRange(Encode(sha, k), lower, upper)
  }

  ghost predicate EncodedIn(sha: string -> Bytes, ks: set<Key>, b: Bytes) {
    exists k :: k in ks && Encode(sha, k) == b
  }

  ghost predicate StrictlyAscending(keys: seq<Bytes>) {
    forall i, j :: 0 <= i < j < |keys| ==> Less(keys[i], keys[j])
  }

  /** One key put in its place, unless it is there. */
  method Insert(keys: seq<Bytes>, b: Bytes) returns (r: seq<Bytes>)
    requires StrictlyAscending(keys)
    ensures StrictlyAscending(r) && forall x :: x in r <==> x in keys || x == b
  {
    hide Less;
    var n := 0;
    while n < |keys| && Less(keys[n], b)
      invariant 0 <= n <= |keys| && forall k :: 0 <= k < n ==> Less(keys[k], b)
    {
      n := n + 1;
    }
    if n < |keys| && keys[n] == b {
      return keys;
    }
    forall k | n <= k < |keys| ensures Less(b, keys[k]) {
      LessTotal(keys[n], b);
      if k > n {
        LessTransitive(b, keys[n], keys[k]);
      }
    }
    r := keys[..n] + [b] + keys[n..];
    assert keys == keys[..n] + keys[n..];
  }

  /** What a Pebble iterator with these bounds runs through: the keys in range, ascending. */
  method KeysInRange(sha: string -> Bytes, db: DB, lower: Bytes, upper: Bytes) returns (keys: seq<Bytes>)
    ensures StrictlyAscending(keys)
    ensures forall b :: b in keys <==> EncodedIn(sha, Within(sha, db, lower, upper), b)
  {
    hide Less, Encode, InRange;
    keys := [];
    var rest := db.Keys;
    while rest != {}
      invariant rest <= db.Keys && StrictlyAscending(keys)
      invariant forall b :: b in keys <==> EncodedIn(sha, Within(sha, db, lower, upper) - rest, b)
      decreases rest
    {
      var k :| k in rest;
      rest := rest - {k};
      var b := Encode(sha, k);
      ghost var before := keys;
      if InRange(b, lower, upper) {
        keys := Insert(keys, b);
      }
      forall x ensures x in keys <==> EncodedIn(sha, Within(sha, db, lower, upper) - rest, x) {
        assert x in before <==> EncodedIn(sha, Within(sha, db, lower, upper) - (rest + {k}), x);
      }
    }
    assert Within(sha, db, lower, upper) - rest == Within(sha, db, lower, upper);
  }

  // ---------- Scans of one hash ----------

  ghost function HashKeys(db: DB, hash: uint64, f: Filter): set<Key> {
    set k | k in db && k.FieldKey? && k.hash == hash && InBounds(k.invertedTS, f.since, f.until)
  }

  ghost function TimeKeys(db: DB, f: Filter): set<Key> {
    set k | k in db && k.CreatedAtKey? && InBounds(k.invertedTS, f.since, f.until)
  }

  ghost predicate PositionIn(ks: set<Key>, x: int) {
    exists k :: k in ks && IndexKey(k) && Rank(k.invertedTS, k.id) == x
  }

  /** The bag holds exactly the positions of these index keys. */
  ghost predicate BagOf(ks: set<Key>, bag: Bag) {
    forall x :: x in bag <==> PositionIn(ks, x)
  }

  lemma RankMembers(prefix: Bytes, keys: seq<Bytes>, x: int)
    requires Scan(prefix, keys)
    ensures x in multiset(Ranks(prefix, keys)) <==> exists b :: b in keys && KeyRank(prefix, b) == x
  {
    hide Less, KeyRank;
    if x in multiset(Ranks(prefix, keys)) {
      var i :| 0 <= i < |keys| && Ranks(prefix, keys)[i] == x;
      assert keys[i] in keys;
    }
    if b :| b in keys && KeyRank(prefix, b) == x {
      var i :| 0 <= i < |keys| && keys[i] == b;
      assert Ranks(prefix, keys)[i] == x;
    }
  }

  ghost predicate Shaped(sha: string -> Bytes, prefix: Bytes, k: Key) {
    && IndexKey(k) && |Encode(sha, k)| == |prefix| + 40 && prefix <= Encode(sha, k)
    && KeyRank(prefix, Encode(sha, k)) == Rank(k.invertedTS, k.id)
  }

  /** Ascending encoded index keys with one prefix are a scan of their positions. */
  lemma ScanOf(sha: string -> Bytes, prefix: Bytes, ks: set<Key>, keys: seq<Bytes>)
    requires StrictlyAscending(keys) && forall b :: b in keys <==> EncodedIn(sha, ks, b)
    requires forall k :: k in ks ==> Shaped(sha, prefix, k)
    ensures Scan(prefix, keys) && BagOf(ks, multiset(Ranks(prefix, keys)))
  {
    hide Less, Encode, KeyRank, Rank, Ranks;
    forall i | 0 <= i < |keys| ensures |keys[i]| == |prefix| + 40 && prefix <= keys[i] {
      assert keys[i] in keys && EncodedIn(sha, ks, keys[i]);
    }
    forall x ensures x in multiset(Ranks(prefix, keys)) <==> PositionIn(ks, x) {
      RankMembers(prefix, keys, x);
      if b :| b in keys && KeyRank(prefix, b) == x {
        assert EncodedIn(sha, ks, b);
        var k :| k in ks && Encode(sha, k) == b;
        assert Shaped(sha, prefix, k);
      }
      if PositionIn(ks, x) {
        var k :| k in ks && IndexKey(k) && Rank(k.invertedTS, k.id) == x;
        assert Shaped(sha, prefix, k) && EncodedIn(sha, ks, Encode(sha, k));
      }
    }
  }

  /** A scan over one hash sees exactly the entries of that hash within the bounds. */
  lemma FieldKeys(sha: string -> Bytes, db: DB, hash: uint64, f: Filter, lower: Bytes, upper: Bytes, keys: seq<Bytes>)
    requires ShaFits(sha) && ValidKeys(db) && StrictlyAscending(keys)
    requires forall b :: b in keys <==> EncodedIn(sha, Within(sha, db, lower, upper), b)
    requires lower == FieldPrefix(hash) + (if f.until.Some? then PutUint64(InvertTimestamp(f.until.value)) else [])
    requires upper == if f.since.Some? then FieldPrefix(hash) + PutUint64((InvertTimestamp(f.since.value) + 1) % TWO_64)
                      else Increment(FieldPrefix(hash))
    ensures Scan(FieldPrefix(hash), keys) && BagOf(HashKeys(db, hash, f), multiset(Ranks(FieldPrefix(hash), keys)))
  {
    hide Less, Increment, InvertTimestamp, InRange, PutUint64, Rank, BigEndian, KeyRank, Encode, InBounds,
         FieldPrefix, Ranks;
    forall k | k in db
      ensures k in Within(sha, db, lower, upper) <==> k in HashKeys(db, hash, f)
      ensures k in HashKeys(db, hash, f) ==> Shaped(sha, FieldPrefix(hash), k)
    {
      FieldScan(sha, k, hash, f.since, f.until, lower, upper);
      if k.FieldKey? {
        FieldKeyShape(sha, k);
      }
    }
    assert Within(sha, db, lower, upper) == HashKeys(db, hash, f);
    ScanOf(sha, FieldPrefix(hash), HashKeys(db, hash, f), keys);
  }

  lemma FieldKeyShape(sha: string -> Bytes, k: Key)
    requires k.FieldKey? && |k.id| == 32
    ensures Shaped(sha, FieldPrefix(k.hash), k)
  {
    var b := Encode(sha, k);
    assert b[9..] == PutUint64(k.invertedTS) + k.id;
  }

  lemma CreatedAtKeyShape(sha: string -> Bytes, k: Key)
    requires k.CreatedAtKey? && |k.id| == 32
    ensures Shaped(sha, [0x02], k)
  {
    var b := Encode(sha, k);
    assert b[1..] == PutUint64(k.invertedTS) + k.id;
  }

  lemma CreatedAtKeys(sha: string -> Bytes, db: DB, f: Filter, lower: Bytes, upper: Bytes, keys: seq<Bytes>)
    requires ShaFits(sha) && ValidKeys(db) && StrictlyAscending(keys)
    requires forall b :: b in keys <==> EncodedIn(sha, Within(sha, db, lower, upper), b)
    requires lower == [0x02] + (if f.until.Some? then PutUint64(InvertTimestamp(f.until.value)) else [])
    requires upper == if f.since.None? then [0x03]
                      else [0x02] + PutUint64((InvertTimestamp(f.since.value) + 1) % TWO_64)
    ensures Scan([0x02], keys) && BagOf(TimeKeys(db, f), multiset(Ranks([0x02], keys)))
  {
    hide Less, Increment, InvertTimestamp, InRange, PutUint64, Rank, BigEndian, KeyRank, Encode, InBounds, Ranks;
    forall k | k in db
      ensures k in Within(sha, db, lower, upper) <==> k in TimeKeys(db, f)
      ensures k in TimeKeys(db, f) ==> Shaped(sha, [0x02], k)
    {
      CreatedAtScan(sha, k, f.since, f.until, lower, upper);
      if k.CreatedAtKey? {
        CreatedAtKeyShape(sha, k);
      }
    }
    assert Within(sha, db, lower, upper) == TimeKeys(db, f);
    ScanOf(sha, [0x02], TimeKeys(db, f), keys);
  }

  /** `newFieldIndexCursor`: a scan of one field hash within the filter's time bounds. */
  method NewFieldIndexCursor(sha: string -> Bytes, db: DB, hash: uint64, f: Filter) returns (c: IndexCursor)
    requires ShaFits(sha) && ValidKeys(db)
    ensures fresh(c) && c.Valid() && c.last == -1
    ensures BagOf(HashKeys(db, hash, f), c.View().bag)
  {
    hide Less, InvertTimestamp, InRange, PutUint64, Rank, BigEndian, Scan, BagOf, Within, EncodedIn, FieldPrefix,
         Increment;
    var prefix := FieldPrefix(hash);
    var lower := prefix + [];
    var upper := IncrementBytes(prefix);
    if f.until.Some? {
      lower := prefix + PutUint64(InvertTimestamp(f.until.value));
    }
    if f.since.Some? {
      upper := prefix + PutUint64((InvertTimestamp(f.since.value) + 1) % TWO_64);
    }
    var keys := KeysInRange(sha, db, lower, upper);
    FieldKeys(sha, db, hash, f, lower, upper, keys);
    c := new IndexCursor(keys, prefix);
  }

  /** `newCreatedAtCursor`: a scan of all events within the filter's time bounds. */
  method NewCreatedAtCursor(sha: string -> Bytes, db: DB, f: Filter) returns (c: IndexCursor)
    requires ShaFits(sha) && ValidKeys(db)
    ensures fresh(c) && c.Valid() && c.last == -1
    ensures BagOf(TimeKeys(db, f), c.View().bag)
  {
    hide Less, InvertTimestamp, InRange, PutUint64, Rank, BigEndian, Scan, BagOf, Within, EncodedIn;
    var lower, upper: Bytes := [0x02] + [], [0x02 + 1];
    if f.until.Some? {
      lower := [0x02] + PutUint64(InvertTimestamp(f.until.value));
    }
    if f.since.Some? {
      upper := [0x02] + PutUint64((InvertTimestamp(f.since.value) + 1) % TWO_64);
    }
    var keys := KeysInRange(sha, db, lower, upper);
    CreatedAtKeys(sha, db, f, lower, upper, keys);
    c := new IndexCursor(keys, [0x02]);
  }
}

/** `PebbleStorage.Query`: a cursor for every filter, and the loop over them. */
module PebbleQuery {
  import opened Bytes
  import opened Events
  import opened Filters
  import opened Bags
  import opened Heap
  import opened Keys
  import opened StoreSpec
  import opened PebbleModel
  import opened Simulation
  import opened LeafCursors
  import opened Merging
  import opened UnionCursors
  import opened IntersectCursors
  import opened FilterCursors
  import opened PebbleSearch
  import opened Scans

  // ---------- What the index says about the live events ----------

  lemma EntryIsLive(fnv: Hash, slot: Slot, s: State, db: DB, k: Key)
    requires Represents(fnv, slot, s, db) && k in db && IndexKey(k)
    ensures RankOfLive(s.live.Values, Rank(k.invertedTS, k.id))
  {
    hide Rank, FromHex, ToHex;
    assert KeyAgrees(fnv, slot, s, db, k);
    var e := s.live[ToHex(k.id)];
    IndexKeysCarryId(fnv, e, k);
    assert e in s.live.Values && EventRank(e) == Rank(k.invertedTS, k.id);
  }

  lemma LiveHasEntries(fnv: Hash, slot: Slot, s: State, db: DB, e: Event, k: Key)
    requires Represents(fnv, slot, s, db) && e in s.live.Values && k in IndexKeys(fnv, e)
    ensures k in db
  {
    hide Rank, FromHex, ToHex, IndexKeys;
    assert KeyAgrees(fnv, slot, s, db, k);
    var id :| id in s.live && s.live[id] == e;
    IndexKeysCarryId(fnv, e, k);
    HexBack(e.id);
  }

  lemma DatabaseFacts(fnv: Hash, slot: Slot, s: State, db: DB)
    requires Represents(fnv, slot, s, db)
    ensures ValidKeys(db) && Fetchable(db, s.live.Values)
    ensures AllWellFormed(s.live.Values) && DistinctIds(s.live.Values)
  {
    hide FromHex, ToHex, IndexKeys, Address, Invariant;
    assert KeyedById(s) by { InvariantKeys(s); }
    forall k | k in db ensures ValidKey(k) {
      assert KeyAgrees(fnv, slot, s, db, k);
    }
    forall e | e in s.live.Values ensures GetEvent(db, FromHex(e.id)) == Some(e) {
      var id :| id in s.live && s.live[id] == e;
      LiveAt(fnv, slot, s, db, id);
    }
  }

  lemma InvariantKeys(s: State)
    requires Invariant(s)
    ensures KeyedById(s)
  {
  }

  /** The smallest int64 as `since` is the one time bound that does not survive inversion. */
  predicate Boundable(f: Filter) {
    f.ids != [] || f.since != Some(MIN_INT64)
  }

  const NO_TIME: Filter := Filter([], [], [], map[], Some(TWO_63 - 1), Some(MIN_INT64), None)

  /** The filter as the cursors see it: with that `since` it finds nothing. */
  function Effective(f: Filter): (g: Filter)
    ensures g.limit == f.limit
  {
    if Boundable(f) then f else f.(since := NO_TIME.since, until := NO_TIME.until)
  }

  function AllEffective(filters: seq<Filter>): (g: seq<Filter>)
    ensures |g| == |filters| && forall i :: 0 <= i < |g| ==> g[i] == Effective(filters[i])
    ensures QueryLimit(g) == QueryLimit(filters)
  {
    seq(|filters|, i requires 0 <= i < |filters| => Effective(filters[i]))
  }

  lemma UnboundableMatchesNothing(f: Filter, e: Event)
    ensures Matches(Effective(f), e) <==> Boundable(f) && Matches(f, e)
  {
  }

  /** A filter that Pebble can bound matches: one with ids, or with `since` above the smallest int64. */
  ghost predicate BoundedMatch(filters: seq<Filter>, e: Event) {
    exists i :: 0 <= i < |filters| && (filters[i].ids != [] || filters[i].since != Some(-TWO_63)) &&
      Matches(filters[i], e)
  }

  lemma EffectiveMatches(filters: seq<Filter>, e: Event)
    ensures MatchesAny(AllEffective(filters), e) <==> BoundedMatch(filters, e)
  {
    var fs := AllEffective(filters);
    forall i | 0 <= i < |filters| ensures Matches(fs[i], e) <==> Boundable(filters[i]) && Matches(filters[i], e) {
      UnboundableMatchesNothing(filters[i], e);
    }
    hide Matches, Effective;
    if MatchesAny(fs, e) {
      var i :| 0 <= i < |fs| && Matches(fs[i], e);
      assert Matches(filters[i], e);
    }
    if i :| 0 <= i < |filters| && (filters[i].ids != [] || filters[i].since != Some(-TWO_63)) &&
            Matches(filters[i], e)
    {
      assert Matches(fs[i], e);
    }
  }

  /** The bag leads to every live match of the filter, and to live events only. */
  ghost predicate Finds(live: set<Event>, f: Filter, bag: Bag) {
    && (forall x :: x in bag ==> RankOfLive(live, x))
    && (if Boundable(f) then forall e :: e in live && Matches(f, e) ==> EventRank(e) in bag else bag == multiset{})
  }

  lemma NothingInBounds(db: DB, f: Filter)
    requires f.since == Some(MIN_INT64)
    ensures TimeKeys(db, f) == {} && forall hash :: HashKeys(db, hash, f) == {}
  {
    InvertTimestampValue(MIN_INT64);
    hide InvertTimestamp;
    assert forall ts :: !InBounds(ts, f.since, f.until);
  }

  ghost predicate TouchedBy(fnv: Hash, e: Event, hashes: seq<uint64>) {
    exists i :: 0 <= i < |hashes| &&
      FieldKey(hashes[i], InvertTimestamp(e.createdAt), FromHex(e.id)) in IndexKeys(fnv, e)
  }

  /** Every event the filter matches has an entry under one of the hashes. */
  ghost predicate Touches(fnv: Hash, f: Filter, hashes: seq<uint64>) {
    forall e :: WellFormed(e) && Matches(f, e) ==> TouchedBy(fnv, e, hashes)
  }

  ghost predicate UnderHashes(db: DB, hashes: seq<uint64>, f: Filter, x: int) {
    exists i :: 0 <= i < |hashes| && PositionIn(HashKeys(db, hashes[i], f), x)
  }

  lemma HashesReach(fnv: Hash, slot: Slot, s: State, db: DB, f: Filter, hashes: seq<uint64>, e: Event)
    requires Represents(fnv, slot, s, db) && TouchedBy(fnv, e, hashes) && f.since != Some(MIN_INT64)
    requires e in s.live.Values && Matches(f, e)
    ensures UnderHashes(db, hashes, f, EventRank(e))
  {
    hide Rank, FromHex, InvertTimestamp, IndexKeys, Represents, InBounds;
    var i :| 0 <= i < |hashes| && FieldKey(hashes[i], InvertTimestamp(e.createdAt), FromHex(e.id)) in IndexKeys(fnv, e);
    var k := FieldKey(hashes[i], InvertTimestamp(e.createdAt), FromHex(e.id));
    LiveHasEntries(fnv, slot, s, db, e, k);
    BoundsAt(e.createdAt, f.since, f.until);
    assert k in HashKeys(db, hashes[i], f);
  }

  lemma HashesFind(fnv: Hash, slot: Slot, s: State, db: DB, f: Filter, hashes: seq<uint64>, bag: Bag)
    requires Represents(fnv, slot, s, db) && Touches(fnv, f, hashes) && f.ids == []
    requires forall x :: x in bag <==> UnderHashes(db, hashes, f, x)
    ensures Finds(s.live.Values, f, bag)
  {
    hide Rank, IndexKeys, Represents, InBounds, WellFormed, DistinctIds, Fetchable, ValidKeys, EventRank, Matches,
         TouchedBy;
    DatabaseFacts(fnv, slot, s, db);
    forall x | x in bag ensures RankOfLive(s.live.Values, x) {
      var i :| 0 <= i < |hashes| && PositionIn(HashKeys(db, hashes[i], f), x);
      var k :| k in HashKeys(db, hashes[i], f) && IndexKey(k) && Rank(k.invertedTS, k.id) == x;
      EntryIsLive(fnv, slot, s, db, k);
    }
    if f.since == Some(MIN_INT64) {
      NothingInBounds(db, f);
      NonEmpty(bag);
      return;
    }
    forall e | e in s.live.Values && Matches(f, e) ensures EventRank(e) in bag {
      HashesReach(fnv, slot, s, db, f, hashes, e);
    }
  }

  lemma TimesFind(fnv: Hash, slot: Slot, s: State, db: DB, f: Filter, bag: Bag)
    requires Represents(fnv, slot, s, db) && f.ids == [] && BagOf(TimeKeys(db, f), bag)
    ensures Finds(s.live.Values, f, bag)
  {
    hide Rank, FromHex, InvertTimestamp, Represents, InBounds;
    forall x | x in bag ensures RankOfLive(s.live.Values, x) {
      var k :| k in TimeKeys(db, f) && IndexKey(k) && Rank(k.invertedTS, k.id) == x;
      EntryIsLive(fnv, slot, s, db, k);
    }
    if f.since == Some(MIN_INT64) {
      NothingInBounds(db, f);
      NonEmpty(bag);
      return;
    }
    forall e | e in s.live.Values && Matches(f, e) ensures EventRank(e) in bag {
      var k := CreatedAtKey(InvertTimestamp(e.createdAt), FromHex(e.id));
      assert k in IndexKeys(fnv, e);
      LiveHasEntries(fnv, slot, s, db, e, k);
      BoundsAt(e.createdAt, f.since, f.until);
      assert k in TimeKeys(db, f) && PositionIn(TimeKeys(db, f), EventRank(e));
    }
  }

  lemma CommonFinds(live: set<Event>, f: Filter, bags: seq<Bag>)
    requires bags != [] && forall i :: 0 <= i < |bags| ==> Finds(live, f, bags[i])
    ensures Finds(live, f, Common(bags))
  {
    hide Common, Matches, EventRank;
    forall x | x in Common(bags) ensures RankOfLive(live, x) {
      CommonBounds(bags, x);
      assert x in bags[0];
    }
    if !Boundable(f) {
      EmptyCommon(bags, 0);
      return;
    }
    forall e | e in live && Matches(f, e) ensures EventRank(e) in Common(bags) {
      CommonCount(bags, EventRank(e));
      assert forall i :: 0 <= i < |bags| ==> EventRank(e) in bags[i];
    }
  }

  // ---------- Conditions ----------

  /** One scan for each hash. */
  method OpenScans(sha: string -> Bytes, db: DB, hashes: seq<uint64>, f: Filter) returns (cursors: seq<IndexCursor>)
    requires ShaFits(sha) && ValidKeys(db)
    ensures |cursors| == |hashes| && fresh(cursors) && AllValid(cursors)
    ensures forall i :: 0 <= i < |cursors| ==>
              cursors[i].last == -1 && BagOf(HashKeys(db, hashes[i], f), ViewsOf(cursors)[i].bag)
  {
    hide Rank, IndexCursor.Valid, IndexCursor.View, HashKeys, BagOf, Snap.Ok;
    cursors := [];
    for i := 0 to |hashes|
      invariant |cursors| == i && fresh(cursors) && AllValid(cursors)
      invariant forall j :: 0 <= j < i ==>
                  cursors[j].last == -1 && BagOf(HashKeys(db, hashes[j], f), cursors[j].View().bag)
    {
      var c := NewFieldIndexCursor(sha, db, hashes[i], f);
      assert forall j :: 0 <= j < i ==> cursors[j] != c;
      cursors := cursors + [c];
    }
  }

  lemma UnionFinds(db: DB, hashes: seq<uint64>, f: Filter, snaps: seq<Snap>)
    requires |snaps| == |hashes| && forall i :: 0 <= i < |snaps| ==> BagOf(HashKeys(db, hashes[i], f), snaps[i].bag)
    ensures forall x :: x in Sum(BagsOf(snaps)) <==> UnderHashes(db, hashes, f, x)
  {
    hide HashKeys, PositionIn, Sum;
    forall x ensures x in Sum(BagsOf(snaps)) <==> UnderHashes(db, hashes, f, x) {
      SumMember(BagsOf(snaps), x);
      assert forall i :: 0 <= i < |snaps| ==> (x in BagsOf(snaps)[i] <==> PositionIn(HashKeys(db, hashes[i], f), x));
    }
  }

  lemma OneFinds(db: DB, hashes: seq<uint64>, f: Filter, bag: Bag)
    requires |hashes| == 1 && BagOf(HashKeys(db, hashes[0], f), bag)
    ensures forall x :: x in bag <==> UnderHashes(db, hashes, f, x)
  {
    hide HashKeys, PositionIn;
    forall x ensures x in bag <==> UnderHashes(db, hashes, f, x) {
      assert x in bag <==> PositionIn(HashKeys(db, hashes[0], f), x);
    }
  }

  /** The scans of one condition, merged if there is more than one (`wrapCursors`). */
  method BuildGroup(sha: string -> Bytes, db: DB, hashes: seq<uint64>, f: Filter) returns (g: Group)
    requires ShaFits(sha) && ValidKeys(db) && hashes != []
    ensures fresh(g.Objects()) && g.Valid()
    ensures forall x :: x in g.View().bag <==> UnderHashes(db, hashes, f, x)
  {
    hide Rank, IndexCursor.Valid, IndexCursor.View, HashKeys, PositionIn, Snap.Ok, UnionCursor.Valid, UnionCursor.View,
         BagOf, UnderHashes, Sum, BagsOf;
    var cursors := OpenScans(sha, db, hashes, f);
    if |cursors| == 1 {
      OneFinds(db, hashes, f, cursors[0].View().bag);
      g := One(cursors[0]);
    } else {
      UnionFinds(db, hashes, f, ViewsOf(cursors));
      var u := new UnionCursor(cursors);
      g := Many(u);
    }
  }

  method AuthorHashes(fnv: Hash, f: Filter) returns (hashes: seq<uint64>)
    ensures hashes != [] ==> Touches(fnv, f, hashes)
  {
    hide Matches, FieldHashAuthor, IndexKeys;
    hashes := [];
    for i := 0 to |f.authors|
      invariant forall j :: 0 <= j < i && |f.authors[j]| == 64 ==> FieldHashAuthor(fnv, f.authors[j]) in hashes
      invariant i == 0 ==> hashes == []
    {
      if |f.authors[i]| != 64 {
        continue;
      }
      hashes := hashes + [FieldHashAuthor(fnv, f.authors[i])];
    }
    if hashes != [] {
      forall e | WellFormed(e) && Matches(f, e) ensures TouchedBy(fnv, e, hashes) {
        AuthorTouches(fnv, f, e);
        var j :| 0 <= j < |f.authors| && f.authors[j] == e.pubkey;
        var k :| 0 <= k < |hashes| && hashes[k] == FieldHashAuthor(fnv, e.pubkey);
      }
    }
  }

  lemma AuthorTouches(fnv: Hash, f: Filter, e: Event)
    requires Matches(f, e)
    ensures f.authors != [] ==> e.pubkey in f.authors
    ensures FieldKey(FieldHashAuthor(fnv, e.pubkey), InvertTimestamp(e.createdAt), FromHex(e.id)) in IndexKeys(fnv, e)
  {
    hide FromHex, InvertTimestamp, FieldHashAuthor;
  }

  method KindHashes(fnv: Hash, f: Filter) returns (hashes: seq<uint64>)
    ensures hashes != [] ==> Touches(fnv, f, hashes)
  {
    hide Matches, FieldHashKind, IndexKeys;
    hashes := [];
    for i := 0 to |f.kinds|
      invariant forall j :: 0 <= j < i ==> FieldHashKind(fnv, f.kinds[j]) in hashes
      invariant i == 0 ==> hashes == []
    {
      hashes := hashes + [FieldHashKind(fnv, f.kinds[i])];
    }
    if hashes != [] {
      forall e | WellFormed(e) && Matches(f, e) ensures TouchedBy(fnv, e, hashes) {
        KindTouches(fnv, f, e);
        var j :| 0 <= j < |f.kinds| && f.kinds[j] == e.kind;
        var k :| 0 <= k < |hashes| && hashes[k] == FieldHashKind(fnv, e.kind);
      }
    }
  }

  lemma KindTouches(fnv: Hash, f: Filter, e: Event)
    requires Matches(f, e)
    ensures f.kinds != [] ==> e.kind in f.kinds
    ensures FieldKey(FieldHashKind(fnv, e.kind), InvertTimestamp(e.createdAt), FromHex(e.id)) in IndexKeys(fnv, e)
  {
    hide FromHex, InvertTimestamp, FieldHashKind;
  }

  method TagHashes(fnv: Hash, f: Filter, key: string) returns (hashes: seq<uint64>)
    requires key in f.tags && |key| == 1
    ensures hashes != [] ==> Touches(fnv, f, hashes)
  {
    hide Matches, FieldHashTag, IndexKeys;
    var values := f.tags[key];
    hashes := [];
    for i := 0 to |values|
      invariant forall j :: 0 <= j < i ==> FieldHashTag(fnv, key[0], values[j]) in hashes
      invariant i == 0 ==> hashes == []
    {
      hashes := hashes + [FieldHashTag(fnv, key[0], values[i])];
    }
    if hashes != [] {
      forall e | WellFormed(e) && Matches(f, e) ensures TouchedBy(fnv, e, hashes) {
        var v := TagTouches(fnv, f, key, e);
        var j :| 0 <= j < |values| && values[j] == v;
        var k :| 0 <= k < |hashes| && hashes[k] == FieldHashTag(fnv, key[0], v);
      }
    }
  }

  lemma TagTouches(fnv: Hash, f: Filter, key: string, e: Event) returns (v: string)
    requires Matches(f, e) && key in f.tags && |key| == 1 && f.tags[key] != []
    ensures v in f.tags[key]
    ensures FieldKey(FieldHashTag(fnv, key[0], v), InvertTimestamp(e.createdAt), FromHex(e.id)) in IndexKeys(fnv, e)
  {
    hide FromHex, InvertTimestamp, FieldHashTag, FieldHashAuthor, FieldHashKind;
    assert TagConditionHolds(f, key, e);
    var i :| 0 <= i < |e.tags| && TagMatches(e.tags[i], key, f.tags[key]);
    v := e.tags[i][1];
    assert TagKey(fnv, e, e.tags[i]) in TagKeys(fnv, e, |e.tags|);
  }

  /** The conditions gathered so far, each of which finds every match of the filter. */
  ghost predicate Conditions(live: set<Event>, f: Filter, groups: seq<Group>, repr: set<object>)
    reads repr
  {
    && GroupsApart(groups) && GroupsValid(groups, repr)
    && forall i :: 0 <= i < |groups| ==> Finds(live, f, GroupViews(groups, repr)[i].bag)
  }

  method AddCondition(fnv: Hash, sha: string -> Bytes, db: DB, hashes: seq<uint64>, f: Filter, groups0: seq<Group>,
                      ghost repr0: set<object>, ghost slot: Slot, ghost s: State)
      returns (groups: seq<Group>, ghost repr: set<object>)
    requires ShaFits(sha) && Represents(fnv, slot, s, db) && f.ids == []
    requires hashes != [] ==> Touches(fnv, f, hashes)
    requires Conditions(s.live.Values, f, groups0, repr0)
    ensures repr0 <= repr && fresh(repr - repr0) && Conditions(s.live.Values, f, groups, repr)
  {
    hide Represents, Touches, ValidKeys, Fetchable, AllWellFormed, DistinctIds, Finds, UnderHashes, Group.Valid,
         Group.View;
    groups, repr := groups0, repr0;
    if |hashes| > 0 {
      DatabaseFacts(fnv, slot, s, db);
      var g := BuildGroup(sha, db, hashes, f);
      HashesFind(fnv, slot, s, db, f, hashes, g.View().bag);
      groups, repr := groups0 + [g], repr0 + g.Objects();
      assert Conditions(s.live.Values, f, groups0, repr0);
      forall i | 0 <= i < |groups|
        ensures groups[i].Objects() <= repr && groups[i].Valid() && Finds(s.live.Values, f, groups[i].View().bag)
        ensures i < |groups0| ==> groups[i].Objects() !! g.Objects()
      {
        if i < |groups0| {
          assert groups[i] == groups0[i] && GroupViews(groups0, repr0)[i] == groups0[i].View();
          assert groups0[i].Objects() <= repr0;
        }
      }
    }
  }

  /** One condition for each tag name; they are visited in any order. */
  method AddTags(fnv: Hash, sha: string -> Bytes, db: DB, f: Filter, groups0: seq<Group>, ghost repr0: set<object>,
                 ghost slot: Slot, ghost s: State)
      returns (groups: seq<Group>, ghost repr: set<object>)
    requires ShaFits(sha) && Represents(fnv, slot, s, db) && f.ids == []
    requires Conditions(s.live.Values, f, groups0, repr0)
    ensures repr0 <= repr && fresh(repr - repr0) && Conditions(s.live.Values, f, groups, repr)
  {
    hide Represents, Touches, Conditions;
    groups, repr := groups0, repr0;
    var keys := f.tags.Keys;
    while keys != {}
      invariant keys <= f.tags.Keys && repr0 <= repr && fresh(repr - repr0)
      invariant Conditions(s.live.Values, f, groups, repr)
      decreases keys
    {
      var key :| key in keys;
      keys := keys - {key};
      if |key| != 1 || |f.tags[key]| == 0 {
        continue;
      }
      var hashes := TagHashes(fnv, f, key);
      groups, repr := AddCondition(fnv, sha, db, hashes, f, groups, repr, slot, s);
    }
  }

  /** The conditions of a filter: authors, kinds, and one for each tag name. */
  method GatherConditions(fnv: Hash, sha: string -> Bytes, db: DB, f: Filter, ghost slot: Slot, ghost s: State)
      returns (groups: seq<Group>, ghost repr: set<object>)
    requires ShaFits(sha) && Represents(fnv, slot, s, db) && f.ids == []
    ensures fresh(repr) && Conditions(s.live.Values, f, groups, repr)
  {
    hide Represents, Touches, Finds, Group.Valid, Group.View, Group.Objects, Matches;
    groups, repr := [], {};
    var hashes := AuthorHashes(fnv, f);
    groups, repr := AddCondition(fnv, sha, db, hashes, f, groups, repr, slot, s);
    hashes := KindHashes(fnv, f);
    groups, repr := AddCondition(fnv, sha, db, hashes, f, groups, repr, slot, s);
    groups, repr := AddTags(fnv, sha, db, f, groups, repr, slot, s);
  }

  /** `buildFilterCursor`, when the filter names no ids. */
  method BuildConditions(fnv: Hash, sha: string -> Bytes, db: DB, f: Filter, ghost slot: Slot, ghost s: State)
      returns (c: Cursor)
    requires ShaFits(sha) && Represents(fnv, slot, s, db) && f.ids == []
    ensures fresh(c.Objects()) && c.Valid() && Finds(s.live.Values, f, c.View().bag)
  {
    hide Represents, Conditions, Finds, Cursor.Valid, Cursor.View, Cursor.Objects;
    var groups, repr := GatherConditions(fnv, sha, db, f, slot, s);
    ghost var own;
    c, own := Assemble(fnv, sha, db, f, groups, repr, slot, s);
    assert fresh(repr) && fresh(own);
  }

  /** No condition: all events by time. One: that one. More: their intersection. */
  method Assemble(fnv: Hash, sha: string -> Bytes, db: DB, f: Filter, groups: seq<Group>, ghost repr: set<object>,
                  ghost slot: Slot, ghost s: State) returns (c: Cursor, ghost own: set<object>)
    requires ShaFits(sha) && Represents(fnv, slot, s, db) && f.ids == []
    requires Conditions(s.live.Values, f, groups, repr)
    modifies repr
    ensures fresh(own) && c.Objects() <= repr + own && c.Valid() && Finds(s.live.Values, f, c.View().bag)
  {
    hide Represents, ValidKeys, Fetchable, AllWellFormed, DistinctIds, Finds, Group.Valid, Group.View, Group.Objects,
         IndexCursor.Valid, IndexCursor.View, IntersectCursor.Valid, IntersectCursor.View, Matches, Common;
    ghost var live := s.live.Values;
    if |groups| == 0 {
      DatabaseFacts(fnv, slot, s, db);
      var all := NewCreatedAtCursor(sha, db, f);
      TimesFind(fnv, slot, s, db, f, all.View().bag);
      return AllEvents(all), {all};
    }
    if |groups| == 1 {
      assert GroupViews(groups, repr)[0] == groups[0].View();
      return Plain(groups[0]), {};
    }
    CommonFinds(live, f, BagsOf(GroupViews(groups, repr)));
    var join := new IntersectCursor(groups, repr);
    c, own := Join(join), {join};
  }

  function AllEvents(c: IndexCursor): (r: Cursor)
    reads c
    requires c.Valid()
    ensures r.Objects() == {c} && r.Valid() && r.View() == c.View()
  {
    hide IndexCursor.Valid, IndexCursor.View;
    Plain(One(c))
  }

  // ---------- Ids ----------

  /** `sort.Slice` by position. */
  method SortEntries(entries: seq<SliceEntry>) returns (sorted: seq<SliceEntry>)
    requires forall i :: 0 <= i < |entries| ==> |entries[i].eventID| == 32
    ensures SortedEntries(sorted) && forall x :: x in sorted <==> x in entries
  {
    hide Rank, PositionLess;
    sorted := [];
    for i := 0 to |entries|
      invariant SortedEntries(sorted) && forall x :: x in sorted <==> x in entries[..i]
    {
      sorted := InsertEntry(sorted, entries[i]);
      assert entries[..i + 1] == entries[..i] + [entries[i]];
    }
    assert entries[..|entries|] == entries;
  }

  method InsertEntry(sorted: seq<SliceEntry>, e: SliceEntry) returns (r: seq<SliceEntry>)
    requires SortedEntries(sorted) && |e.eventID| == 32
    ensures SortedEntries(r) && forall x :: x in r <==> x in sorted || x == e
  {
    hide Rank, SliceRanks;
    ghost var ranks, rank := SliceRanks(sorted), Rank(e.invertedTS, e.eventID);
    var n := 0;
    while n < |sorted|
      invariant 0 <= n <= |sorted| && forall k :: 0 <= k < n ==> ranks[k] < rank
    {
      var below := EntryBelow(sorted[n], e.invertedTS, e.eventID);
      if !below {
        break;
      }
      n := n + 1;
    }
    assert forall k :: n <= k < |sorted| ==> ranks[k] >= rank;
    r := sorted[..n] + [e] + sorted[n..];
    assert SliceRanks(r) == ranks[..n] + [rank] + ranks[n..];
    assert sorted == sorted[..n] + sorted[n..];
  }

  /** `buildIDsCursor`: fetch the events named, in the order of answers. */
  method BuildIDsCursor(fnv: Hash, db: DB, f: Filter, ghost slot: Slot, ghost s: State) returns (c: Option<Cursor>)
    requires Represents(fnv, slot, s, db) && f.ids != []
    ensures c.Some? ==> fresh(c.value.Objects()) && c.value.Valid() && Finds(s.live.Values, f, c.value.View().bag)
    ensures c.None? ==> forall e :: e in s.live.Values ==> !Matches(f, e)
  {
    hide Rank, FromHex, ToHex, Represents, SliceCursor.Valid, SliceCursor.View, Finds, Matches, LowerHex;
    var entries: seq<SliceEntry> := [];
    for i := 0 to |f.ids|
      invariant forall x :: x in entries ==> EntryOfLive(s, x)
      invariant forall x :: x in f.ids[..i] && x in s.live && |x| == 64 ==>
        SliceEntry(InvertTimestamp(s.live[x].createdAt), FromHex(x)) in entries
    {
      var id := f.ids[i];
      assert f.ids[..i + 1] == f.ids[..i] + [id];
      if |id| != 64 {
        continue;
      }
      var eventIDBytes := HexToBytes32(id);
      var event := GetEvent(db, eventIDBytes);
      EntryFound(fnv, slot, s, db, id);
      if event.None? {
        continue;
      }
      entries := entries + [SliceEntry(InvertTimestamp(event.value.createdAt), eventIDBytes)];
    }
    assert f.ids[..|f.ids|] == f.ids;
    if |entries| == 0 {
      IdsAreNamed(fnv, slot, s, db, f, entries);
      return None;
    }
    IdsAreNamed(fnv, slot, s, db, f, entries);
    assert forall i :: 0 <= i < |entries| ==> EntryOfLive(s, entries[i]);
    var sorted := SortEntries(entries);
    EntriesFind(s, f, sorted);
    var slice := new SliceCursor(sorted);
    assert slice.View().bag == slice.Bag();
    c := Some(Slice(slice));
  }

  ghost predicate EntryOfLive(s: State, x: SliceEntry) {
    |x.eventID| == 32 &&
    exists e :: e in s.live.Values && x.invertedTS == InvertTimestamp(e.createdAt) && x.eventID == FromHex(e.id)
  }

  lemma EntryFound(fnv: Hash, slot: Slot, s: State, db: DB, id: string)
    requires Represents(fnv, slot, s, db) && |id| == 64
    ensures var event := GetEvent(db, FromHex(id));
            && (event.Some? ==> EntryOfLive(s, SliceEntry(InvertTimestamp(event.value.createdAt), FromHex(id))))
            && (id in s.live ==> event == Some(s.live[id]))
  {
    GetLive(fnv, slot, s, db, FromHex(id));
    if id in s.live {
      LiveAt(fnv, slot, s, db, id);
    }
    hide FromHex, ToHex, Represents;
  }

  /** Every live match of a filter with ids is under one of the ids named. */
  lemma IdsAreNamed(fnv: Hash, slot: Slot, s: State, db: DB, f: Filter, entries: seq<SliceEntry>)
    requires Represents(fnv, slot, s, db) && f.ids != []
    requires forall x :: x in f.ids && x in s.live && |x| == 64 ==>
               SliceEntry(InvertTimestamp(s.live[x].createdAt), FromHex(x)) in entries
    ensures forall e :: e in s.live.Values && Matches(f, e) ==> EntryOf(e) in entries
  {
    hide FromHex, ToHex, Invariant, KeyAgrees;
    forall e | e in s.live.Values && Matches(f, e) ensures EntryOf(e) in entries {
      var id :| id in s.live && s.live[id] == e;
      InvariantKeys(s);
      assert WellFormed(e) && e.id == id;
    }
  }

  function EntryOf(e: Event): SliceEntry {
    SliceEntry(InvertTimestamp(e.createdAt), FromHex(e.id))
  }

  lemma EntriesFind(s: State, f: Filter, sorted: seq<SliceEntry>)
    requires Boundable(f) && forall x :: x in sorted ==> EntryOfLive(s, x)
    requires forall e :: e in s.live.Values && Matches(f, e) ==> EntryOf(e) in sorted
    ensures Finds(s.live.Values, f, multiset(SliceRanks(sorted)))
  {
    hide Rank, FromHex, Matches;
    var r := SliceRanks(sorted);
    forall x | x in multiset(r) ensures RankOfLive(s.live.Values, x) {
      var i :| 0 <= i < |r| && r[i] == x;
      assert EntryOfLive(s, sorted[i]);
      var e :| e in s.live.Values && sorted[i].invertedTS == InvertTimestamp(e.createdAt) &&
               sorted[i].eventID == FromHex(e.id);
      assert EventRank(e) == x;
    }
    forall e | e in s.live.Values && Matches(f, e) ensures EventRank(e) in multiset(r) {
      var i :| 0 <= i < |sorted| && sorted[i] == EntryOf(e);
      assert r[i] == EventRank(e);
    }
  }

  // ---------- Query ----------

  method BuildFilterCursor(fnv: Hash, sha: string -> Bytes, db: DB, f: Filter, ghost slot: Slot, ghost s: State)
      returns (c: Option<Cursor>, ghost own: set<object>)
    requires ShaFits(sha) && Represents(fnv, slot, s, db)
    ensures c.Some? ==>
              && own == c.value.Objects() && fresh(own) && c.value.Valid()
              && Finds(s.live.Values, f, c.value.View().bag)
    ensures c.None? ==> forall e :: e in s.live.Values ==> !Matches(f, e)
  {
    hide Represents, Finds, Cursor.Valid, Cursor.View, Cursor.Objects, Matches;
    if |f.ids| > 0 {
      c := BuildIDsCursor(fnv, db, f, slot, s);
    } else {
      var cursor := BuildConditions(fnv, sha, db, f, slot, s);
      c := Some(cursor);
    }
    own := if c.Some? then c.value.Objects() else {};
  }

  /** The pairs are the cursors of the first `n` filters, except those that match nothing. */
  ghost predicate Paired(live: set<Event>, filters: seq<Filter>, n: nat, pairs: seq<Pair>, repr: set<object>)
    reads repr
    requires n <= |filters|
  {
    && PairsApart(pairs) && PairsValid(pairs, repr)
    && (forall i :: 0 <= i < |pairs| ==>
          Boundable(pairs[i].filter) && Finds(live, pairs[i].filter, PairViews(pairs, repr)[i].bag))
    && (forall e :: e in live ==> (MatchesAny(FiltersOf(pairs), e) <==> MatchesAny(filters[..n], e)))
  }

  ghost predicate Prepared(live: set<Event>, filters: seq<Filter>, n: nat, pairs: seq<Pair>, repr: set<object>,
        h: seq<Entry<Pair>>)
    reads repr
    requires n <= |filters|
  {
    Paired(live, filters, n, pairs, repr) && Merged(h, pairs, PairViews(pairs, repr))
  }

  lemma NothingPrepared(live: set<Event>, filters: seq<Filter>)
    ensures Prepared(live, filters, 0, [], {}, [])
  {
  }

  /** A filter without a live match needs no cursor. */
  lemma SkipFilter(live: set<Event>, filters: seq<Filter>, n: nat, pairs: seq<Pair>, repr: set<object>,
        h: seq<Entry<Pair>>)
    requires n < |filters| && Prepared(live, filters, n, pairs, repr, h)
    requires forall e :: e in live ==> !Matches(filters[n], e)
    ensures Prepared(live, filters, n + 1, pairs, repr, h)
  {
    hide Matches, MatchesAny, Cursor.Valid, Cursor.View, Cursor.Objects, Merged, Finds, PairsApart, PairsValid,
         PairViews;
    assert filters[..n + 1] == filters[..n] + [filters[n]];
    forall e | e in live ensures MatchesAny(filters[..n + 1], e) <==> MatchesAny(filters[..n], e) {
      MatchesAnySnoc(filters[..n], filters[n], e);
    }
  }

  lemma EmptyFindsNothing(live: set<Event>, f: Filter, s: Snap)
    requires Finds(live, f, s.bag) && s.Ok() && !s.live
    ensures forall e :: e in live ==> !Matches(Effective(f), e)
  {
    hide Matches, EventRank, Rank, Effective, Boundable;
    forall e | e in live ensures !Matches(Effective(f), e) {
      UnboundableMatchesNothing(f, e);
    }
  }

  /** A cursor with something to yield is that of a filter the bounds leave alone. */
  lemma FindersAreBoundable(live: set<Event>, f: Filter, s: Snap)
    requires Finds(live, f, s.bag) && s.Ok() && s.live
    ensures Effective(f) == f && Boundable(f)
  {
  }

  /** One more pair in the list, with the views of the others as they were. */
  lemma OneMorePair(pairs: seq<Pair>, repr: set<object>, pair: Pair)
    requires PairsApart(pairs) && PairsValid(pairs, repr) && pair.place == |pairs|
    requires pair.cursor.Valid() && pair.cursor.Objects() !! repr
    ensures var all, objects := pairs + [pair], repr + pair.cursor.Objects();
            && PairsApart(all) && PairsValid(all, objects)
            && PairViews(all, objects) == PairViews(pairs, repr) + [pair.cursor.View()]
    ensures pair !in pairs
  {
    hide Cursor.Valid, Cursor.View, Cursor.Objects;
    var all, objects := pairs + [pair], repr + pair.cursor.Objects();
    forall i | 0 <= i < |all| ensures all[i].cursor.Objects() <= objects && all[i].cursor.Valid() {
      assert i < |pairs| ==> all[i] == pairs[i] && pairs[i].cursor.Objects() <= repr;
    }
    forall i, j | 0 <= i < |all| && 0 <= j < |all| && i != j
      ensures all[i].cursor.Objects() !! all[j].cursor.Objects() {
      assert i < |pairs| ==> pairs[i].cursor.Objects() <= repr;
      assert j < |pairs| ==> pairs[j].cursor.Objects() <= repr;
    }
  }

  /** Open the cursor of the next filter and push it, if it has anything to yield. */
  method AddFilter(fnv: Hash, sha: string -> Bytes, db: DB, filters: seq<Filter>, n: nat, pairs0: seq<Pair>,
        ghost repr0: set<object>,
                   h0: seq<Entry<Pair>>, ghost slot: Slot, ghost s: State)
      returns (pairs: seq<Pair>, ghost repr: set<object>, h: seq<Entry<Pair>>)
    requires ShaFits(sha) && Represents(fnv, slot, s, db) && n < |filters|
    requires Prepared(s.live.Values, AllEffective(filters), n, pairs0, repr0, h0)
    ensures repr0 <= repr && fresh(repr - repr0)
    ensures Prepared(s.live.Values, AllEffective(filters), n + 1, pairs, repr, h)
  {
    hide Represents, Finds, Cursor.Valid, Cursor.View, Cursor.Objects, Cursor.HasCurrent, Matches, MatchesAny,
         Prepared, Paired, Snap.Ok, Effective, FiltersOf, PairsApart, PairsValid, PairViews;
    ghost var live, eff := s.live.Values, AllEffective(filters);
    pairs, repr, h := pairs0, repr0, h0;
    var c, own := BuildFilterCursor(fnv, sha, db, filters[n], slot, s);
    if c.None? || !c.value.HasCurrent() {
      if c.Some? {
        EmptyFindsNothing(live, filters[n], c.value.View());
      } else {
        NoneMatches(live, filters[n]);
      }
      SkipFilter(live, eff, n, pairs0, repr0, h0);
      return;
    }
    ghost var view := c.value.View();
    var pair := Pair(|pairs0|, c.value, filters[n]);
    pairs, repr := pairs0 + [pair], repr0 + own;
    ghost var snaps := PairedWith(live, eff, n, pairs0, repr0, h0, pair);
    FindersAreBoundable(live, filters[n], view);
    FilterAdded(live, eff, n, pairs0, repr0, h0, pair);
    var entry := Entry(c.value.InvertedTS(), c.value.EventID(), pair);
    h := PushItem(h0, entry, pairs, snaps + [GONE], |pairs0|, view);
    assert (snaps + [GONE])[|pairs0| := view] == snaps + [view];
    Pushed(live, eff, n + 1, pairs, repr, snaps + [view], h);
  }

  lemma NoneMatches(live: set<Event>, f: Filter)
    requires forall e :: e in live ==> !Matches(f, e)
    ensures forall e :: e in live ==> !Matches(Effective(f), e)
  {
    hide Matches, Effective, Boundable;
    forall e | e in live ensures !Matches(Effective(f), e) {
      UnboundableMatchesNothing(f, e);
    }
  }

  lemma PairedWith(live: set<Event>, filters: seq<Filter>, n: nat, pairs: seq<Pair>, repr: set<object>,
        h: seq<Entry<Pair>>, pair: Pair)
      returns (snaps: seq<Snap>)
    requires n < |filters| && Prepared(live, filters, n, pairs, repr, h)
    requires pair.place == |pairs| && pair.cursor.Valid() && pair.cursor.Objects() !! repr
    ensures PairsValid(pairs, repr) && snaps == PairViews(pairs, repr) && |snaps| == |pairs|
    ensures Merged(h, pairs + [pair], snaps + [GONE])
  {
    OneMorePair(pairs, repr, pair);
    hide Cursor.Valid, Cursor.View, Cursor.Objects, Merged;
    snaps := PairViews(pairs, repr);
    AppendGone(h, pairs, snaps, pair);
  }

  lemma MatchesEitherWay(filters: seq<Filter>, n: nat, pairs: seq<Pair>, pair: Pair, e: Event)
    requires n < |filters| && pair.filter == filters[n]
    requires MatchesAny(FiltersOf(pairs), e) <==> MatchesAny(filters[..n], e)
    ensures MatchesAny(FiltersOf(pairs + [pair]), e) <==> MatchesAny(filters[..n + 1], e)
  {
    hide Matches, MatchesAny;
    assert filters[..n + 1] == filters[..n] + [filters[n]];
    assert FiltersOf(pairs + [pair]) == FiltersOf(pairs) + [filters[n]];
    MatchesAnySnoc(filters[..n], filters[n], e);
    MatchesAnySnoc(FiltersOf(pairs), filters[n], e);
  }

  lemma FilterAdded(live: set<Event>, filters: seq<Filter>, n: nat, pairs: seq<Pair>, repr: set<object>,
        h: seq<Entry<Pair>>, pair: Pair)
    requires n < |filters| && Prepared(live, filters, n, pairs, repr, h)
    requires pair.place == |pairs| && pair.filter == filters[n] && Boundable(filters[n])
    requires pair.cursor.Valid() && pair.cursor.Objects() !! repr
    requires Finds(live, filters[n], pair.cursor.View().bag)
    ensures var all, objects := pairs + [pair], repr + pair.cursor.Objects();
            && PairsValid(pairs, repr) && Paired(live, filters, n + 1, all, objects)
            && PairsValid(all, objects) && PairViews(all, objects) == PairViews(pairs, repr) + [pair.cursor.View()]
  {
    hide Cursor.Valid, Cursor.View, Cursor.Objects, Merged, Finds, PairsValid, PairViews, PairsApart, Boundable,
         MatchesAny, Matches;
    OneMorePair(pairs, repr, pair);
    forall e | e in live ensures MatchesAny(FiltersOf(pairs + [pair]), e) <==> MatchesAny(filters[..n + 1], e) {
      MatchesEitherWay(filters, n, pairs, pair, e);
    }
    hide FiltersOf;
  }

  lemma Pushed(live: set<Event>, filters: seq<Filter>, n: nat, pairs: seq<Pair>, repr: set<object>, snaps: seq<Snap>,
        h: seq<Entry<Pair>>)
    requires n <= |filters| && Paired(live, filters, n, pairs, repr)
    requires PairsValid(pairs, repr) && PairViews(pairs, repr) == snaps && Merged(h, pairs, snaps)
    ensures Prepared(live, filters, n, pairs, repr, h)
  {
  }

  lemma ReadyToSearch(live: set<Event>, filters: seq<Filter>, pairs: seq<Pair>, repr: set<object>, h: seq<Entry<Pair>>)
    requires Prepared(live, filters, |filters|, pairs, repr, h)
    requires AllWellFormed(live) && DistinctIds(live)
    ensures PairsApart(pairs) && PairsValid(pairs, repr) && Merged(h, pairs, PairViews(pairs, repr))
    ensures Searching(live, FiltersOf(pairs), PairViews(pairs, repr), [], {})
    ensures forall e :: e in live ==> (MatchesAny(FiltersOf(pairs), e) <==> MatchesAny(filters, e))
  {
    hide Cursor.Valid, Cursor.View, Cursor.Objects, Merged, Matches, MatchesAny, WellFormed, EventRank;
    assert filters[..|filters|] == filters;
  }

  lemma PebbleAdmits(live: set<Event>, filters: seq<Filter>, out: seq<Event>)
    requires IsAnswer(live, AllEffective(filters), out)
    ensures Admitted((set e | e in live && BoundedMatch(filters, e)), filters, out)
  {
    AnswerReads(live, AllEffective(filters), out);
    hide IsAnswer, BoundedMatch, MatchesAny, Boundable, Matches;
    forall e ensures MatchesAny(AllEffective(filters), e) <==> BoundedMatch(filters, e) {
      EffectiveMatches(filters, e);
    }
    assert (set e | e in live && MatchesAny(AllEffective(filters), e)) == set e | e in live && BoundedMatch(filters, e);
    assert filters != [] ==> AllEffective(filters)[0].limit == filters[0].limit;
  }

  /** `PebbleStorage.Query` answers what the live events say it must, whatever the hash function. */
  method Query(fnv: Hash, sha: string -> Bytes, db: DB, filters: seq<Filter>, ghost slot: Slot, ghost s: State)
      returns (out: seq<Event>)
    requires ShaFits(sha) && Represents(fnv, slot, s, db)
    ensures IsAnswer(s.live.Values, AllEffective(filters), out)
    ensures Admitted((set e | e in s.live.Values && BoundedMatch(filters, e)), filters, out)
  {
    hide Represents, Prepared, Cursor.Valid, Cursor.View, Cursor.Objects, Merged, Searching, Matches, MatchesAny,
         IsAnswer, Fetchable, ValidKeys, PairsApart, PairsValid, PairViews, FiltersOf, AllWellFormed, DistinctIds,
         Effective;
    ghost var live := s.live.Values;
    var limit := -1;
    if |filters| > 0 && filters[0].limit.Some? {
      limit := filters[0].limit.value;
    }
    var pairs: seq<Pair> := [];
    ghost var repr: set<object> := {};
    var h: seq<Entry<Pair>> := [];
    NothingPrepared(live, AllEffective(filters));
    for n := 0 to |filters|
      invariant fresh(repr) && Prepared(live, AllEffective(filters), n, pairs, repr, h)
    {
      pairs, repr, h := AddFilter(fnv, sha, db, filters, n, pairs, repr, h, slot, s);
    }
    DatabaseFacts(fnv, slot, s, db);
    ReadyToSearch(live, AllEffective(filters), pairs, repr, h);
    out := PebbleSearch.Search(db, pairs, repr, h, limit, AllEffective(filters), live);
    PebbleAdmits(live, filters, out);
  }
}
