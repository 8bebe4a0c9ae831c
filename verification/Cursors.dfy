/** The leaves of the query tree: a scan of one index, and a sorted list of fetched entries.

    Every cursor stands for the bag of positions it has yet to yield, least first. `last` bounds
    what it has consumed: seeking is absolute, so a target must lie above everything consumed. */
module LeafCursors {
  import opened Bytes
  import opened Events
  import opened Bags

  /** What a parent sees of a cursor: its head while it has one, and what it has yet to yield. */
  datatype Snap = Snap(ts: uint64, id: Bytes, live: bool, bag: Bag, last: int) {
    ghost function Head(): int {
      Rank(ts, id)
    }

    ghost predicate Ok() {
      && (live <==> bag != multiset{})
      && (live ==> |id| == 32 && Head() in bag)
      && (forall x :: x in bag ==> Head() <= x && last <= x)
    }
  }

  /** A step of a cursor consumes its head. */
  ghost predicate Stepped(s: Snap, s': Snap) {
    s.live && s'.Ok() && s'.bag == s.bag - multiset{s.Head()} && s'.last == s.Head()
  }

  /** A forward seek drops what lies below the target. */
  ghost predicate Sought(s: Snap, s': Snap, t: int) {
    s'.Ok() && s'.bag == From(s.bag, t) && s'.last == t - 1
  }

  /** Index keys of one scan: the prefix, then eight bytes of inverted timestamp and the id. */
  ghost predicate Scan(prefix: Bytes, keys: seq<Bytes>) {
    && (forall i :: 0 <= i < |keys| ==> |keys[i]| == |prefix| + 40 && prefix <= keys[i])
    && (forall i, j :: 0 <= i < j < |keys| ==> Less(keys[i], keys[j]))
  }

  ghost function KeyRank(prefix: Bytes, key: Bytes): nat
    requires |key| == |prefix| + 40
  {
    BigEndian(key[|prefix|..])
  }

  ghost function Ranks(prefix: Bytes, keys: seq<Bytes>): (r: seq<int>)
    requires Scan(prefix, keys)
    ensures |r| == |keys| && forall i :: 0 <= i < |keys| ==> r[i] == KeyRank(prefix, keys[i])
  {
    seq(|keys|, i requires 0 <= i < |keys| => KeyRank(prefix, keys[i]))
  }

  ghost predicate Ascending(r: seq<int>) {
    forall i, j :: 0 <= i < j < |r| ==> r[i] < r[j]
  }

  lemma KeyOrder(prefix: Bytes, a: Bytes, b: Bytes)
    requires |a| == |prefix| + 40 && prefix <= a && |b| == |prefix| + 40 && prefix <= b
    ensures Less(a, b) <==> KeyRank(prefix, a) < KeyRank(prefix, b)
  {
    assert a == prefix + a[|prefix|..] && b == prefix + b[|prefix|..];
    LessSamePrefix(prefix, a[|prefix|..], b[|prefix|..]);
    BigEndianOrder(a[|prefix|..], b[|prefix|..]);
  }

  lemma RanksAscend(prefix: Bytes, keys: seq<Bytes>)
    requires Scan(prefix, keys)
    ensures Ascending(Ranks(prefix, keys))
  {
    hide Less, KeyRank;
    forall i, j | 0 <= i < j < |keys| ensures KeyRank(prefix, keys[i]) < KeyRank(prefix, keys[j]) {
      KeyOrder(prefix, keys[i], keys[j]);
    }
  }

  /** Reading timestamp and id back off an index key gives its position. */
  lemma ReadPosition(prefix: Bytes, key: Bytes)
    requires |key| == |prefix| + 40
    ensures var n := |prefix|;
            && BigEndian(key[n..n + 8]) < TWO_64
            && Rank(BigEndian(key[n..n + 8]), key[n + 8..n + 40]) == KeyRank(prefix, key)
  {
    var n := |prefix|;
    PutUint64Back(key[n..n + 8]);
    assert key[n..] == key[n..n + 8] + key[n + 8..n + 40];
  }

  lemma DropHead(r: seq<int>, pos: nat)
    requires pos < |r|
    ensures multiset(r[pos..]) == multiset(r[pos + 1..]) + multiset{r[pos]}
    ensures multiset(r[pos + 1..]) == multiset(r[pos..]) - multiset{r[pos]}
  {
    assert r[pos..] == [r[pos]] + r[pos + 1..];
  }

  lemma AroundHead(r: seq<int>, pos: nat)
    requires Ascending(r) && pos < |r|
    ensures forall i :: 0 <= i < pos + 1 ==> r[i] <= r[pos]
    ensures forall i :: pos + 1 <= i < |r| ==> r[pos] <= r[i]
  {
  }

  lemma DropBelow(r: seq<int>, pos: nat, pos': nat, t: int)
    requires pos <= pos' <= |r|
    requires forall i :: pos <= i < pos' ==> r[i] < t
    requires forall i :: pos' <= i < |r| ==> r[i] >= t
    ensures multiset(r[pos'..]) == From(multiset(r[pos..]), t)
  {
    assert r[pos..] == r[pos..pos'] + r[pos'..];
    forall x ensures multiset(r[pos'..])[x] == From(multiset(r[pos..]), t)[x] {
      if x in r[pos..pos'] {
        var i :| 0 <= i < pos' - pos && r[pos..pos'][i] == x;
        assert r[pos + i] == x;
      }
      if x in r[pos'..] {
        var i :| 0 <= i < |r| - pos' && r[pos'..][i] == x;
        assert r[pos' + i] == x;
      }
    }
  }

  lemma BagMembers(r: seq<int>, pos: nat)
    requires pos <= |r|
    ensures forall x :: x in multiset(r[pos..]) <==> exists i :: pos <= i < |r| && r[i] == x
  {
    forall x ensures x in multiset(r[pos..]) <==> exists i :: pos <= i < |r| && r[i] == x {
      if x in multiset(r[pos..]) {
        var i :| 0 <= i < |r| - pos && r[pos..][i] == x;
        assert r[pos + i] == x;
      }
      if i :| pos <= i < |r| && r[i] == x {
        assert r[pos..][i - pos] == x;
      }
    }
  }

  /** `indexCursor` over a Pebble iterator: the keys within the bounds of the scan, as they stood
      when the snapshot was taken, and the place the iterator is at. */
  class IndexCursor {
    const keys: seq<Bytes>
    const seekPrefix: Bytes
    var pos: nat
    var curInvertedTS: uint64
    var curEventID: Bytes
    var curValid: bool
    ghost var last: int

    ghost predicate Valid()
      reads this
    {
      && Scan(seekPrefix, keys) && pos <= |keys|
      && (curValid <==> pos < |keys|)
      && (curValid ==> |curEventID| == 32 && Rank(curInvertedTS, curEventID) == Ranks(seekPrefix, keys)[pos])
      && (forall i :: 0 <= i < pos ==> Ranks(seekPrefix, keys)[i] <= last)
      && (forall i :: pos <= i < |keys| ==> last <= Ranks(seekPrefix, keys)[i])
    }

    ghost function View(): (s: Snap)
      reads this
      requires Valid()
      ensures s.Ok() && s.live == curValid && s.ts == curInvertedTS && s.id == curEventID
      ensures s.bag == multiset(Ranks(seekPrefix, keys)[pos..]) && s.last == last
    {
      hide Rank, Ranks, Scan;
      HeadIsLeast();
      Snap(curInvertedTS, curEventID, curValid, multiset(Ranks(seekPrefix, keys)[pos..]), last)
    }

    constructor (keys: seq<Bytes>, seekPrefix: Bytes)
      requires Scan(seekPrefix, keys)
      ensures Valid() && this.keys == keys && this.seekPrefix == seekPrefix
      ensures View().last == -1 && View().bag == multiset(Ranks(seekPrefix, keys))
    {
      this.keys, this.seekPrefix := keys, seekPrefix;
      pos, curInvertedTS, curEventID, curValid, last := 0, 0, [], false, -1;
      new;
      hide Scan, KeyRank, Rank;
      if pos < |keys| {
        ReadCurrent();
      }
      assert Ranks(seekPrefix, keys)[0..] == Ranks(seekPrefix, keys);
    }

    method ReadCurrent()
      requires Scan(seekPrefix, keys) && pos < |keys|
      modifies this`curInvertedTS, this`curEventID, this`curValid
      ensures curValid && |curEventID| == 32
      ensures Rank(curInvertedTS, curEventID) == Ranks(seekPrefix, keys)[pos]
    {
      var key := keys[pos];
      var timestampOffset := |seekPrefix|;
      var eventIDOffset := timestampOffset + 8;
      ReadPosition(seekPrefix, key);
      hide BigEndian, KeyRank, Rank;
      curInvertedTS := BigEndian(key[timestampOffset..timestampOffset + 8]);
      curEventID := key[eventIDOffset..eventIDOffset + 32];
      curValid := true;
    }

    /** While the cursor is valid its head is the least position left. */
    lemma HeadIsLeast()
      requires Valid()
      ensures var bag := multiset(Ranks(seekPrefix, keys)[pos..]);
              && (curValid <==> bag != multiset{})
              && (curValid ==> |curEventID| == 32 && Rank(curInvertedTS, curEventID) in bag)
              && (forall x :: x in bag ==> Rank(curInvertedTS, curEventID) <= x && last <= x)
    {
      var r := Ranks(seekPrefix, keys);
      RanksAscend(seekPrefix, keys);
      BagMembers(r, pos);
      hide Scan, KeyRank, Rank, Ranks;
      if curValid {
        assert r[pos] in multiset(r[pos..]);
      }
    }

    method Next() returns (ok: bool)
      requires Valid()
      modifies this
      ensures Valid() && ok == View().live
      ensures old(curValid) ==> Stepped(old(View()), View())
      ensures !old(curValid) ==> !ok && View().bag == old(View()).bag
    {
      RanksAscend(seekPrefix, keys);
      hide Scan, KeyRank, Rank, Ranks, Snap.Ok, Ascending;
      ghost var r := Ranks(seekPrefix, keys);
      if pos < |keys| {
        AroundHead(r, pos);
        last := r[pos];
        DropHead(r, pos);
        pos := pos + 1;
      }
      if pos >= |keys| {
        curValid := false;
        return false;
      }
      ReadCurrent();
      return true;
    }

    method SeekGE(invertedTS: uint64, eventID: Bytes) returns (ok: bool)
      requires Valid() && |eventID| == 32 && last < Rank(invertedTS, eventID)
      modifies this
      ensures Valid() && ok == View().live
      ensures Sought(old(View()), View(), Rank(invertedTS, eventID))
    {
      hide Less, KeyRank, Rank, Ranks, Scan, PutUint64, BigEndian, From;
      var seekKey := seekPrefix + (PutUint64(invertedTS) + eventID);
      ghost var t: int := Rank(invertedTS, eventID);
      ghost var r := Ranks(seekPrefix, keys);
      var place := IteratorSeekGE(keys, seekKey);
      SeekPlace(seekPrefix, keys, invertedTS, eventID, place);
      DropBelow(r, pos, place, t);
      pos := place;
      last := t - 1;
      if pos >= |keys| {
        curValid := false;
        return false;
      }
      ReadCurrent();
      return true;
    }
  }

  /** The seek of a Pebble iterator: the first key at or after the target, wherever it stood. */
  method IteratorSeekGE(keys: seq<Bytes>, key: Bytes) returns (place: nat)
    ensures place <= |keys| && forall i :: 0 <= i < place ==> Less(keys[i], key)
    ensures place < |keys| ==> !Less(keys[place], key)
  {
    place := 0;
    while place < |keys|
      invariant 0 <= place <= |keys| && forall i :: 0 <= i < place ==> Less(keys[i], key)
    {
      var below := BytesLess(keys[place], key);
      if !below {
        return;
      }
      place := place + 1;
    }
  }

  lemma SeekPlace(prefix: Bytes, keys: seq<Bytes>, ts: uint64, id: Bytes, place: nat)
    requires Scan(prefix, keys) && |id| == 32 && place <= |keys|
    requires var key := prefix + (PutUint64(ts) + id);
             && (forall i :: 0 <= i < place ==> Less(keys[i], key))
             && (place < |keys| ==> !Less(keys[place], key))
    ensures forall i :: 0 <= i < place ==> Ranks(prefix, keys)[i] < Rank(ts, id)
    ensures forall i :: place <= i < |keys| ==> Ranks(prefix, keys)[i] >= Rank(ts, id)
  {
    var key := prefix + (PutUint64(ts) + id);
    assert key[|prefix|..] == PutUint64(ts) + id;
    assert KeyRank(prefix, key) == Rank(ts, id);
    RanksAscend(prefix, keys);
    hide Less, KeyRank, Rank, PutUint64;
    forall i | 0 <= i < place ensures Ranks(prefix, keys)[i] < Rank(ts, id) {
      KeyOrder(prefix, keys[i], key);
    }
    if place < |keys| {
      KeyOrder(prefix, keys[place], key);
      assert Ranks(prefix, keys)[place] >= Rank(ts, id);
    }
  }

  datatype SliceEntry = SliceEntry(invertedTS: uint64, eventID: Bytes)

  ghost function SliceRanks(entries: seq<SliceEntry>): (r: seq<int>)
    ensures |r| == |entries|
    ensures forall i :: 0 <= i < |r| ==> r[i] == Rank(entries[i].invertedTS, entries[i].eventID)
  {
    seq(|entries|, i requires 0 <= i < |entries| => Rank(entries[i].invertedTS, entries[i].eventID))
  }

  ghost predicate SortedEntries(entries: seq<SliceEntry>) {
    && (forall i :: 0 <= i < |entries| ==> |entries[i].eventID| == 32)
    && (forall i, j :: 0 <= i < j < |entries| ==> SliceRanks(entries)[i] <= SliceRanks(entries)[j])
  }

  /** `sliceCursor`: entries fetched by id and sorted beforehand. Its seek starts from where the
      cursor stands. */
  class SliceCursor {
    const entries: seq<SliceEntry>
    var pos: nat
    ghost var last: int

    ghost predicate Valid()
      reads this
    {
      SortedEntries(entries) && forall i :: pos <= i < |entries| ==> last <= SliceRanks(entries)[i]
    }

    predicate HasCurrent()
      reads this
    {
      pos < |entries|
    }

    function InvertedTS(): uint64
      reads this
      requires HasCurrent()
    {
      entries[pos].invertedTS
    }

    function EventID(): Bytes
      reads this
      requires HasCurrent()
    {
      entries[pos].eventID
    }

    ghost function Bag(): Bag
      reads this
    {
      if pos <= |entries| then multiset(SliceRanks(entries)[pos..]) else multiset{}
    }

    ghost function View(): (s: Snap)
      reads this
      requires Valid()
      ensures s.Ok() && s.live == HasCurrent() && s.bag == Bag()
      ensures HasCurrent() ==> s.ts == InvertedTS() && s.id == EventID()
    {
      HeadIsLeast();
      if HasCurrent() then Snap(InvertedTS(), EventID(), true, Bag(), last)
      else Snap(0, [], false, multiset{}, last)
    }

    constructor (entries: seq<SliceEntry>)
      requires SortedEntries(entries)
      ensures Valid() && this.entries == entries && Bag() == multiset(SliceRanks(entries))
    {
      this.entries := entries;
      pos, last := 0, -1;
      new;
      assert SliceRanks(entries)[0..] == SliceRanks(entries);
    }

    lemma HeadIsLeast()
      requires Valid()
      ensures HasCurrent() <==> Bag() != multiset{}
      ensures HasCurrent() ==>
                |EventID()| == 32 && Rank(InvertedTS(), EventID()) in Bag() &&
                forall x :: x in Bag() ==> Rank(InvertedTS(), EventID()) <= x && last <= x
    {
      if pos <= |entries| {
        BagMembers(SliceRanks(entries), pos);
      }
      if HasCurrent() {
        assert SliceRanks(entries)[pos] in Bag();
      }
    }

    method Next() returns (ok: bool)
      requires Valid()
      modifies this
      ensures Valid() && ok == HasCurrent()
      ensures old(HasCurrent()) ==> Stepped(old(View()), View())
      ensures !old(HasCurrent()) ==> !ok && Bag() == old(Bag())
    {
      hide Rank;
      if pos < |entries| {
        last := SliceRanks(entries)[pos];
        DropHead(SliceRanks(entries), pos);
      }
      pos := pos + 1;
      ok := pos < |entries|;
    }

    method SeekGE(invertedTS: uint64, eventID: Bytes) returns (ok: bool)
      requires Valid() && pos <= |entries| && |eventID| == 32 && last < Rank(invertedTS, eventID)
      modifies this
      ensures Valid() && ok == HasCurrent()
      ensures Sought(old(View()), View(), Rank(invertedTS, eventID))
    {
      hide Rank;
      ghost var t: int := Rank(invertedTS, eventID);
      ghost var r := SliceRanks(entries);
      var i := Search(entries, pos, invertedTS, eventID);
      DropBelow(r, pos, i, t);
      pos := i;
      last := t - 1;
      ok := pos < |entries|;
    }
  }

  /** `sort.Search` for the first entry at or after a position. */
  method Search(entries: seq<SliceEntry>, start: nat, invertedTS: uint64, eventID: Bytes) returns (lo: nat)
    requires SortedEntries(entries) && start <= |entries| && |eventID| == 32
    ensures start <= lo <= |entries|
    ensures forall i :: start <= i < lo ==> SliceRanks(entries)[i] < Rank(invertedTS, eventID)
    ensures forall i :: lo <= i < |entries| ==> SliceRanks(entries)[i] >= Rank(invertedTS, eventID)
  {
    ghost var t, r := Rank(invertedTS, eventID), SliceRanks(entries);
    hide Rank, Less, SliceRanks;
    lo := start;
    var hi := |entries|;
    while lo < hi
      invariant start <= lo <= hi <= |entries|
      invariant forall i :: start <= i < lo ==> r[i] < t
      invariant forall i :: hi <= i < |entries| ==> r[i] >= t
    {
      var mid := (lo + hi) / 2;
      var below := EntryBelow(entries[mid], invertedTS, eventID);
      assert below <==> r[mid] < t;
      if below {
        lo := mid + 1;
      } else {
        hi := mid;
      }
    }
  }

  method EntryBelow(e: SliceEntry, invertedTS: uint64, eventID: Bytes) returns (below: bool)
    requires |e.eventID| == |eventID| == 32
    ensures below <==> Rank(e.invertedTS, e.eventID) < Rank(invertedTS, eventID)
  {
    RankOrder(e.invertedTS, e.eventID, invertedTS, eventID);
    if e.invertedTS != invertedTS {
      return e.invertedTS < invertedTS;
    }
    below := BytesLess(e.eventID, eventID);
  }
}
