/** The keys of the Pebble store: six key spaces told apart by their first byte. */
module Keys {
  import opened Bytes
  import opened Events

  datatype Key =
    | EventKey(id: Bytes)
    | CreatedAtKey(invertedTS: uint64, id: Bytes)
    | AddrKey(addr: string)
    | DeletedIdKey(id: Bytes)
    | DeletedAddrKey(addr: string)
    | FieldKey(hash: uint64, invertedTS: uint64, id: Bytes)

  /** The bytes of a key; `sha` hashes an address to 32 bytes. */
  function Encode(sha: string -> Bytes, k: Key): Bytes {
    match k
    case EventKey(id) => [0x01] + id
    case CreatedAtKey(ts, id) => [0x02] + (PutUint64(ts) + id)
    case AddrKey(addr) => [0x03] + sha(addr)
    case DeletedIdKey(id) => [0x04] + id
    case DeletedAddrKey(addr) => [0x05] + sha(addr)
    case FieldKey(hash, ts, id) => FieldPrefix(hash) + (PutUint64(ts) + id)
  }

  function FieldPrefix(hash: uint64): (p: Bytes)
    ensures |p| == 9
  {
    [0x06] + PutUint64(hash)
  }

  predicate ValidKey(k: Key) {
    !k.AddrKey? && !k.DeletedAddrKey? ==> |k.id| == 32
  }

  predicate IndexKey(k: Key) {
    k.CreatedAtKey? || k.FieldKey?
  }

  /** Different keys have different bytes as long as the addresses in them do not collide. */
  lemma EncodeInjective(sha: string -> Bytes, k: Key, k': Key)
    requires ValidKey(k) && ValidKey(k')
    requires (k.AddrKey? && k'.AddrKey?) || (k.DeletedAddrKey? && k'.DeletedAddrKey?) ==>
               (sha(k.addr) == sha(k'.addr) ==> k.addr == k'.addr)
    requires Encode(sha, k) == Encode(sha, k')
    ensures k == k'
  {
    var b, b' := Encode(sha, k), Encode(sha, k');
    assert b[0] == b'[0];
    if k.FieldKey? {
      assert b[1..9] == PutUint64(k.hash) && b'[1..9] == PutUint64(k'.hash);
      assert b[9..17] == PutUint64(k.invertedTS) && b'[9..17] == PutUint64(k'.invertedTS);
      assert b[17..] == k.id && b'[17..] == k'.id;
      Uint64Order(k.hash, k'.hash);
      Uint64Order(k.invertedTS, k'.invertedTS);
    } else if k.CreatedAtKey? {
      assert b[1..9] == PutUint64(k.invertedTS) && b'[1..9] == PutUint64(k'.invertedTS);
      assert b[9..] == k.id && b'[9..] == k'.id;
      Uint64Order(k.invertedTS, k'.invertedTS);
    } else {
      assert b[1..] == b'[1..];
      if k.AddrKey? || k.DeletedAddrKey? {
        assert b[1..] == sha(k.addr) && b'[1..] == sha(k'.addr);
      } else {
        assert b[1..] == k.id && b'[1..] == k'.id;
      }
    }
  }

  // ---------- Time bounds of a scan ----------

  /** Inverted timestamps run the other way, so `until` gives the lower bound. */
  predicate InBounds(invertedTS: uint64, since: Option<int64>, until: Option<int64>) {
    && (until.Some? ==> invertedTS >= InvertTimestamp(until.value))
    && (since.Some? ==> invertedTS < (InvertTimestamp(since.value) + 1) % TWO_64)
  }

  const MIN_INT64: int64 := -TWO_63

  predicate InTimeRange(ts: int64, since: Option<int64>, until: Option<int64>) {
    (since.Some? ==> since.value <= ts) && (until.Some? ==> ts <= until.value)
  }

  lemma BoundsAt(ts: int64, since: Option<int64>, until: Option<int64>)
    requires since != Some(MIN_INT64)
    ensures InBounds(InvertTimestamp(ts), since, until) <==> InTimeRange(ts, since, until)
  {
    InvertTimestampValue(ts);
    if since.Some? {
      InvertTimestampValue(since.value);
    }
    if until.Some? {
      InvertTimestampValue(until.value);
    }
    hide InvertTimestamp;
  }

  /** The bounds keep exactly the events of the time range if and only if `since` is not the
      smallest int64, whose exclusive bound wraps around to zero. */
  lemma BoundsExact(since: Option<int64>, until: Option<int64>)
    ensures (forall ts: int64 :: InBounds(InvertTimestamp(ts), since, until) <==> InTimeRange(ts, since, until))
            <==> since != Some(MIN_INT64)
  {
    if since == Some(MIN_INT64) {
      assert !InBounds(InvertTimestamp(MIN_INT64), since, until);
      assert InTimeRange(MIN_INT64, since, until);
    } else {
      forall ts: int64
        ensures InBounds(InvertTimestamp(ts), since, until) <==> InTimeRange(ts, since, until)
      {
        BoundsAt(ts, since, until);
      }
    }
  }

  lemma TailLess(ts: uint64, id: Bytes, bound: uint64)
    ensures Less(PutUint64(ts) + id, PutUint64(bound)) <==> ts < bound
  {
    LessAppend(PutUint64(ts), PutUint64(bound), id, []);
    assert PutUint64(bound) + [] == PutUint64(bound);
    Uint64Order(ts, bound);
  }

  /** A scan with these bounds over the field index sees exactly the entries of one hash in the
      time range, and nothing from the other key spaces. */
  lemma FieldScan(sha: string -> Bytes, k: Key, hash: uint64, since: Option<int64>, until: Option<int64>,
                  lower: Bytes, upper: Bytes)
    requires ValidKey(k) && (k.AddrKey? || k.DeletedAddrKey? ==> |sha(k.addr)| == 32)
    requires lower == FieldPrefix(hash) + (if until.Some? then PutUint64(InvertTimestamp(until.value)) else [])
    requires upper == if since.Some? then FieldPrefix(hash) + PutUint64((InvertTimestamp(since.value) + 1) % TWO_64)
                      else Increment(FieldPrefix(hash))
    ensures InRange(Encode(sha, k), lower, upper)
            <==> k.FieldKey? && k.hash == hash && InBounds(k.invertedTS, since, until)
  {
    var b, p := Encode(sha, k), FieldPrefix(hash);
    assert lower[0] == 0x06;
    if !k.FieldKey? {
      assert b[0] < 0x06;
    } else {
      hide Increment, Less, PutUint64, InvertTimestamp;
      var p', tail := FieldPrefix(k.hash), PutUint64(k.invertedTS) + k.id;
      FieldPrefixInjective(k.hash, hash);
      LessTotal(p', p);
      if until.Some? {
        LessAppend(p', p, tail, PutUint64(InvertTimestamp(until.value)));
        TailLess(k.invertedTS, k.id, InvertTimestamp(until.value));
      } else {
        LessAppend(p', p, tail, []);
        assert p + [] == p;
        NothingBelowEmpty(tail);
      }
      if since.Some? {
        LessAppend(p', p, tail, PutUint64((InvertTimestamp(since.value) + 1) % TWO_64));
        TailLess(k.invertedTS, k.id, (InvertTimestamp(since.value) + 1) % TWO_64);
      } else {
        assert p[0] != 255;
        IncrementBounds(p, b);
        assert p <= b <==> p' == p by { assert b[..9] == p'; }
        LessAppend(p', p, tail, []);
        assert p + [] == p;
        NothingBelowEmpty(tail);
      }
    }
  }

  lemma NothingBelowEmpty(a: Bytes)
    ensures !Less(a, [])
  {
  }

  lemma FieldPrefixInjective(h: uint64, h': uint64)
    ensures FieldPrefix(h) == FieldPrefix(h') <==> h == h'
  {
    assert FieldPrefix(h)[1..] == PutUint64(h) && FieldPrefix(h')[1..] == PutUint64(h');
    Uint64Order(h, h');
  }

  /** The same for the index of all events by time. */
  lemma CreatedAtScan(sha: string -> Bytes, k: Key, since: Option<int64>, until: Option<int64>,
                      lower: Bytes, upper: Bytes)
    requires ValidKey(k) && (k.AddrKey? || k.DeletedAddrKey? ==> |sha(k.addr)| == 32)
    requires lower == [0x02] + (if until.Some? then PutUint64(InvertTimestamp(until.value)) else [])
    requires upper == if since.Some? then [0x02] + PutUint64((InvertTimestamp(since.value) + 1) % TWO_64) else [0x03]
    ensures InRange(Encode(sha, k), lower, upper) <==> k.CreatedAtKey? && InBounds(k.invertedTS, since, until)
  {
    var b := Encode(sha, k);
    assert lower[0] == 0x02;
    assert upper[0] == if since.Some? then 0x02 else 0x03;
    if k.CreatedAtKey? {
      var tail := PutUint64(k.invertedTS) + k.id;
      hide InvertTimestamp, PutUint64;
      assert Less([0x02], [0x03]);
      if until.Some? {
        LessSamePrefix([0x02], tail, PutUint64(InvertTimestamp(until.value)));
        TailLess(k.invertedTS, k.id, InvertTimestamp(until.value));
      } else {
        LessSamePrefix([0x02], tail, []);
        var p: Bytes := [0x02];
        assert p + [] == p;
      }
      if since.Some? {
        LessSamePrefix([0x02], tail, PutUint64((InvertTimestamp(since.value) + 1) % TWO_64));
        TailLess(k.invertedTS, k.id, (InvertTimestamp(since.value) + 1) % TWO_64);
      }
    } else if k.EventKey? {
      assert b[0] == 0x01;
    } else {
      assert b[0] > 0x02;
      NothingBelowEmpty(b[1..]);
      assert since.None? ==> upper[1..] == [];
    }
  }
}
