/** Events, the address a replaceable event lives at, and the order query answers come in. */
module Events {
  import opened Bytes

  datatype Option<+T> = None | Some(value: T)

  type Tag = seq<string>

  /** `createdAt` is in whole seconds. */
  datatype Event = Event(
    id: string, pubkey: string, createdAt: int64, kind: int64, tags: seq<Tag>, content: string, sig: string)

  datatype EventType = Regular | Replaceable | Ephemeral | Addressable

  function TypeOf(e: Event): EventType {
    if e.kind == 0 || e.kind == 3 || 10000 <= e.kind < 20000 then Replaceable
    else if 20000 <= e.kind < 30000 then Ephemeral
    else if 30000 <= e.kind < 40000 then Addressable
    else Regular
  }

  function FormatNat(n: nat): (s: string)
    ensures |s| > 0
  {
    if n < 10 then [HexDigit(n)] else FormatNat(n / 10) + [HexDigit(n % 10)]
  }

  function FormatInt(n: int): (s: string)
    ensures |s| > 0
  {
    if n < 0 then "-" + FormatNat(-n) else FormatNat(n)
  }

  /** The value of the first `d` tag, or the empty string. */
  function DTag(tags: seq<Tag>): string {
    if tags == [] then ""
    else if |tags[0]| >= 1 && tags[0][0] == "d" then (if |tags[0]| > 1 then tags[0][1] else "")
    else DTag(tags[1..])
  }

  function Address(e: Event): string {
    match TypeOf(e)
    case Replaceable => FormatInt(e.kind) + ":" + e.pubkey + ":"
    case Addressable => FormatInt(e.kind) + ":" + e.pubkey + ":" + DTag(e.tags)
    case _ => ""
  }

  /** Exactly the replaceable and addressable events have an address. */
  lemma AddressEmpty(e: Event)
    ensures Address(e) == "" <==> TypeOf(e).Regular? || TypeOf(e).Ephemeral?
  {
  }

  /** A deletion request (kind 5) is a regular event. */
  lemma RequestsAreRegular(e: Event)
    ensures e.kind == 5 ==> TypeOf(e).Regular? && Address(e) == ""
  {
  }

  predicate Id64(s: string) {
    |s| == 64 && LowerHex(s)
  }

  /** What the relay has checked before an event reaches a storage: NIP-01 asks for 32-byte
      lower-case hexadecimal ids and public keys. */
  predicate WellFormed(e: Event) {
    Id64(e.id) && Id64(e.pubkey)
  }

  // ---------- Order of answers ----------

  /** created_at descending, then id ascending. */
  predicate Before(a: Event, b: Event) {
    a.createdAt > b.createdAt || (a.createdAt == b.createdAt && StringLess(a.id, b.id))
  }

  lemma BeforeOrder(a: Event, b: Event, c: Event)
    ensures !(Before(a, b) && Before(b, a))
    ensures Before(a, b) || Before(b, a) || (a.createdAt == b.createdAt && a.id == b.id)
    ensures Before(a, b) && Before(b, c) ==> Before(a, c)
  {
    hide StringLess;
    StringLessTotal(a.id, b.id);
    if StringLess(a.id, b.id) && StringLess(b.id, c.id) {
      StringLessTransitive(a.id, b.id, c.id);
    }
  }

  /** The position of an index entry as one number: inverted timestamp, then id bytes. */
  function Rank(invertedTS: uint64, id: Bytes): nat {
    BigEndian(PutUint64(invertedTS) + id)
  }

  predicate PositionLess(ts: uint64, id: Bytes, ts': uint64, id': Bytes) {
    ts < ts' || (ts == ts' && Less(id, id'))
  }

  /** The two-step comparison of the cursors is the order of ranks, and a rank determines the
      position. */
  lemma RankOrder(ts: uint64, id: Bytes, ts': uint64, id': Bytes)
    requires |id| == |id'|
    ensures PositionLess(ts, id, ts', id') <==> Rank(ts, id) < Rank(ts', id')
    ensures ts == ts' && id == id' <==> Rank(ts, id) == Rank(ts', id')
  {
    var a, b := PutUint64(ts) + id, PutUint64(ts') + id';
    BigEndianOrder(a, b);
    LessAppend(PutUint64(ts), PutUint64(ts'), id, id');
    Uint64Order(ts, ts');
    LessTotal(PutUint64(ts), PutUint64(ts'));
    assert a[..8] == PutUint64(ts) && a[8..] == id;
    assert b[..8] == PutUint64(ts') && b[8..] == id';
  }

  function EventRank(e: Event): nat {
    Rank(InvertTimestamp(e.createdAt), FromHex(e.id))
  }

  /** Byte order of the index entries of two events is the order of answers. */
  lemma EventRankOrder(a: Event, b: Event)
    requires WellFormed(a) && WellFormed(b)
    ensures Before(a, b) <==> EventRank(a) < EventRank(b)
    ensures EventRank(a) == EventRank(b) <==> a.createdAt == b.createdAt && a.id == b.id
  {
    hide Less, StringLess, FromHex, ToHex, Rank, BigEndian, PutUint64, LowerHex;
    RankOrder(InvertTimestamp(a.createdAt), FromHex(a.id), InvertTimestamp(b.createdAt), FromHex(b.id));
    InvertTimestampBijection(a.createdAt, b.createdAt, 0);
    HexOrder(a.id, b.id);
  }

  /** Strictly in the order of answers. */
  predicate Ordered(s: seq<Event>) {
    forall i, j :: 0 <= i < j < |s| ==> Before(s[i], s[j])
  }

  /** `compareEvents`: negative when `a` comes first, positive when `b` does. */
  function CompareEvents(a: Event, b: Event): (c: int)
    ensures c < 0 <==> Before(a, b)
    ensures c == 0 ==> a.createdAt == b.createdAt && a.id == b.id
  {
    if a.createdAt != b.createdAt then (if a.createdAt > b.createdAt then -1 else 1)
    else if StringLess(a.id, b.id) then -1
    else if a.id == b.id then 0
    else 1
  }
}

/** Subscription filters, what they match, and what a storage must answer. */
module Filters {
  import opened Bytes
  import opened Events

  datatype Filter = Filter(
    ids: seq<string>, authors: seq<string>, kinds: seq<int64>, tags: map<string, seq<string>>,
    since: Option<int64>, until: Option<int64>, limit: Option<int64>)

  predicate TagMatches(tag: Tag, key: string, values: seq<string>) {
    |tag| >= 2 && tag[0] == key && tag[1] in values
  }

  predicate TagConditionHolds(f: Filter, key: string, e: Event)
    requires key in f.tags
  {
    f.tags[key] == [] || exists i :: 0 <= i < |e.tags| && TagMatches(e.tags[i], key, f.tags[key])
  }

  /** The meaning of a filter (NIP-01): every listed condition holds, and a listed condition holds
      when one of its values does. */
  predicate Matches(f: Filter, e: Event) {
    && (f.ids == [] || e.id in f.ids)
    && (f.authors == [] || e.pubkey in f.authors)
    && (f.kinds == [] || e.kind in f.kinds)
    && (forall key :: key in f.tags ==> TagConditionHolds(f, key, e))
    && (f.since.Some? ==> f.since.value <= e.createdAt)
    && (f.until.Some? ==> e.createdAt <= f.until.value)
  }

  /** `ReqFilter.Match`; the tag conditions are visited in any order. */
  method Match(f: Filter, e: Event) returns (ok: bool)
    ensures ok <==> Matches(f, e)
  {
    if |f.ids| > 0 && e.id !in f.ids {
      return false;
    }
    if |f.authors| > 0 && e.pubkey !in f.authors {
      return false;
    }
    if |f.kinds| > 0 && e.kind !in f.kinds {
      return false;
    }
    var keys := f.tags.Keys;
    while keys != {}
      invariant keys <= f.tags.Keys
      invariant forall key :: key in f.tags && key !in keys ==> TagConditionHolds(f, key, e)
      decreases keys
    {
      var key :| key in keys;
      keys := keys - {key};
      var values := f.tags[key];
      if |values| == 0 {
        continue;
      }
      var matched, i := false, 0;
      while i < |e.tags| && !matched
        invariant 0 <= i <= |e.tags|
        invariant matched ==> TagConditionHolds(f, key, e)
        invariant !matched ==> forall k :: 0 <= k < i ==> !TagMatches(e.tags[k], key, values)
      {
        matched := |e.tags[i]| >= 2 && e.tags[i][0] == key && e.tags[i][1] in values;
        assert matched <==> TagMatches(e.tags[i], key, values);
        i := i + 1;
      }
      if !matched {
        return false;
      }
    }
    if f.since.Some? && e.createdAt < f.since.value {
      return false;
    }
    if f.until.Some? && e.createdAt > f.until.value {
      return false;
    }
    return true;
  }

  predicate MatchesAny(filters: seq<Filter>, e: Event) {
    exists i :: 0 <= i < |filters| && Matches(filters[i], e)
  }

  lemma MatchesAnySnoc(fs: seq<Filter>, f: Filter, e: Event)
    ensures MatchesAny(fs + [f], e) <==> MatchesAny(fs, e) || Matches(f, e)
  {
    hide Matches;
    var gs := fs + [f];
    if MatchesAny(fs, e) {
      var i :| 0 <= i < |fs| && Matches(fs[i], e);
      assert gs[i] == fs[i];
    }
    if Matches(f, e) {
      assert gs[|fs|] == f;
    }
  }

  /** The limit of the whole query is the first filter's; a negative one is no limit. */
  function QueryLimit(filters: seq<Filter>): int {
    if |filters| > 0 && filters[0].limit.Some? then filters[0].limit.value else -1
  }

  /** What a storage must answer: matching events, newest first, none twice, none left out unless
      the limit is used up by events that come before it. */
  ghost predicate IsAnswer(live: set<Event>, filters: seq<Filter>, out: seq<Event>) {
    var limit := QueryLimit(filters);
    && Ordered(out)
    && (forall e :: e in out ==> e in live && MatchesAny(filters, e))
    && (limit >= 0 ==> |out| <= limit)
    && (forall e :: e in live && MatchesAny(filters, e) && e !in out ==>
          |out| == limit && forall x :: x in out ==> Before(x, e))
  }

  ghost predicate DistinctIds(live: set<Event>) {
    forall a, b :: a in live && b in live && a.id == b.id ==> a == b
  }

  ghost predicate AllWellFormed(live: set<Event>) {
    forall e :: e in live ==> WellFormed(e)
  }

  lemma AnswerPrefix(live: set<Event>, filters: seq<Filter>, s: seq<Event>, t: seq<Event>, i: nat)
    requires DistinctIds(live)
    requires IsAnswer(live, filters, s) && IsAnswer(live, filters, t)
    requires i < |s| && i < |t| && s[..i] == t[..i]
    ensures !Before(s[i], t[i])
  {
    hide Before, MatchesAny;
    var a, b := s[i], t[i];
    BeforeOrder(a, b, b);
    BeforeOrder(a, a, a);
    if Before(a, b) {
      forall j | 0 <= j < |t| ensures t[j] != a {
        if j < i {
          assert t[j] == t[..i][j] == s[..i][j] == s[j];
        } else {
          BeforeOrder(a, b, t[j]);
        }
      }
    }
  }

  /** There is only one right answer. */
  lemma {:induction false} AnswerUnique(live: set<Event>, filters: seq<Filter>, s: seq<Event>, t: seq<Event>)
    requires DistinctIds(live)
    requires IsAnswer(live, filters, s) && IsAnswer(live, filters, t)
    ensures s == t
  {
    var i := 0;
    while i < |s| && i < |t|
      invariant 0 <= i <= |s| && i <= |t|
      invariant s[..i] == t[..i]
    {
      AnswerPrefix(live, filters, s, t, i);
      AnswerPrefix(live, filters, t, s, i);
      BeforeOrder(s[i], t[i], s[i]);
      assert s[i] in s && t[i] in t;
      assert s[i] == t[i];
      assert s[..i + 1] == s[..i] + [s[i]] && t[..i + 1] == t[..i] + [t[i]];
      i := i + 1;
    }
    if |s| < |t| {
      NotInPrefix(live, filters, t, |s|);
    } else if |t| < |s| {
      NotInPrefix(live, filters, s, |t|);
    }
  }

  lemma NotInPrefix(live: set<Event>, filters: seq<Filter>, t: seq<Event>, n: nat)
    requires IsAnswer(live, filters, t) && n < |t|
    ensures t[n] !in t[..n] && t[n] in t
  {
    forall j | 0 <= j < n ensures t[j] != t[n] {
      BeforeOrder(t[j], t[n], t[n]);
    }
  }

  // ---------- Filters and answers in plain terms ----------

  /** An empty list of values is no condition, a missing bound is none either, and a tag condition asks
      for one tag with this name and one of the values right after it. */
  lemma FilterReads(f: Filter, e: Event)
    ensures Matches(f, e) <==>
              && (f.ids != [] ==> exists i :: 0 <= i < |f.ids| && f.ids[i] == e.id)
              && (f.authors != [] ==> exists i :: 0 <= i < |f.authors| && f.authors[i] == e.pubkey)
              && (f.kinds != [] ==> exists i :: 0 <= i < |f.kinds| && f.kinds[i] == e.kind)
              && (forall key :: key in f.tags && f.tags[key] != [] ==>
                    exists i :: 0 <= i < |e.tags| && |e.tags[i]| >= 2 && e.tags[i][0] == key &&
                                e.tags[i][1] in f.tags[key])
              && (f.since.Some? ==> e.createdAt >= f.since.value)
              && (f.until.Some? ==> e.createdAt <= f.until.value)
  {
    forall key | key in f.tags
      ensures TagConditionHolds(f, key, e) <==>
                f.tags[key] != [] ==>
                  exists i :: 0 <= i < |e.tags| && |e.tags[i]| >= 2 && e.tags[i][0] == key &&
                              e.tags[i][1] in f.tags[key]
    {
      if i :| 0 <= i < |e.tags| && |e.tags[i]| >= 2 && e.tags[i][0] == key && e.tags[i][1] in f.tags[key] {
        assert TagMatches(e.tags[i], key, f.tags[key]);
      }
    }
    hide TagConditionHolds;
  }

  /** How many of the matching events a query gives: as many as the first filter's limit admits, all of
      them if it has none or a negative one. */
  ghost predicate Admitted(matching: set<Event>, filters: seq<Filter>, out: seq<Event>) {
    if |filters| > 0 && filters[0].limit.Some? && filters[0].limit.value >= 0
    then |out| == if |matching| <= filters[0].limit.value then |matching| else filters[0].limit.value
    else forall e :: e in matching ==> e in out
  }

  /** An answer read aloud: newest first, equal times by id, every event of it matches, and those left
      out come after all of it. */
  lemma AnswerReads(live: set<Event>, filters: seq<Filter>, out: seq<Event>)
    requires IsAnswer(live, filters, out)
    ensures forall i, j :: 0 <= i < j < |out| ==>
              out[i].createdAt > out[j].createdAt ||
              (out[i].createdAt == out[j].createdAt && StringLess(out[i].id, out[j].id))
    ensures forall e :: e in out ==> e in live && exists i :: 0 <= i < |filters| && Matches(filters[i], e)
    ensures forall x, e :: x in out && e in live && e !in out && MatchesAny(filters, e) ==>
              x.createdAt > e.createdAt || (x.createdAt == e.createdAt && StringLess(x.id, e.id))
    ensures Admitted((set e | e in live && MatchesAny(filters, e)), filters, out)
  {
    AnswerSize(live, filters, out);
    hide StringLess, Matches, Admitted;
    forall x, e | x in out && e in live && e !in out && MatchesAny(filters, e) ensures Before(x, e) {}
  }

  lemma AnswerSize(live: set<Event>, filters: seq<Filter>, out: seq<Event>)
    requires IsAnswer(live, filters, out)
    ensures Admitted((set e | e in live && MatchesAny(filters, e)), filters, out)
  {
    hide StringLess, MatchesAny;
    var matching := set e | e in live && MatchesAny(filters, e);
    var given := set e | e in out;
    OrderedSize(out);
    SubsetSize(given, matching);
    if e :| e in matching && e !in out {
      assert e in live && MatchesAny(filters, e);
      SubsetSize(given + {e}, matching);
    } else {
      assert given == matching;
    }
  }

  lemma {:induction false} OrderedSize(out: seq<Event>)
    requires Ordered(out)
    ensures |set e | e in out| == |out|
  {
    if out != [] {
      var n := |out| - 1;
      OrderedSize(out[..n]);
      forall i | 0 <= i < n ensures out[i] != out[n] { BeforeOrder(out[i], out[n], out[n]); }
      hide Before;
      assert (set e | e in out) == (set e | e in out[..n]) + {out[n]};
      assert out[n] !in out[..n];
    }
  }

  lemma {:induction false} SubsetSize<T>(a: set<T>, b: set<T>)
    requires a <= b
    ensures |a| <= |b| && (|a| == |b| ==> a == b)
  {
    if x :| x in a {
      SubsetSize(a - {x}, b - {x});
    }
  }
}
