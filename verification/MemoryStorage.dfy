/** The in-memory storage: a list of events, scanned, matched, sorted and cut. */
module MemoryStorage {
  import opened Bytes
  import opened Events
  import opened Filters
  import opened StoreSpec

  ghost predicate Distinct(events: seq<Event>) {
    forall i, j :: 0 <= i < |events| && 0 <= j < |events| && events[i].id == events[j].id ==> i == j
  }

  ghost function ById(events: seq<Event>): map<string, Event>
    requires Distinct(events)
  {
    map e | e in events :: e.id := e
  }

  /** `slices.DeleteFunc` */
  function DeleteFunc(events: seq<Event>, del: Event -> bool): (r: seq<Event>)
    ensures forall e :: e in r <==> e in events && !del(e)
    ensures Distinct(events) ==> Distinct(r)
  {
    if events == [] then []
    else
      var last := events[|events| - 1];
      assert events == events[..|events| - 1] + [last];
      var front := events[..|events| - 1];
      var rest := DeleteFunc(front, del);
      assert Distinct(events) ==> forall i :: 0 <= i < |rest| ==> rest[i].id != last.id by {
        forall i | 0 <= i < |rest| ensures Distinct(events) ==> rest[i].id != last.id {
          assert rest[i] in front;
        }
      }
      if del(last) then rest else rest + [last]
  }

  /** Sort by `CompareEvents`. */
  method SortEvents(events: seq<Event>) returns (sorted: seq<Event>)
    ensures |sorted| == |events|
    ensures forall e :: e in sorted <==> e in events
    ensures Distinct(events) ==> Ordered(sorted)
  {
    hide Before;
    sorted := [];
    for i := 0 to |events|
      invariant |sorted| == i
      invariant forall e :: e in sorted <==> e in events[..i]
      invariant Distinct(events) ==> Ordered(sorted)
    {
      var e := events[i];
      var n := 0;
      while n < |sorted| && CompareEvents(sorted[n], e) < 0
        invariant 0 <= n <= |sorted|
        invariant forall k :: 0 <= k < n ==> Before(sorted[k], e)
      {
        n := n + 1;
      }
      if Distinct(events) {
        if n < |sorted| {
          assert sorted[n] in events[..i];
          BeforeOrder(sorted[n], e, e);
          forall k | n <= k < |sorted| ensures Before(e, sorted[k]) {
            BeforeOrder(e, sorted[n], sorted[k]);
          }
        }
      }
      var s := sorted[..n] + [e] + sorted[n..];
      assert events[..i + 1] == events[..i] + [e];
      forall x ensures x in s <==> x in sorted || x == e {
        assert sorted == sorted[..n] + sorted[n..];
      }
      sorted := s;
    }
    assert events[..|events|] == events;
  }

  lemma ByIdAppend(events: seq<Event>, e: Event)
    requires Distinct(events) && e.id !in ById(events)
    ensures Distinct(events + [e]) && ById(events + [e]) == ById(events)[e.id := e]
  {
    forall x | x in events ensures x.id != e.id {
      assert x.id in ById(events);
    }
    forall x ensures x in events + [e] <==> x in events || x == e {}
    assert Distinct(events + [e]) by {
      forall i | 0 <= i < |events| ensures events[i].id != e.id {
        assert events[i] in events;
      }
    }
    ByIdValues(events);
    ByIdValues(events + [e]);
  }

  lemma ByIdValues(events: seq<Event>)
    requires Distinct(events)
    ensures forall id :: id in ById(events) ==> ById(events)[id] in events && ById(events)[id].id == id
    ensures forall i :: 0 <= i < |events| ==> events[i].id in ById(events) && ById(events)[events[i].id] == events[i]
  {
    forall i | 0 <= i < |events| ensures events[i].id in ById(events) {
      assert events[i] in events;
    }
  }

  lemma SameIdSame(events: seq<Event>, x: Event, y: Event)
    requires Distinct(events) && x in events && y in events && x.id == y.id
    ensures x == y
  {
  }

  lemma ByIdReplace(events: seq<Event>, i: nat, e: Event)
    requires Distinct(events) && e.id !in ById(events) && i < |events|
    ensures Distinct(events[i := e])
    ensures ById(events[i := e]) == (ById(events) - {events[i].id})[e.id := e]
  {
    hide ById;
    ByIdValues(events);
    var r := events[i := e];
    assert Distinct(r);
    ByIdValues(r);
    var m := (ById(events) - {events[i].id})[e.id := e];
    forall id ensures id in ById(r) <==> id in m {
      if id in ById(r) {
        var k :| 0 <= k < |r| && r[k] == ById(r)[id];
        assert k != i ==> events[k].id in ById(events) && events[k].id != events[i].id;
      }
      if id in m && id != e.id {
        var k :| 0 <= k < |events| && events[k] == ById(events)[id];
        assert r[k] == events[k] && r[k].id in ById(r);
      }
      if id == e.id {
        assert r[i].id in ById(r);
      }
    }
    forall id | id in m ensures ById(r)[id] == m[id] {
      var k :| 0 <= k < |r| && r[k] == ById(r)[id];
    }
  }

  lemma HoldersAt(events: seq<Event>, s: StoreSpec.State, i: nat, addr: string)
    requires Distinct(events) && s.live == ById(events) && OnePerAddress(s)
    requires i < |events| && Address(events[i]) == addr != ""
    ensures Holders(s, addr) == {events[i].id} && s.live[events[i].id] == events[i]
  {
    hide Address;
    ByIdValues(events);
    assert events[i].id in s.live;
  }

  lemma NoHolders(events: seq<Event>, s: StoreSpec.State, addr: string)
    requires Distinct(events) && s.live == ById(events)
    requires forall k :: 0 <= k < |events| ==> Address(events[k]) != addr
    ensures Holders(s, addr) == {}
  {
    hide Address;
    ByIdValues(events);
  }

  class InMemoryStorage {
    var events: seq<Event>
    var deletedIDs: map<string, Record>
    var deletedAddrs: map<string, Record>

    ghost predicate Valid()
      reads this
    {
      Distinct(events) && Invariant(State())
    }

    ghost function State(): StoreSpec.State
      reads this
      requires Distinct(events)
    {
      StoreSpec.State(ById(events), deletedIDs, deletedAddrs)
    }

    constructor ()
      ensures Valid() && State() == EMPTY
    {
      events, deletedIDs, deletedAddrs := [], map[], map[];
    }

    method Store(event: Event) returns (stored: bool)
      requires Valid()
      modifies this
      ensures Valid()
      ensures (State(), stored) == StoreSpec.Store(old(State()), event)
    {
      ghost var s := State();
      StoreKeepsInvariant(s, event);
      RequestsAreRegular(event);
      AddressEmpty(event);
      ByIdValues(events);
      hide Address, TypeOf, StringLess, Invariant, ById;
      if event.id in deletedIDs && deletedIDs[event.id].pubkey == event.pubkey {
        return false;
      }
      var addr := Address(event);
      if addr != "" {
        if addr in deletedAddrs && deletedAddrs[addr].pubkey == event.pubkey {
          if !(event.createdAt > deletedAddrs[addr].createdAt) {
            return false;
          }
        }
      }
      var i := 0;
      while i < |events|
        invariant 0 <= i <= |events|
        invariant forall k :: 0 <= k < i ==> events[k].id != event.id
      {
        if events[i].id == event.id {
          return false;
        }
        i := i + 1;
      }
      assert !Rejected(s, event);

      if event.kind == 5 {
        ProcessKind5(event);
        if event.id in deletedIDs && deletedIDs[event.id].pubkey == event.pubkey {
          return true;
        }
      }

      var eventType := TypeOf(event);
      if eventType == Replaceable || eventType == Addressable {
        stored := Place(event, addr);
        return;
      }
      if eventType == Ephemeral {
        return false;
      }
      ByIdAppend(events, event);
      events := events + [event];
      return true;
    }

    /** The branch of `Store` for events with an address. */
    method Place(event: Event, addr: string) returns (stored: bool)
      requires Valid()
      requires !Rejected(State(), event) && event.kind != 5 && addr == Address(event) != ""
      modifies this
      ensures Valid()
      ensures (State(), stored) == StoreSpec.Store(old(State()), event)
    {
      ghost var s := State();
      StoreKeepsInvariant(s, event);
      assert OnePerAddress(s);
      hide Address, TypeOf, StringLess, Invariant, ById;
      var i := 0;
      while i < |events|
        invariant 0 <= i <= |events|
        invariant forall k :: 0 <= k < i ==> Address(events[k]) != addr
      {
        var e := events[i];
        if Address(e) == addr {
          HoldersAt(events, s, i, addr);
          assert BeatsHolders(s, event) <==> Before(event, e);
          ByIdReplace(events, i, event);
          if event.createdAt > e.createdAt {
            events := events[i := event];
            return true;
          } else if event.createdAt == e.createdAt {
            if StringLess(event.id, e.id) {
              events := events[i := event];
              return true;
            }
          }
          return false;
        }
        i := i + 1;
      }
      NoHolders(events, s, addr);
      ByIdAppend(events, event);
      assert s.live - {} == s.live;
      events := events + [event];
      return true;
    }

    method ProcessKind5(event: Event)
      requires Valid() && event.kind == 5
      modifies this
      ensures Valid()
      ensures State() == Delete(old(State()), event)
    {
      ghost var s := State();
      DeleteNothing(s, event.(tags := []));
      hide Address, Invariant, ById, Delete;
      var i := 0;
      while i < |event.tags|
        invariant 0 <= i <= |event.tags|
        invariant Valid()
        invariant State() == Delete(s, event.(tags := event.tags[..i]))
      {
        DeleteTag(s, event, i);
        ProcessTag(event, event.tags[i]);
        i := i + 1;
      }
      assert event.tags[..i] == event.tags;
    }

    /** One round of the loop over the tags of a deletion request. */
    method ProcessTag(event: Event, tag: Tag)
      requires Valid()
      modifies this
      ensures Valid()
      ensures State() == Delete(old(State()), event.(tags := [tag]))
    {
      ghost var t, before, one := State(), events, event.(tags := [tag]);
      DeleteKeepsInvariant(t, one);
      TargetsSnoc("e", [tag], 0);
      TargetsSnoc("a", [tag], 0);
      assert [tag][..1] == [tag];
      var rec := Record(event.pubkey, event.createdAt);
      if |tag| >= 2 {
        MarkOne(deletedIDs, tag[1], rec);
        MarkOne(deletedAddrs, tag[1], rec);
      }
      hide Address, Invariant, ById, Targets, Kept, Removes, Mark;
      if |tag| < 2 {
        DeleteNothing(t, one);
      } else if tag[0] == "e" {
        var eventID := tag[1];
        deletedIDs := deletedIDs[eventID := rec];
        events := DeleteFunc(events, (e: Event) => e.kind != 5 && e.id == eventID && e.pubkey == event.pubkey);
        DeleteOne(t, event, tag, before, events);
      } else if tag[0] == "a" {
        var addr := tag[1];
        deletedAddrs := deletedAddrs[addr := rec];
        events := DeleteFunc(events, (e: Event) =>
          Address(e) == addr && e.pubkey == event.pubkey && !(e.createdAt > event.createdAt));
        DeleteOne(t, event, tag, before, events);
      } else {
        DeleteNothing(t, one);
      }
    }

    method Query(filters: seq<Filter>) returns (out: seq<Event>)
      requires Valid()
      ensures IsAnswer(State().live.Values, filters, out)
      ensures Admitted((set e | e in State().live.Values && MatchesAny(filters, e)), filters, out)
    {
      hide Before, Matches, Invariant, Admitted;
      ByIdValues(events);
      var limit := -1;
      if |filters| > 0 && filters[0].limit.Some? {
        limit := filters[0].limit.value;
      }
      var sorted := SortEvents(events);
      assert Ordered(sorted);
      var seen: set<string> := {};
      var result: seq<Event> := [];
      for f := 0 to |filters|
        invariant forall e :: e in result <==> e in events && MatchesAny(filters[..f], e)
        invariant seen == set e | e in result :: e.id
        invariant Distinct(result)
      {
        for k := 0 to |sorted|
          invariant forall e :: e in result <==>
            e in events && (MatchesAny(filters[..f], e) || (e in sorted[..k] && Matches(filters[f], e)))
          invariant seen == set e | e in result :: e.id
          invariant Distinct(result)
        {
          var e := sorted[k];
          assert sorted[..k + 1] == sorted[..k] + [e];
          if e.id in seen {
            var x :| x in result && x.id == e.id;
            SameIdSame(events, x, e);
            continue;
          }
          var matched := Match(filters[f], e);
          if matched {
            forall i | 0 <= i < |result| ensures result[i].id != e.id {
              assert result[i] in result;
            }
            seen := seen + {e.id};
            result := result + [e];
          }
        }
        assert sorted[..|sorted|] == sorted;
        forall e ensures MatchesAny(filters[..f + 1], e) <==> MatchesAny(filters[..f], e) || Matches(filters[f], e) {
          assert filters[..f + 1] == filters[..f] + [filters[f]];
          MatchesAnySnoc(filters[..f], filters[f], e);
        }
      }
      assert filters[..|filters|] == filters;
      ghost var all := result;
      result := SortEvents(result);
      var count := 0;
      out := [];
      while count < |result|
        invariant 0 <= count <= |result|
        invariant out == result[..count]
        invariant limit >= 0 ==> count <= limit
      {
        if limit >= 0 && count >= limit {
          break;
        }
        out := out + [result[count]];
        count := count + 1;
      }
      CutIsAnswer(State().live.Values, filters, result, count);
    }
  }

  /** The first `n` of all matching events in order are an answer, when the limit stops there. */
  lemma CutIsAnswer(live: set<Event>, filters: seq<Filter>, all: seq<Event>, n: nat)
    requires Ordered(all) && forall e :: e in all <==> e in live && MatchesAny(filters, e)
    requires n <= |all| && (QueryLimit(filters) >= 0 ==> n <= QueryLimit(filters))
    requires n < |all| ==> n == QueryLimit(filters)
    ensures IsAnswer(live, filters, all[..n])
    ensures Admitted((set e | e in live && MatchesAny(filters, e)), filters, all[..n])
  {
    hide Before, MatchesAny, Admitted;
    assert forall i :: 0 <= i < n ==> all[i] in all[..n];
    forall e | e in live && MatchesAny(filters, e) && e !in all[..n]
      ensures n == QueryLimit(filters) && forall x :: x in all[..n] ==> Before(x, e)
    {
      var i :| 0 <= i < |all| && all[i] == e;
    }
    AnswerSize(live, filters, all[..n]);
  }

  lemma DeleteNothing(s: StoreSpec.State, k: Event)
    requires Targets("e", k.tags) == {} && Targets("a", k.tags) == {}
    ensures Delete(s, k) == s
  {
    assert Delete(s, k).live == s.live;
  }

  lemma RemovesSnoc(k: Event, i: nat, e: Event)
    requires i < |k.tags|
    ensures Removes(k.(tags := k.tags[..i + 1]), e)
            <==> Removes(k.(tags := k.tags[..i]), e) || Removes(k.(tags := [k.tags[i]]), e)
  {
    TargetsSnoc("e", k.tags, i);
    TargetsSnoc("a", k.tags, i);
    hide Address, Targets;
  }

  lemma MarkOne(m: map<string, Record>, x: string, r: Record)
    ensures Mark(m, {x}, r) == m[x := r] && Mark(m, {}, r) == m
  {
  }

  lemma MarkTwice(m: map<string, Record>, a: set<string>, b: set<string>, r: Record)
    ensures Mark(m, a + b, r) == Mark(Mark(m, a, r), b, r)
  {
  }

  lemma KeptTwice(live: map<string, Event>, k: Event, i: nat)
    requires i < |k.tags|
    ensures Kept(live, k.(tags := k.tags[..i + 1]))
            == Kept(Kept(live, k.(tags := k.tags[..i])), k.(tags := [k.tags[i]]))
  {
    hide Removes;
    forall id | id in live
      ensures Removes(k.(tags := k.tags[..i + 1]), live[id])
              <==> Removes(k.(tags := k.tags[..i]), live[id]) || Removes(k.(tags := [k.tags[i]]), live[id])
    {
      RemovesSnoc(k, i, live[id]);
    }
  }

  /** Deleting by one more tag is deleting by the tags before it and then by the tag. */
  lemma DeleteTag(s: StoreSpec.State, k: Event, i: nat)
    requires i < |k.tags|
    ensures Delete(s, k.(tags := k.tags[..i + 1]))
            == Delete(Delete(s, k.(tags := k.tags[..i])), k.(tags := [k.tags[i]]))
  {
    hide Address, Targets, Removes, Kept, Mark;
    TargetsSnoc("e", k.tags, i);
    TargetsSnoc("a", k.tags, i);
    KeptTwice(s.live, k, i);
    MarkTwice(s.deletedIds, Targets("e", k.tags[..i]), Targets("e", [k.tags[i]]), RecordOf(k));
    MarkTwice(s.deletedAddrs, Targets("a", k.tags[..i]), Targets("a", [k.tags[i]]), RecordOf(k));
  }

  /** What the scan for one tag drops. */
  predicate Scanned(k: Event, tag: Tag, e: Event)
    requires |tag| >= 2
  {
    e.pubkey == k.pubkey &&
    if tag[0] == "e" then e.kind != 5 && e.id == tag[1] else Address(e) == tag[1] && e.createdAt <= k.createdAt
  }

  /** What a scan for one tag leaves is what the tag does not remove. */
  lemma DeleteOne(t: StoreSpec.State, k: Event, tag: Tag, before: seq<Event>, after: seq<Event>)
    requires |tag| >= 2 && (tag[0] == "e" || tag[0] == "a")
    requires Distinct(before) && t.live == ById(before) && Distinct(after)
    requires forall e :: e in after <==> e in before && !Scanned(k, tag, e)
    ensures ById(after) == Delete(t, k.(tags := [tag])).live
    ensures Targets("e", [tag]) == if tag[0] == "e" then {tag[1]} else {}
    ensures Targets("a", [tag]) == if tag[0] == "a" then {tag[1]} else {}
  {
    hide Address, Targets;
    TargetsSnoc("e", [tag], 0);
    TargetsSnoc("a", [tag], 0);
    assert [tag][..1] == [tag];
    var one := k.(tags := [tag]);
    forall e ensures Removes(one, e) <==> Scanned(k, tag, e) {}
    KeptById(before, after, one, t);
  }

  lemma KeptById(before: seq<Event>, after: seq<Event>, one: Event, t: StoreSpec.State)
    requires Distinct(before) && t.live == ById(before) && Distinct(after)
    requires forall e :: e in after <==> e in before && !Removes(one, e)
    ensures ById(after) == Delete(t, one).live
  {
    hide Removes, Targets;
    ByIdValues(before);
    ByIdValues(after);
    var d := Delete(t, one).live;
    forall id ensures id in ById(after) <==> id in d {
      if id in ById(after) {
        var x := ById(after)[id];
        var i :| 0 <= i < |before| && before[i] == x;
      }
      if id in d {
        assert ById(before)[id] in after;
      }
    }
    forall id | id in d ensures ById(after)[id] == d[id] {
      assert d[id] in after;
    }
  }
}
