/** The session that merges the answers of several handlers to one client. */
module MergeSession {
  import opened Bytes
  import opened Events
  import opened Filters
  import opened MergeSpec

  predicate AllOn(c: Channel, out: seq<ServerMsg>) {
    forall i :: 0 <= i < |out| ==> ChannelOf(out[i]) == c
  }

  lemma {:induction false} OnOneChannel(c: Channel, out: seq<ServerMsg>, d: Channel)
    requires AllOn(c, out)
    ensures On(d, out) == if d == c then out else []
  {
    if out != [] {
      OnOneChannel(c, out[..|out| - 1], d);
      assert out == out[..|out| - 1] + [out[|out| - 1]];
    }
  }

  /** The one channel a step is about; the client's CLOSE and the loss of a handler are about many. */
  function Subject(step: Step): Option<Channel> {
    match step
    case StartEvent(id) => Some(OKs(id))
    case StartReq(sub, _) => Some(Req(sub))
    case StartCount(sub) => Some(Counts(sub))
    case Response(m, _) => Some(ChannelOf(m))
    case _ => None
  }

  lemma Elsewhere(n: nat, step: Step)
    requires StepWf(n, step) && Subject(step).Some?
    ensures forall id, st | OKInv(n, st) && Subject(step) != Some(OKs(id)) :: OKStep(n, id, st, step) == (st, [])
    ensures forall sub, st | ReqInv(n, st) && Subject(step) != Some(Req(sub)) :: ReqStep(n, sub, st, step) == (st, [])
    ensures forall sub, st | CountInv(n, st) && Subject(step) != Some(Counts(sub)) ::
              CountStep(n, sub, st, step) == (st, [])
  {
  }

  /** A step about one event id. */
  lemma OneOK(n: nat, s: Session, step: Step, t: Session, out: seq<ServerMsg>, id: string)
    requires SessionInv(n, s) && StepWf(n, step)
    requires step == StartEvent(id) || (step.Response? && step.msg.OKMsg? && step.msg.eventID == id)
    requires t == s.(oks := t.oks) && AllOn(OKs(id), out)
    requires forall x :: x != id ==> OKOf(t, x) == OKOf(s, x)
    requires OKInv(n, OKOf(s, id)) && (OKOf(t, id), out) == OKStep(n, id, OKOf(s, id), step)
    ensures Follows(n, s, step, t, out)
  {
    forall d ensures On(d, out) == if d == OKs(id) then out else [] { OnOneChannel(OKs(id), out, d); }
    hide AllOn, On, FlagsFit, OKStep, ReqStep, CountStep;
    Elsewhere(n, step);
    forall sub ensures ReqOf(t, sub) == ReqOf(s, sub) && CountOf(t, sub) == CountOf(s, sub) {}
  }

  /** A step about one subscription. */
  lemma OneReq(n: nat, s: Session, step: Step, t: Session, out: seq<ServerMsg>, sub: string)
    requires SessionInv(n, s) && StepWf(n, step)
    requires (step.StartReq? && step.sub == sub) || (step.Response? && step.msg.EventMsg? && step.msg.sub == sub) ||
             (step.Response? && step.msg.EOSEMsg? && step.msg.sub == sub)
    requires t == s.(reqs := t.reqs, completed := t.completed) && AllOn(Req(sub), out)
    requires forall x :: x != sub ==> ReqOf(t, x) == ReqOf(s, x)
    requires ReqInv(n, ReqOf(s, sub)) && (ReqOf(t, sub), out) == ReqStep(n, sub, ReqOf(s, sub), step)
    ensures Follows(n, s, step, t, out)
  {
    forall d ensures On(d, out) == if d == Req(sub) then out else [] { OnOneChannel(Req(sub), out, d); }
    hide AllOn, On, FlagsFit, OKStep, ReqStep, CountStep;
    Elsewhere(n, step);
    forall id ensures OKOf(t, id) == OKOf(s, id) {}
    forall x ensures CountOf(t, x) == CountOf(s, x) {}
  }

  /** A step about one count request. */
  lemma OneCount(n: nat, s: Session, step: Step, t: Session, out: seq<ServerMsg>, sub: string)
    requires SessionInv(n, s) && StepWf(n, step)
    requires step == StartCount(sub) || (step.Response? && step.msg.CountMsg? && step.msg.sub == sub)
    requires t == s.(counts := t.counts) && AllOn(Counts(sub), out)
    requires forall x :: x != sub ==> CountOf(t, x) == CountOf(s, x)
    requires CountInv(n, CountOf(s, sub)) && (CountOf(t, sub), out) == CountStep(n, sub, CountOf(s, sub), step)
    ensures Follows(n, s, step, t, out)
  {
    forall d ensures On(d, out) == if d == Counts(sub) then out else [] { OnOneChannel(Counts(sub), out, d); }
    hide AllOn, On, FlagsFit, OKStep, ReqStep, CountStep;
    Elsewhere(n, step);
    forall id ensures OKOf(t, id) == OKOf(s, id) {}
    forall x ensures ReqOf(t, x) == ReqOf(s, x) {}
  }

  /** The pending OKs have all taken the step, except those still in `ids`. */
  ghost predicate OKsClosed(n: nat, s: Session, t: Session, h: nat, ids: set<string>, out: seq<ServerMsg>)
    requires h < n
  {
    && (forall i :: 0 <= i < |out| ==> out[i].OKMsg?)
    && (forall id :: OKInv(n, OKOf(s, id)))
    && (forall id :: id in ids ==> OKOf(t, id) == OKOf(s, id) && On(OKs(id), out) == [])
    && (forall id :: id !in ids ==> (OKOf(t, id), On(OKs(id), out)) == OKStep(n, id, OKOf(s, id), Lost(h)))
  }

  lemma OKsUntouched(n: nat, s: Session, t: Session, h: nat, ids: set<string>, out: seq<ServerMsg>, id: string)
    requires h < n && OKsClosed(n, s, t, h, ids, out) && id in ids
    ensures OKOf(t, id) == OKOf(s, id) && OKInv(n, OKOf(s, id))
  {
  }

  lemma OKsClosedFirst(n: nat, s: Session, h: nat)
    requires h < n && forall id :: OKInv(n, OKOf(s, id))
    ensures OKsClosed(n, s, s, h, s.oks.Keys, [])
  {
  }

  lemma OKsClosedMore(n: nat, id: string, st: Option<PendingOK>, h: nat)
    requires h < n && OKInv(n, st)
    ensures forall m :: m in OKStep(n, id, st, Lost(h)).1 ==> m.OKMsg? && ChannelOf(m) == OKs(id)
  {
  }

  lemma OKsClosedStep(n: nat, s: Session, t: Session, t': Session, h: nat, ids: set<string>, id: string,
      out: seq<ServerMsg>, more: seq<ServerMsg>)
    requires h < n && OKsClosed(n, s, t, h, ids, out) && id in ids && OKInv(n, OKOf(s, id))
    requires (OKOf(t', id), more) == OKStep(n, id, OKOf(s, id), Lost(h))
    requires forall x :: x != id ==> OKOf(t', x) == OKOf(t, x)
    ensures OKsClosed(n, s, t', h, ids - {id}, out + more)
  {
    hide OKStep, OKOf, On, Trues;
    OKsClosedMore(n, id, OKOf(s, id), h);
    forall x ensures On(OKs(x), out + more) == if x == id then more else On(OKs(x), out) {
      OnAppend(OKs(x), out, more);
      OnOneChannel(OKs(id), more, OKs(x));
      assert x != id ==> On(OKs(x), out) + [] == On(OKs(x), out);
    }
    forall x | x !in ids - {id} ensures (OKOf(t', x), On(OKs(x), out + more)) == OKStep(n, x, OKOf(s, x), Lost(h)) {
      assert x != id ==> OKOf(t', x) == OKOf(t, x) && x !in ids;
    }
  }

  /** The pending EOSEs have all taken the step, except those still in `subs`. */
  ghost predicate EOSEsClosed(n: nat, s: Session, t: Session, h: nat, subs: set<string>, out: seq<ServerMsg>)
    requires h < n
  {
    && (forall i :: 0 <= i < |out| ==> out[i].EOSEMsg?)
    && (forall sub :: ReqInv(n, ReqOf(s, sub)))
    && (forall sub :: sub in subs ==> ReqOf(t, sub) == ReqOf(s, sub) && On(Req(sub), out) == [])
    && (forall sub :: sub !in subs ==> (ReqOf(t, sub), On(Req(sub), out)) == ReqStep(n, sub, ReqOf(s, sub), Lost(h)))
  }

  lemma EOSEsUntouched(n: nat, s: Session, t: Session, h: nat, subs: set<string>, out: seq<ServerMsg>, sub: string)
    requires h < n && EOSEsClosed(n, s, t, h, subs, out) && sub in subs
    ensures ReqOf(t, sub) == ReqOf(s, sub) && ReqInv(n, ReqOf(s, sub))
  {
  }

  lemma EOSEsClosedFirst(n: nat, s: Session, h: nat)
    requires h < n && forall sub :: ReqInv(n, ReqOf(s, sub))
    ensures EOSEsClosed(n, s, s, h, s.reqs.Keys, [])
  {
  }

  lemma EOSEsClosedMore(n: nat, sub: string, st: ReqState, h: nat)
    requires h < n && ReqInv(n, st)
    ensures forall m :: m in ReqStep(n, sub, st, Lost(h)).1 ==> m.EOSEMsg? && ChannelOf(m) == Req(sub)
  {
  }

  lemma EOSEsClosedStep(n: nat, s: Session, t: Session, t': Session, h: nat, subs: set<string>, sub: string,
      out: seq<ServerMsg>, more: seq<ServerMsg>)
    requires h < n && EOSEsClosed(n, s, t, h, subs, out) && sub in subs && ReqInv(n, ReqOf(s, sub))
    requires (ReqOf(t', sub), more) == ReqStep(n, sub, ReqOf(s, sub), Lost(h))
    requires forall x :: x != sub ==> ReqOf(t', x) == ReqOf(t, x)
    ensures EOSEsClosed(n, s, t', h, subs - {sub}, out + more)
  {
    hide ReqStep, ReqOf, On, Trues;
    EOSEsClosedMore(n, sub, ReqOf(s, sub), h);
    forall x ensures On(Req(x), out + more) == if x == sub then more else On(Req(x), out) {
      OnAppend(Req(x), out, more);
      OnOneChannel(Req(sub), more, Req(x));
      assert x != sub ==> On(Req(x), out) + [] == On(Req(x), out);
    }
    forall x | x !in subs - {sub}
      ensures (ReqOf(t', x), On(Req(x), out + more)) == ReqStep(n, x, ReqOf(s, x), Lost(h)) {
      assert x != sub ==> ReqOf(t', x) == ReqOf(t, x) && x !in subs;
    }
  }

  /** The pending counts have all taken the step, except those still in `subs`. */
  ghost predicate CountsClosed(n: nat, s: Session, t: Session, h: nat, subs: set<string>, out: seq<ServerMsg>)
    requires h < n
  {
    && (forall i :: 0 <= i < |out| ==> out[i].CountMsg?)
    && (forall sub :: CountInv(n, CountOf(s, sub)))
    && (forall sub :: sub in subs ==> CountOf(t, sub) == CountOf(s, sub) && On(Counts(sub), out) == [])
    && (forall sub :: sub !in subs ==>
          (CountOf(t, sub), On(Counts(sub), out)) == CountStep(n, sub, CountOf(s, sub), Lost(h)))
  }

  lemma CountsUntouched(n: nat, s: Session, t: Session, h: nat, subs: set<string>, out: seq<ServerMsg>, sub: string)
    requires h < n && CountsClosed(n, s, t, h, subs, out) && sub in subs
    ensures CountOf(t, sub) == CountOf(s, sub) && CountInv(n, CountOf(s, sub))
  {
  }

  lemma CountsClosedFirst(n: nat, s: Session, h: nat)
    requires h < n && forall sub :: CountInv(n, CountOf(s, sub))
    ensures CountsClosed(n, s, s, h, s.counts.Keys, [])
  {
  }

  lemma CountsClosedMore(n: nat, sub: string, st: Option<PendingCount>, h: nat)
    requires h < n && CountInv(n, st)
    ensures forall m :: m in CountStep(n, sub, st, Lost(h)).1 ==> m.CountMsg? && ChannelOf(m) == Counts(sub)
  {
  }

  lemma CountsClosedStep(n: nat, s: Session, t: Session, t': Session, h: nat, subs: set<string>, sub: string,
      out: seq<ServerMsg>, more: seq<ServerMsg>)
    requires h < n && CountsClosed(n, s, t, h, subs, out) && sub in subs && CountInv(n, CountOf(s, sub))
    requires (CountOf(t', sub), more) == CountStep(n, sub, CountOf(s, sub), Lost(h))
    requires forall x :: x != sub ==> CountOf(t', x) == CountOf(t, x)
    ensures CountsClosed(n, s, t', h, subs - {sub}, out + more)
  {
    hide CountStep, CountOf, On, Trues;
    CountsClosedMore(n, sub, CountOf(s, sub), h);
    forall x ensures On(Counts(x), out + more) == if x == sub then more else On(Counts(x), out) {
      OnAppend(Counts(x), out, more);
      OnOneChannel(Counts(sub), more, Counts(x));
      assert x != sub ==> On(Counts(x), out) + [] == On(Counts(x), out);
    }
    forall x | x !in subs - {sub}
      ensures (CountOf(t', x), On(Counts(x), out + more)) == CountStep(n, x, CountOf(s, x), Lost(h)) {
      assert x != sub ==> CountOf(t', x) == CountOf(t, x) && x !in subs;
    }
  }

  class MergeSession {
    const numHandlers: nat
    var pendingOKs: map<string, PendingOK>
    var pendingEOSEs: map<string, PendingEOSE>
    var pendingCounts: map<string, PendingCount>
    var completedSubs: set<string>

    ghost function Value(): Session
      reads this
    {
      Session(pendingOKs, pendingEOSEs, pendingCounts, completedSubs)
    }

    ghost predicate Valid()
      reads this
    {
      SessionInv(numHandlers, Value())
    }

    constructor (n: nat)
      ensures numHandlers == n && Value() == Session(map[], map[], map[], {}) && Valid()
    {
      numHandlers := n;
      pendingOKs, pendingEOSEs, pendingCounts, completedSubs := map[], map[], map[], {};
    }

    method StartEventResponse(eventID: string)
      requires Valid()
      modifies this
      ensures Follows(numHandlers, old(Value()), StartEvent(eventID), Value(), []) && Valid()
    {
      hide NoFlags;
      pendingOKs := pendingOKs[eventID := PendingOK(0, true, "", NoFlags(numHandlers), false)];
      assert OKInv(numHandlers, OKOf(old(Value()), eventID));
      OneOK(numHandlers, old(Value()), StartEvent(eventID), Value(), [], eventID);
      FollowsKeepsInv(numHandlers, old(Value()), StartEvent(eventID), Value(), []);
    }

    method StartCountResponse(subID: string)
      requires Valid()
      modifies this
      ensures Follows(numHandlers, old(Value()), StartCount(subID), Value(), []) && Valid()
    {
      pendingCounts := pendingCounts[subID := PendingCount(0, 0, NoFlags(numHandlers))];
      assert CountInv(numHandlers, CountOf(old(Value()), subID));
      OneCount(numHandlers, old(Value()), StartCount(subID), Value(), [], subID);
      FollowsKeepsInv(numHandlers, old(Value()), StartCount(subID), Value(), []);
    }

    method StartReqResponse(subID: string, filters: seq<Filter>)
      requires Valid()
      modifies this
      ensures Follows(numHandlers, old(Value()), StartReq(subID, filters), Value(), []) && Valid()
    {
      completedSubs := completedSubs - {subID};
      var limit := 0;
      if |filters| > 0 && filters[0].limit.Some? {
        limit := filters[0].limit.value;
      }
      pendingEOSEs := pendingEOSEs[subID := PendingEOSE(0, {}, 0, "", false, limit, 0, false, NoFlags(numHandlers))];
      assert ReqInv(numHandlers, ReqOf(old(Value()), subID));
      OneReq(numHandlers, old(Value()), StartReq(subID, filters), Value(), [], subID);
      FollowsKeepsInv(numHandlers, old(Value()), StartReq(subID, filters), Value(), []);
    }

    method CloseSubscription(subID: string)
      requires Valid()
      modifies this
      ensures Follows(numHandlers, old(Value()), Close(subID), Value(), []) && Valid()
    {
      pendingEOSEs := pendingEOSEs - {subID};
      pendingCounts := pendingCounts - {subID};
      completedSubs := completedSubs - {subID};
      hide OKInv, ReqInv, CountInv;
      FollowsKeepsInv(numHandlers, old(Value()), Close(subID), Value(), []);
    }

    method ReceiveOK(eventID: string, accepted: bool, message: string, h: nat) returns (results: seq<ServerMsg>)
      requires Valid() && h < numHandlers
      modifies this
      ensures Follows(numHandlers, old(Value()), Response(OKMsg(eventID, accepted, message), h), Value(), results)
    {
      ghost var step := Response(OKMsg(eventID, accepted, message), h);
      results := [];
      assert OKInv(numHandlers, OKOf(Value(), eventID));
      if eventID in pendingOKs && !pendingOKs[eventID].responded[h] {
        var pending := pendingOKs[eventID];
        pending := pending.(responded := pending.responded[h := true], received := pending.received + 1);
        if !accepted {
          pending := pending.(accepted := false, message := message);
        }
        if pending.received >= numHandlers {
          results := [FinalOK(eventID, pending)];
          pendingOKs := pendingOKs - {eventID};
        } else {
          pendingOKs := pendingOKs[eventID := pending];
        }
      }
      hide OKInv;
      OneOK(numHandlers, old(Value()), step, Value(), results, eventID);
    }

    method ReceiveEvent(subID: string, event: Event, h: nat) returns (results: seq<ServerMsg>)
      requires Valid() && h < numHandlers
      modifies this
      ensures Follows(numHandlers, old(Value()), Response(EventMsg(subID, event), h), Value(), results)
    {
      ghost var step := Response(EventMsg(subID, event), h);
      hide StringLess;
      results := [];
      assert ReqInv(numHandlers, ReqOf(Value(), subID));
      if subID in completedSubs {
        results := [EventMsg(subID, event)];
      } else if subID in pendingEOSEs && !pendingEOSEs[subID].eoseSent {
        var pending := pendingEOSEs[subID];
        if pending.done[h] {
          if event.id !in pending.seen {
            pendingEOSEs := pendingEOSEs[subID := pending.(seen := pending.seen + {event.id})];
            results := [EventMsg(subID, event)];
          }
        } else if event.id in pending.seen {
        } else if pending.hasSent && event.createdAt > pending.lastCreatedAt {
        } else if pending.hasSent && event.createdAt == pending.lastCreatedAt && StringLess(event.id, pending.lastID) {
        } else {
          pending := pending.(
            seen := pending.seen + {event.id}, lastCreatedAt := event.createdAt, lastID := event.id, hasSent := true,
            eventCount := pending.eventCount + 1);
          if pending.limit > 0 && pending.eventCount >= pending.limit {
            pendingEOSEs := pendingEOSEs - {subID};
            completedSubs := completedSubs + {subID};
            results := [EventMsg(subID, event), EOSEMsg(subID)];
          } else {
            pendingEOSEs := pendingEOSEs[subID := pending];
            results := [EventMsg(subID, event)];
          }
        }
      }
      hide ReqInv;
      OneReq(numHandlers, old(Value()), step, Value(), results, subID);
    }

    method ReceiveEOSE(subID: string, h: nat) returns (results: seq<ServerMsg>)
      requires Valid() && h < numHandlers
      modifies this
      ensures Follows(numHandlers, old(Value()), Response(EOSEMsg(subID), h), Value(), results)
    {
      ghost var step := Response(EOSEMsg(subID), h);
      results := [];
      assert ReqInv(numHandlers, ReqOf(Value(), subID));
      if subID !in completedSubs && subID in pendingEOSEs && !pendingEOSEs[subID].eoseSent &&
         !pendingEOSEs[subID].done[h]
      {
        var pending := pendingEOSEs[subID];
        pending := pending.(done := pending.done[h := true], received := pending.received + 1);
        if pending.received >= numHandlers {
          pendingEOSEs := pendingEOSEs - {subID};
          completedSubs := completedSubs + {subID};
          results := [EOSEMsg(subID)];
        } else {
          pendingEOSEs := pendingEOSEs[subID := pending];
        }
      }
      hide ReqInv;
      OneReq(numHandlers, old(Value()), step, Value(), results, subID);
    }

    method ReceiveCount(subID: string, count: uint64, h: nat) returns (results: seq<ServerMsg>)
      requires Valid() && h < numHandlers
      modifies this
      ensures Follows(numHandlers, old(Value()), Response(CountMsg(subID, count), h), Value(), results)
    {
      ghost var step := Response(CountMsg(subID, count), h);
      results := [];
      assert CountInv(numHandlers, CountOf(Value(), subID));
      if subID in pendingCounts && !pendingCounts[subID].responded[h] {
        var pending := pendingCounts[subID];
        pending := pending.(responded := pending.responded[h := true], received := pending.received + 1);
        if count > pending.maxCount {
          pending := pending.(maxCount := count);
        }
        if pending.received >= numHandlers {
          results := [CountMsg(subID, pending.maxCount)];
          pendingCounts := pendingCounts - {subID};
        } else {
          pendingCounts := pendingCounts[subID := pending];
        }
      }
      hide CountInv;
      OneCount(numHandlers, old(Value()), step, Value(), results, subID);
    }

    /** The pending OKs when a handler is lost, visited in any order. */
    method CloseOKs(h: nat) returns (results: seq<ServerMsg>)
      requires h < numHandlers && forall id :: OKInv(numHandlers, OKOf(Value(), id))
      modifies `pendingOKs
      ensures OKsClosed(numHandlers, old(Value()), Value(), h, {}, results)
    {
      hide On, OKsClosed;
      ghost var s := Value();
      results := [];
      var ids := pendingOKs.Keys;
      OKsClosedFirst(numHandlers, s, h);
      while ids != {}
        invariant ids <= pendingOKs.Keys
        invariant OKsClosed(numHandlers, s, Value(), h, ids, results)
        decreases ids
      {
        var id :| id in ids;
        OKsUntouched(numHandlers, s, Value(), h, ids, results, id);
        ghost var t, before := Value(), results;
        var pending := pendingOKs[id];
        if !pending.responded[h] {
          pending := pending.(
            responded := pending.responded[h := true], received := pending.received + 1, hadLoss := true);
          if pending.received >= numHandlers {
            results := results + [FinalOK(id, pending)];
            pendingOKs := pendingOKs - {id};
          } else {
            pendingOKs := pendingOKs[id := pending];
          }
        }
        assert results[|before|..] == OKStep(numHandlers, id, OKOf(s, id), Lost(h)).1;
        assert results == before + results[|before|..];
        OKsClosedStep(numHandlers, s, t, Value(), h, ids, id, before, results[|before|..]);
        ids := ids - {id};
      }
    }

    /** The pending EOSEs when a handler is lost, visited in any order. */
    method CloseEOSEs(h: nat) returns (results: seq<ServerMsg>)
      requires h < numHandlers && forall sub :: ReqInv(numHandlers, ReqOf(Value(), sub))
      modifies `pendingEOSEs, `completedSubs
      ensures EOSEsClosed(numHandlers, old(Value()), Value(), h, {}, results)
    {
      hide On, EOSEsClosed;
      ghost var s := Value();
      results := [];
      var subs := pendingEOSEs.Keys;
      EOSEsClosedFirst(numHandlers, s, h);
      while subs != {}
        invariant subs <= pendingEOSEs.Keys
        invariant EOSEsClosed(numHandlers, s, Value(), h, subs, results)
        decreases subs
      {
        var sub :| sub in subs;
        EOSEsUntouched(numHandlers, s, Value(), h, subs, results, sub);
        ghost var t, before := Value(), results;
        var pending := pendingEOSEs[sub];
        if !pending.eoseSent && !pending.done[h] {
          pending := pending.(done := pending.done[h := true], received := pending.received + 1);
          if pending.received >= numHandlers {
            results := results + [EOSEMsg(sub)];
            pendingEOSEs := pendingEOSEs - {sub};
            completedSubs := completedSubs + {sub};
          } else {
            pendingEOSEs := pendingEOSEs[sub := pending];
          }
        }
        assert results[|before|..] == ReqStep(numHandlers, sub, ReqOf(s, sub), Lost(h)).1;
        assert results == before + results[|before|..];
        EOSEsClosedStep(numHandlers, s, t, Value(), h, subs, sub, before, results[|before|..]);
        subs := subs - {sub};
      }
    }

    /** The pending counts when a handler is lost, visited in any order. */
    method CloseCounts(h: nat) returns (results: seq<ServerMsg>)
      requires h < numHandlers && forall sub :: CountInv(numHandlers, CountOf(Value(), sub))
      modifies `pendingCounts
      ensures CountsClosed(numHandlers, old(Value()), Value(), h, {}, results)
    {
      hide On, CountsClosed;
      ghost var s := Value();
      results := [];
      var subs := pendingCounts.Keys;
      CountsClosedFirst(numHandlers, s, h);
      while subs != {}
        invariant subs <= pendingCounts.Keys
        invariant CountsClosed(numHandlers, s, Value(), h, subs, results)
        decreases subs
      {
        var sub :| sub in subs;
        CountsUntouched(numHandlers, s, Value(), h, subs, results, sub);
        ghost var t, before := Value(), results;
        var pending := pendingCounts[sub];
        if !pending.responded[h] {
          pending := pending.(responded := pending.responded[h := true], received := pending.received + 1);
          if pending.received >= numHandlers {
            results := results + [CountMsg(sub, pending.maxCount)];
            pendingCounts := pendingCounts - {sub};
          } else {
            pendingCounts := pendingCounts[sub := pending];
          }
        }
        assert results[|before|..] == CountStep(numHandlers, sub, CountOf(s, sub), Lost(h)).1;
        assert results == before + results[|before|..];
        CountsClosedStep(numHandlers, s, t, Value(), h, subs, sub, before, results[|before|..]);
        subs := subs - {sub};
      }
    }

    /** A lost handler counts as having answered everything it still owed. */
    method HandlerClosed(h: nat) returns (results: seq<ServerMsg>)
      requires Valid() && h < numHandlers
      modifies this
      ensures Follows(numHandlers, old(Value()), Lost(h), Value(), results) && Valid()
    {
      hide OKInv, ReqInv, CountInv, OKStep, ReqStep, CountStep, On, Follows;
      ghost var s := Value();
      var oks := CloseOKs(h);
      assert forall sub :: ReqOf(Value(), sub) == ReqOf(s, sub) && CountOf(Value(), sub) == CountOf(s, sub);
      var eoses := CloseEOSEs(h);
      assert forall sub :: CountOf(Value(), sub) == CountOf(s, sub);
      assert forall id :: OKOf(Value(), id) == OKOf(s.(oks := Value().oks), id);
      var counts := CloseCounts(h);
      results := oks + eoses + counts;
      ClosedFollows(numHandlers, s, Value(), h, oks, eoses, counts);
      FollowsKeepsInv(numHandlers, s, Lost(h), Value(), results);
    }

    /** One message of one handler: what goes on to the client. */
    method ProcessResponse(msg: ServerMsg, h: nat) returns (results: seq<ServerMsg>)
      requires Valid() && h < numHandlers
      modifies this
      ensures Follows(numHandlers, old(Value()), Response(msg, h), Value(), results) && Valid()
    {
      hide SessionInv, Follows;
      match msg {
        case OKMsg(eventID, accepted, message) => results := ReceiveOK(eventID, accepted, message, h);
        case EventMsg(subID, event) => results := ReceiveEvent(subID, event, h);
        case EOSEMsg(subID) => results := ReceiveEOSE(subID, h);
        case CountMsg(subID, count) => results := ReceiveCount(subID, count, h);
        case _ =>
          results := [msg];
          PassThrough(numHandlers, Value(), msg, h);
      }
      FollowsKeepsInv(numHandlers, old(Value()), Response(msg, h), Value(), results);
    }
  }

  lemma PassThrough(n: nat, s: Session, msg: ServerMsg, h: nat)
    requires SessionInv(n, s) && h < n && PassesThrough(msg)
    ensures Follows(n, s, Response(msg, h), s, [msg])
  {
    forall d ensures On(d, [msg]) == if d == Others then [msg] else [] {
      OnOneChannel(Others, [msg], d);
    }
    hide On, OKInv, ReqInv, CountInv;
  }

  lemma {:induction false} OnNone(c: Channel, out: seq<ServerMsg>)
    requires forall i :: 0 <= i < |out| ==> ChannelOf(out[i]) != c
    ensures On(c, out) == []
  {
    if out != [] {
      OnNone(c, out[..|out| - 1]);
    }
  }

  lemma ClosedFollows(n: nat, s: Session, t: Session, h: nat, a: seq<ServerMsg>, b: seq<ServerMsg>, c: seq<ServerMsg>)
    requires SessionInv(n, s) && h < n
    requires OKsClosed(n, s, t, h, {}, a) && EOSEsClosed(n, s, t, h, {}, b) && CountsClosed(n, s, t, h, {}, c)
    ensures Follows(n, s, Lost(h), t, a + b + c)
  {
    hide OKInv, ReqInv, CountInv, OKStep, ReqStep, CountStep, On, OKOf, ReqOf, CountOf;
    forall d
      ensures On(d, a + b + c) ==
              match d case OKs(_) => On(d, a) case Req(_) => On(d, b) case Counts(_) => On(d, c) case Others => []
    {
      OnAppend(d, a + b, c);
      OnAppend(d, a, b);
      if !d.OKs? { OnNone(d, a); }
      if !d.Req? { OnNone(d, b); }
      if !d.Counts? { OnNone(d, c); }
    }
  }
}
