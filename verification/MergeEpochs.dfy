/** What a client sees of one REQ: from the REQ on, until the subscription is requested again or
    closed, under every interleaving of what the handlers send. */
module MergeEpochs {
  import opened Bytes
  import opened Events
  import opened Filters
  import opened MergeSpec
  import opened MergeRuns

  /** The history of one REQ so far: events sent before the EOSE, those of them sent in order by
      handlers that were still answering, the handlers that have finished, whether the EOSE has
      been sent, and the events sent after it. */
  datatype Epoch = Epoch(sent: seq<Event>, ordered: seq<Event>, finished: set<nat>, over: bool, after: seq<Event>)

  const NEW_EPOCH := Epoch([], [], {}, false, [])

  predicate IdSent(sent: seq<Event>, id: string) {
    exists i :: 0 <= i < |sent| && sent[i].id == id
  }

  predicate AfterAll(ordered: seq<Event>, e: Event) {
    forall i :: 0 <= i < |ordered| ==> Before(ordered[i], e)
  }

  ghost predicate Everyone(n: nat, finished: set<nat>) {
    n > 0 && forall h :: 0 <= h < n ==> h in finished
  }

  ghost function Finish(n: nat, ep: Epoch, h: nat): Epoch {
    if ep.over then ep
    else ep.(finished := ep.finished + {h}, over := Everyone(n, ep.finished + {h}))
  }

  /** An event is forwarded before the EOSE exactly when its id is new and either its handler has
      finished or it comes after everything sent in order; after the EOSE everything is. */
  ghost function Arrive(limit: int, ep: Epoch, e: Event, h: nat): Epoch {
    if ep.over then ep.(after := ep.after + [e])
    else if IdSent(ep.sent, e.id) then ep
    else if h in ep.finished then ep.(sent := ep.sent + [e])
    else if !AfterAll(ep.ordered, e) then ep
    else ep.(sent := ep.sent + [e], ordered := ep.ordered + [e], over := |ep.ordered| + 1 == limit)
  }

  ghost function EpochStep(n: nat, limit: int, sub: string, ep: Epoch, step: Step): Epoch {
    match step
    case Lost(h) => Finish(n, ep, h)
    case Response(EOSEMsg(s), h) => if s == sub then Finish(n, ep, h) else ep
    case Response(EventMsg(s, e), h) => if s == sub then Arrive(limit, ep, e, h) else ep
    case _ => ep
  }

  ghost function EpochOf(n: nat, limit: int, sub: string, steps: seq<Step>): Epoch {
    if steps == [] then NEW_EPOCH
    else EpochStep(n, limit, sub, EpochOf(n, limit, sub, steps[..|steps| - 1]), steps[|steps| - 1])
  }

  function EventMsgs(sub: string, events: seq<Event>): (out: seq<ServerMsg>)
    ensures |out| == |events| && forall i :: 0 <= i < |out| ==> out[i] == EventMsg(sub, events[i])
  {
    seq(|events|, i requires 0 <= i < |events| => EventMsg(sub, events[i]))
  }

  /** What the client has received of the epoch. */
  function Received(sub: string, ep: Epoch): seq<ServerMsg> {
    EventMsgs(sub, ep.sent) + if ep.over then [EOSEMsg(sub)] + EventMsgs(sub, ep.after) else []
  }

  // ---------- What every epoch keeps ----------

  predicate DistinctEventIds(s: seq<Event>) {
    forall i, j :: 0 <= i < j < |s| ==> s[i].id != s[j].id
  }

  /** `a` can be had from `b` by leaving elements out. */
  predicate Subsequence<T(==)>(a: seq<T>, b: seq<T>) {
    if a == [] then true
    else if b == [] then false
    else if a[|a| - 1] == b[|b| - 1] && Subsequence(a[..|a| - 1], b[..|b| - 1]) then true
    else Subsequence(a, b[..|b| - 1])
  }

  lemma EmptySubsequence<T>(b: seq<T>)
    ensures Subsequence([], b)
  {
  }

  lemma SubsequenceBoth<T>(a: seq<T>, b: seq<T>, x: T)
    requires Subsequence(a, b)
    ensures Subsequence(a + [x], b + [x])
  {
    assert (a + [x])[..|a|] == a && (b + [x])[..|b|] == b;
  }

  lemma SubsequenceRight<T>(a: seq<T>, b: seq<T>, x: T)
    requires Subsequence(a, b)
    ensures Subsequence(a, b + [x])
  {
    assert (b + [x])[..|b|] == b;
  }

  ghost predicate Finished(sub: string, h: nat, steps: seq<Step>) {
    exists i :: 0 <= i < |steps| && (steps[i] == Lost(h) || steps[i] == Response(EOSEMsg(sub), h))
  }

  ghost predicate AllFinished(n: nat, sub: string, steps: seq<Step>) {
    n > 0 && forall h :: 0 <= h < n ==> Finished(sub, h, steps)
  }

  /** The events the handlers sent for a subscription, in order of arrival. */
  function EventsOf(sub: string, steps: seq<Step>): seq<Event> {
    if steps == [] then []
    else
      var step := steps[|steps| - 1];
      EventsOf(sub, steps[..|steps| - 1]) +
      if step.Response? && step.msg.EventMsg? && step.msg.sub == sub then [step.msg.event] else []
  }

  ghost predicate EpochInv(n: nat, limit: int, ep: Epoch) {
    && DistinctEventIds(ep.sent)
    && Ordered(ep.ordered)
    && Subsequence(ep.ordered, ep.sent)
    && (limit > 0 ==> |ep.ordered| <= limit)
    && (ep.over <==> (limit > 0 && |ep.ordered| == limit) || Everyone(n, ep.finished))
    && (limit > 0 && |ep.ordered| == limit ==> ep.sent != [] && ep.sent[|ep.sent| - 1] == ep.ordered[limit - 1])
    && (!ep.over ==> ep.after == [])
    && (forall h :: h in ep.finished ==> h < n)
  }

  lemma ArriveKeeps(n: nat, limit: int, ep: Epoch, e: Event, h: nat)
    requires EpochInv(n, limit, ep)
    ensures EpochInv(n, limit, Arrive(limit, ep, e, h))
  {
    hide Before, Everyone;
    SubsequenceBoth(ep.ordered, ep.sent, e);
    SubsequenceRight(ep.ordered, ep.sent, e);
    hide Subsequence;
  }

  /** Before the EOSE no id is sent twice, events of answering handlers are strictly in order and at
      most as many as the limit; the EOSE is sent once, when the limit is reached, and then at once,
      or when every handler has finished. */
  lemma {:induction false} EpochKeeps(n: nat, limit: int, sub: string, steps: seq<Step>)
    requires TraceWf(n, steps)
    ensures EpochInv(n, limit, EpochOf(n, limit, sub, steps))
  {
    if steps == [] {
      assert n > 0 ==> 0 !in NEW_EPOCH.finished;
    } else {
      EpochKeeps(n, limit, sub, steps[..|steps| - 1]);
      var ep, step := EpochOf(n, limit, sub, steps[..|steps| - 1]), steps[|steps| - 1];
      hide EpochInv, Arrive;
      if step.Response? && step.msg.EventMsg? {
        ArriveKeeps(n, limit, ep, step.msg.event, step.handler);
      } else if step.Lost? || step.Response? {
        FinishKeeps(n, limit, ep, step.handler);
      }
    }
  }

  lemma FinishKeeps(n: nat, limit: int, ep: Epoch, h: nat)
    requires EpochInv(n, limit, ep) && h < n
    ensures EpochInv(n, limit, Finish(n, ep, h))
  {
    hide Before, Subsequence;
  }

  // ---------- The session follows the epoch ----------

  /** What the session remembers of an epoch is enough to decide as the whole history would. */
  ghost predicate Tracks(n: nat, limit: int, ep: Epoch, st: ReqState) {
    ReqInv(n, st) &&
    if ep.over then st == ReqState(None, true)
    else
      st.pending.Some? && !st.completed &&
      var p := st.pending.value;
      && p.limit == limit && p.eventCount == |ep.ordered|
      && (forall h :: 0 <= h < n ==> (p.done[h] <==> h in ep.finished))
      && (forall id :: id in p.seen <==> IdSent(ep.sent, id))
      && (p.hasSent <==> ep.ordered != [])
      && (p.hasSent ==>
            p.lastCreatedAt == ep.ordered[|ep.ordered| - 1].createdAt && p.lastID == ep.ordered[|ep.ordered| - 1].id)
  }

  lemma {:induction false} SubsequenceIn<T>(a: seq<T>, b: seq<T>, x: T)
    requires Subsequence(a, b) && x in a
    ensures x in b
    decreases |b|
  {
    if a[|a| - 1] == b[|b| - 1] && Subsequence(a[..|a| - 1], b[..|b| - 1]) {
      if x != a[|a| - 1] {
        SubsequenceIn(a[..|a| - 1], b[..|b| - 1], x);
      }
    } else {
      SubsequenceIn(a, b[..|b| - 1], x);
    }
  }

  /** Comparing with the last event sent in order is comparing with all of them. */
  lemma LastDecides(n: nat, limit: int, ep: Epoch, st: ReqState, e: Event)
    requires EpochInv(n, limit, ep) && Tracks(n, limit, ep, st) && !ep.over && !IdSent(ep.sent, e.id)
    ensures BreaksOrder(st.pending.value, e) <==> !AfterAll(ep.ordered, e)
  {
    hide StringLess, Subsequence, Everyone;
    var k := |ep.ordered|;
    if k > 0 {
      var last := ep.ordered[k - 1];
      SubsequenceIn(ep.ordered, ep.sent, last);
      assert last.id != e.id;
      StringLessTotal(last.id, e.id);
      if Before(last, e) {
        forall i | 0 <= i < k ensures Before(ep.ordered[i], e) {
          BeforeOrder(ep.ordered[i], last, e);
        }
      }
    }
  }

  lemma EventMsgsSnoc(sub: string, s: seq<Event>, e: Event)
    ensures EventMsgs(sub, s + [e]) == EventMsgs(sub, s) + [EventMsg(sub, e)]
  {
  }

  lemma IdSentSnoc(s: seq<Event>, e: Event, id: string)
    ensures IdSent(s + [e], id) <==> IdSent(s, id) || id == e.id
  {
    if IdSent(s, id) {
      var i :| 0 <= i < |s| && s[i].id == id;
      assert (s + [e])[i].id == id;
    }
    assert (s + [e])[|s|] == e;
  }

  lemma TracksArrive(n: nat, limit: int, sub: string, ep: Epoch, st: ReqState, e: Event, h: nat)
    requires EpochInv(n, limit, ep) && Tracks(n, limit, ep, st) && h < n
    ensures var r := OnEvent(n, sub, st, e, h); var q := Arrive(limit, ep, e, h);
            Tracks(n, limit, q, r.0) && Received(sub, q) == Received(sub, ep) + r.1
  {
    hide Before, StringLess, Subsequence, Everyone, AfterAll, BreaksOrder, IdSent, FlagsFit;
    EventMsgsSnoc(sub, ep.sent, e);
    EventMsgsSnoc(sub, ep.after, e);
    forall id ensures IdSent(ep.sent + [e], id) <==> IdSent(ep.sent, id) || id == e.id { IdSentSnoc(ep.sent, e, id); }
    if !ep.over && !IdSent(ep.sent, e.id) {
      LastDecides(n, limit, ep, st, e);
    }
    hide EventMsgs;
  }

  lemma TracksFinish(n: nat, limit: int, sub: string, ep: Epoch, st: ReqState, h: nat)
    requires EpochInv(n, limit, ep) && Tracks(n, limit, ep, st) && h < n && !ep.over
    ensures var r := AdvanceEOSE(n, sub, st, h); var q := Finish(n, ep, h);
            Tracks(n, limit, q, r.0) && Received(sub, q) == Received(sub, ep) + r.1
  {
    hide Before, StringLess, Subsequence, IdSent, Trues;
    var flags := st.pending.value.done;
    assert EventMsgs(sub, []) == [];
    if flags[h] {
      assert ep.finished + {h} == ep.finished;
      assert Received(sub, ep) + [] == Received(sub, ep);
    } else {
      TruesSet(flags, h);
      TruesAll(flags[h := true]);
      forall x | 0 <= x < n ensures flags[h := true][x] <==> x in ep.finished + {h} {}
    }
  }

  lemma TracksStep(n: nat, limit: int, sub: string, ep: Epoch, st: ReqState, step: Step)
    requires EpochInv(n, limit, ep) && Tracks(n, limit, ep, st) && StepWf(n, step)
    requires step != Close(sub) && !(step.StartReq? && step.sub == sub)
    ensures var r := ReqStep(n, sub, st, step); var q := EpochStep(n, limit, sub, ep, step);
            Tracks(n, limit, q, r.0) && Received(sub, q) == Received(sub, ep) + r.1
  {
    hide EpochInv, Received, OnEvent, AdvanceEOSE, Arrive, Finish, IdSent;
    if step.Response? && step.msg.EventMsg? && step.msg.sub == sub {
      TracksArrive(n, limit, sub, ep, st, step.msg.event, step.handler);
    } else if (step.Lost? || (step.Response? && step.msg == EOSEMsg(sub))) && !ep.over {
      TracksFinish(n, limit, sub, ep, st, step.handler);
    } else {
      FinishOver(n, ep);
      assert Received(sub, ep) + [] == Received(sub, ep);
    }
  }

  lemma FinishOver(n: nat, ep: Epoch)
    ensures forall h :: ep.over ==> Finish(n, ep, h) == ep
  {
  }

  lemma TracksFresh(n: nat, sub: string, st: ReqState, filters: seq<Filter>)
    requires ReqInv(n, st)
    ensures var r := ReqStep(n, sub, st, StartReq(sub, filters));
            Tracks(n, ReqLimit(filters), NEW_EPOCH, r.0) && r.1 == Received(sub, NEW_EPOCH) == []
  {
    TruesAll(NoFlags(n));
  }

  ghost predicate Within(sub: string, rest: seq<Step>) {
    forall i :: 0 <= i < |rest| ==> rest[i] != Close(sub) && !(rest[i].StartReq? && rest[i].sub == sub)
  }

  /** From a REQ on, until the next or a CLOSE, the client receives exactly what the epoch says,
      whatever happened before. */
  lemma {:induction false} SessionFollowsEpoch(n: nat, sub: string, before: seq<Step>, filters: seq<Filter>,
        rest: seq<Step>)
    requires TraceWf(n, before) && TraceWf(n, rest) && Within(sub, rest)
    ensures TraceWf(n, before + [StartReq(sub, filters)] + rest)
    ensures var r := ReqRun(n, sub, IDLE, before + [StartReq(sub, filters)] + rest);
            var ep := EpochOf(n, ReqLimit(filters), sub, rest);
            r.1 == ReqRun(n, sub, IDLE, before).1 + Received(sub, ep) && Tracks(n, ReqLimit(filters), ep, r.0)
  {
    hide Tracks, Received, Trues, ReqStep, EpochStep, EpochInv;
    var start := before + [StartReq(sub, filters)];
    var out := ReqRun(n, sub, IDLE, before).1;
    assert start[..|before|] == before;
    if rest == [] {
      TracksFresh(n, sub, ReqRun(n, sub, IDLE, before).0, filters);
      assert start + rest == start;
    } else {
      var most, step := rest[..|rest| - 1], rest[|rest| - 1];
      assert (start + rest)[..|start + rest| - 1] == start + most;
      SessionFollowsEpoch(n, sub, before, filters, most);
      var r, ep := ReqRun(n, sub, IDLE, start + most), EpochOf(n, ReqLimit(filters), sub, most);
      EpochKeeps(n, ReqLimit(filters), sub, most);
      TracksStep(n, ReqLimit(filters), sub, ep, r.0, step);
      var more := ReqStep(n, sub, r.0, step).1;
      assert (out + Received(sub, ep)) + more == out + (Received(sub, ep) + more);
    }
  }

  // ---------- When the EOSE is sent ----------

  lemma FinishedSnoc(sub: string, h: nat, steps: seq<Step>, step: Step)
    ensures Finished(sub, h, steps + [step]) <==>
            Finished(sub, h, steps) || step == Lost(h) || step == Response(EOSEMsg(sub), h)
  {
    var all := steps + [step];
    if Finished(sub, h, steps) {
      var i :| 0 <= i < |steps| && (steps[i] == Lost(h) || steps[i] == Response(EOSEMsg(sub), h));
      assert all[i] == steps[i];
    }
    assert all[|steps|] == step;
  }

  lemma {:induction false} FinishedAreKnown(n: nat, limit: int, sub: string, steps: seq<Step>, h: nat)
    requires TraceWf(n, steps) && h < n
    ensures var ep := EpochOf(n, limit, sub, steps);
            (h in ep.finished ==> Finished(sub, h, steps)) && (!ep.over && Finished(sub, h, steps) ==> h in ep.finished)
  {
    if steps != [] {
      var most, step := steps[..|steps| - 1], steps[|steps| - 1];
      assert steps == most + [step];
      FinishedAreKnown(n, limit, sub, most, h);
      FinishedSnoc(sub, h, most, step);
      hide Finished, IdSent, AfterAll, Everyone;
    }
  }

  /** The EOSE of a REQ has been sent exactly when the limit has been reached or every handler has
      sent its own or been lost since the REQ. */
  lemma EOSEExactly(n: nat, limit: int, sub: string, steps: seq<Step>)
    requires TraceWf(n, steps)
    ensures var ep := EpochOf(n, limit, sub, steps);
            ep.over <==> (limit > 0 && |ep.ordered| == limit) || AllFinished(n, sub, steps)
  {
    EpochKeeps(n, limit, sub, steps);
    var ep := EpochOf(n, limit, sub, steps);
    forall h: nat | h < n
      ensures h in ep.finished ==> Finished(sub, h, steps)
      ensures !ep.over && Finished(sub, h, steps) ==> h in ep.finished
    {
      FinishedAreKnown(n, limit, sub, steps, h);
    }
    hide Finished, EpochOf, Subsequence, Before;
  }

  lemma ArriveInvents(limit: int, ep: Epoch, e: Event, h: nat, events: seq<Event>)
    requires Subsequence(ep.sent + ep.after, events) && (!ep.over ==> ep.after == [])
    ensures var q := Arrive(limit, ep, e, h); Subsequence(q.sent + q.after, events + [e])
  {
    hide IdSent, AfterAll, Before, Subsequence;
    SubsequenceBoth(ep.sent + ep.after, events, e);
    SubsequenceRight(ep.sent + ep.after, events, e);
    assert (ep.sent + ep.after) + [e] == ep.sent + (ep.after + [e]);
    assert !ep.over ==> (ep.sent + ep.after) + [e] == (ep.sent + [e]) + ep.after;
  }

  lemma EventStepArrives(n: nat, limit: int, sub: string, ep: Epoch, step: Step)
    requires step.Response? && step.msg.EventMsg? && step.msg.sub == sub
    ensures EpochStep(n, limit, sub, ep, step) == Arrive(limit, ep, step.msg.event, step.handler)
  {
    hide Arrive;
  }

  lemma OthersInventNothing(n: nat, limit: int, sub: string, ep: Epoch, step: Step)
    requires !(step.Response? && step.msg.EventMsg? && step.msg.sub == sub)
    ensures var q := EpochStep(n, limit, sub, ep, step); q.sent == ep.sent && q.after == ep.after
  {
    hide Arrive, Everyone;
  }

  /** Nothing is invented: what the client gets for a REQ some handler sent, in the same order. */
  lemma {:induction false} NothingInvented(n: nat, limit: int, sub: string, steps: seq<Step>)
    requires TraceWf(n, steps)
    ensures var ep := EpochOf(n, limit, sub, steps); Subsequence(ep.sent + ep.after, EventsOf(sub, steps))
  {
    hide Everyone, Subsequence, DistinctEventIds, Ordered, EpochStep, Arrive;
    if steps == [] {
      EmptySubsequence(EventsOf(sub, steps));
      assert NEW_EPOCH.sent + NEW_EPOCH.after == [];
    } else {
      var most, step := steps[..|steps| - 1], steps[|steps| - 1];
      EpochKeeps(n, limit, sub, most);
      NothingInvented(n, limit, sub, most);
      var ep := EpochOf(n, limit, sub, most);
      if step.Response? && step.msg.EventMsg? && step.msg.sub == sub {
        ArriveInvents(limit, ep, step.msg.event, step.handler, EventsOf(sub, most));
        EventStepArrives(n, limit, sub, ep, step);
      } else {
        OthersInventNothing(n, limit, sub, ep, step);
        assert EventsOf(sub, most) + [] == EventsOf(sub, most);
      }
    }
  }

  // ---------- Order ----------

  /** Step `i` is an event that went on to the client before the EOSE, from a handler that had not
      finished. */
  ghost predicate SentEarly(n: nat, limit: int, sub: string, steps: seq<Step>, i: nat, e: Event) {
    i < |steps| && steps[i].Response? && steps[i].msg == EventMsg(sub, e) &&
    !Finished(sub, steps[i].handler, steps[..i]) &&
    EpochOf(n, limit, sub, steps[..i + 1]).sent == EpochOf(n, limit, sub, steps[..i]).sent + [e]
  }

  lemma SentEarlyIsOrdered(n: nat, limit: int, sub: string, steps: seq<Step>, i: nat, e: Event)
    requires TraceWf(n, steps) && SentEarly(n, limit, sub, steps, i, e)
    ensures EpochOf(n, limit, sub, steps[..i + 1]).ordered == EpochOf(n, limit, sub, steps[..i]).ordered + [e]
    ensures AfterAll(EpochOf(n, limit, sub, steps[..i]).ordered, e)
  {
    assert steps[..i + 1][..i] == steps[..i];
    FinishedAreKnown(n, limit, sub, steps[..i], steps[i].handler);
    hide Finished, IdSent, AfterAll, Everyone;
  }

  lemma {:induction false} OrderedGrows(n: nat, limit: int, sub: string, steps: seq<Step>, i: nat, j: nat)
    requires i <= j <= |steps|
    ensures EpochOf(n, limit, sub, steps[..i]).ordered <= EpochOf(n, limit, sub, steps[..j]).ordered
    decreases j
  {
    hide IdSent, AfterAll, Everyone;
    if i < j {
      OrderedGrows(n, limit, sub, steps, i, j - 1);
      assert steps[..j][..j - 1] == steps[..j - 1];
    }
  }

  /** Of two events sent before the EOSE, each by a handler still answering at the time, the first
      sent comes first in the order of answers. */
  lemma EarlyInOrder(n: nat, limit: int, sub: string, steps: seq<Step>, i: nat, j: nat, e: Event, e': Event)
    requires TraceWf(n, steps) && i < j
    requires SentEarly(n, limit, sub, steps, i, e) && SentEarly(n, limit, sub, steps, j, e')
    ensures Before(e, e')
  {
    SentEarlyIsOrdered(n, limit, sub, steps, i, e);
    SentEarlyIsOrdered(n, limit, sub, steps, j, e');
    OrderedGrows(n, limit, sub, steps, i + 1, j);
    hide EpochOf, SentEarly, Before;
    var a, b := EpochOf(n, limit, sub, steps[..i]).ordered, EpochOf(n, limit, sub, steps[..j]).ordered;
    assert (a + [e])[|a|] == e == b[|a|];
  }
}
