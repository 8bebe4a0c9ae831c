/** A REQ answered by a storage merged with handlers that stay silent until their own EOSE: the
    client gets every event of the answer once, before the one EOSE. */
module EndToEnd {
  import opened Events
  import opened Filters
  import opened PebbleModel
  import opened Simulation
  import opened PebbleQuery
  import opened PebbleHistory
  import opened MergeSpec
  import opened MergeRuns
  import opened MergeEpochs
  import opened StorageHandler

  /** What handler `h` sent for a subscription, in order. */
  function FromHandler(sub: string, h: nat, steps: seq<Step>): seq<ServerMsg> {
    if steps == [] then []
    else
      var step := steps[|steps| - 1];
      FromHandler(sub, h, steps[..|steps| - 1]) +
      if step.Response? && step.handler == h && ChannelOf(step.msg) == Req(sub) then [step.msg] else []
  }

  predicate FirstEOSE(sub: string, msgs: seq<ServerMsg>) {
    msgs == [] || msgs[0] == EOSEMsg(sub)
  }

  /** No handler is lost, handler `c` sends what the storage sends, as far as it has got, and every
      other handler sends its EOSE before anything else. */
  ghost predicate Delivers(n: nat, c: nat, sub: string, answer: seq<Event>, steps: seq<Step>) {
    && TraceWf(n, steps) && c < n
    && (forall i :: 0 <= i < |steps| ==> !steps[i].Lost?)
    && FromHandler(sub, c, steps) <= StorageSends(sub, answer)
    && (forall h :: 0 <= h < n && h != c ==> FirstEOSE(sub, FromHandler(sub, h, steps)))
  }

  ghost predicate OthersSilent(n: nat, c: nat, sub: string, steps: seq<Step>) {
    forall h :: 0 <= h < n && h != c ==> FromHandler(sub, h, steps) <= [EOSEMsg(sub)]
  }

  /** How many events of the answer have arrived. */
  function Arrived(c: nat, sub: string, answer: seq<Event>, steps: seq<Step>): (k: nat)
    ensures k <= |answer|
  {
    var k := |FromHandler(sub, c, steps)|;
    if k < |answer| then k else |answer|
  }

  ghost predicate OnTheWay(n: nat, c: nat, limit: int, sub: string, answer: seq<Event>, steps: seq<Step>, ep: Epoch) {
    var k := Arrived(c, sub, answer, steps);
    && (forall j :: 0 <= j < k ==> IdSent(ep.sent, answer[j].id))
    && Subsequence(ep.ordered, answer[..k])
    && (ep.over ==> k == |answer|)
    && (!ep.over ==> (c in ep.finished <==> |FromHandler(sub, c, steps)| == |answer| + 1))
    && (!ep.over ==> forall h :: 0 <= h < n && h != c ==> (h in ep.finished <==> FromHandler(sub, h, steps) != []))
    && (OthersSilent(n, c, sub, steps) ==> ep.sent == answer[..k] && ep.ordered == answer[..k] && ep.after == [])
  }

  lemma FromSnoc(sub: string, h: nat, steps: seq<Step>, step: Step)
    ensures FromHandler(sub, h, steps + [step]) == FromHandler(sub, h, steps) +
              if step.Response? && step.handler == h && ChannelOf(step.msg) == Req(sub) then [step.msg] else []
  {
    assert (steps + [step])[..|steps|] == steps;
  }

  lemma DeliversBefore(n: nat, c: nat, sub: string, answer: seq<Event>, steps: seq<Step>, step: Step)
    requires Delivers(n, c, sub, answer, steps + [step])
    ensures Delivers(n, c, sub, answer, steps)
    ensures OthersSilent(n, c, sub, steps + [step]) ==> OthersSilent(n, c, sub, steps)
  {
    var all := steps + [step];
    assert forall i :: 0 <= i < |steps| ==> steps[i] == all[i];
    forall h: nat ensures FromHandler(sub, h, steps) <= FromHandler(sub, h, all) { FromSnoc(sub, h, steps, step); }
    hide FromHandler, StorageSends;
    forall h: nat | h < n && h != c ensures FirstEOSE(sub, FromHandler(sub, h, steps)) {
      assert FirstEOSE(sub, FromHandler(sub, h, all));
    }
    if OthersSilent(n, c, sub, all) {
      forall h: nat | h < n && h != c ensures FromHandler(sub, h, steps) <= [EOSEMsg(sub)] {
        assert FromHandler(sub, h, steps) <= FromHandler(sub, h, all) <= [EOSEMsg(sub)];
      }
    }
  }

  lemma {:induction false} SubsequenceLength<T>(a: seq<T>, b: seq<T>)
    requires Subsequence(a, b)
    ensures |a| <= |b|
    decreases |b|
  {
    if a != [] {
      if a[|a| - 1] == b[|b| - 1] && Subsequence(a[..|a| - 1], b[..|b| - 1]) {
        SubsequenceLength(a[..|a| - 1], b[..|b| - 1]);
      } else {
        SubsequenceLength(a, b[..|b| - 1]);
      }
    }
  }

  /** The next event of the answer comes after whatever of the answer was sent. */
  lemma NextInOrder(ordered: seq<Event>, answer: seq<Event>, k: nat)
    requires Ordered(answer) && k < |answer| && Subsequence(ordered, answer[..k])
    ensures AfterAll(ordered, answer[k])
  {
    forall i | 0 <= i < |ordered| ensures Before(ordered[i], answer[k]) {
      SubsequenceIn(ordered, answer[..k], ordered[i]);
      var j :| 0 <= j < k && answer[..k][j] == ordered[i];
    }
  }

  lemma NotSentYet(answer: seq<Event>, k: nat)
    requires DistinctEventIds(answer) && k < |answer|
    ensures !IdSent(answer[..k], answer[k].id)
  {
  }

  /** An event of the answer arrives. */
  lemma AnswerArrives(limit: int, answer: seq<Event>, k: nat, ep: Epoch, c: nat)
    requires Ordered(answer) && DistinctEventIds(answer) && (limit > 0 ==> |answer| <= limit) && k < |answer|
    requires !ep.over && c !in ep.finished
    requires forall j :: 0 <= j < k ==> IdSent(ep.sent, answer[j].id)
    requires Subsequence(ep.ordered, answer[..k])
    ensures var q := Arrive(limit, ep, answer[k], c);
            && q.finished == ep.finished && q.after == ep.after
            && (forall j :: 0 <= j < k + 1 ==> IdSent(q.sent, answer[j].id))
            && Subsequence(q.ordered, answer[..k + 1])
            && (q.over ==> k + 1 == |answer|)
            && (ep.sent == answer[..k] && ep.ordered == answer[..k] ==>
                  q.sent == answer[..k + 1] && q.ordered == answer[..k + 1])
  {
    hide Subsequence, AfterAll, Before, IdSent, DistinctEventIds, Ordered;
    var e := answer[k];
    assert answer[..k + 1] == answer[..k] + [e];
    NextInOrder(ep.ordered, answer, k);
    SubsequenceLength(ep.ordered, answer[..k]);
    SubsequenceBoth(ep.ordered, answer[..k], e);
    SubsequenceRight(ep.ordered, answer[..k], e);
    NotSentYet(answer, k);
    if !IdSent(ep.sent, e.id) {
      forall j | 0 <= j < |answer|
        ensures IdSent(ep.sent + [e], answer[j].id) <==> IdSent(ep.sent, answer[j].id) || answer[j].id == e.id {
        IdSentSnoc(ep.sent, e, answer[j].id);
      }
    }
  }

  lemma StorageEventStep(n: nat, c: nat, limit: int, sub: string, answer: seq<Event>, steps: seq<Step>, step: Step,
        ep: Epoch)
    requires Delivers(n, c, sub, answer, steps + [step]) && Delivers(n, c, sub, answer, steps)
    requires Ordered(answer) && DistinctEventIds(answer) && (limit > 0 ==> |answer| <= limit)
    requires OnTheWay(n, c, limit, sub, answer, steps, ep)
    requires OthersSilent(n, c, sub, steps + [step]) ==> OthersSilent(n, c, sub, steps)
    requires step.Response? && step.handler == c && step.msg.EventMsg? && step.msg.sub == sub
    ensures OnTheWay(n, c, limit, sub, answer, steps + [step], EpochStep(n, limit, sub, ep, step))
  {
    hide Subsequence, IdSent, Before, Ordered, Arrive, DistinctEventIds;
    var all, k := steps + [step], Arrived(c, sub, answer, steps);
    forall h: nat ensures FromHandler(sub, h, all) == FromHandler(sub, h, steps) + if h == c then [step.msg] else [] {
      FromSnoc(sub, h, steps, step);
    }
    hide FromHandler;
    var f := FromHandler(sub, c, steps);
    assert FromHandler(sub, c, all)[|f|] == step.msg == StorageSends(sub, answer)[|f|];
    assert k == |f| < |answer| && step.msg.event == answer[k];
    AnswerArrives(limit, answer, k, ep, c);
    assert Arrived(c, sub, answer, all) == k + 1;
    hide OthersSilent, StorageSends, FirstEOSE;
  }

  lemma OtherEventStep(n: nat, c: nat, limit: int, sub: string, answer: seq<Event>, steps: seq<Step>, step: Step,
        ep: Epoch)
    requires Delivers(n, c, sub, answer, steps + [step]) && Delivers(n, c, sub, answer, steps)
    requires OnTheWay(n, c, limit, sub, answer, steps, ep)
    requires step.Response? && step.handler != c && step.msg.EventMsg? && step.msg.sub == sub
    ensures OnTheWay(n, c, limit, sub, answer, steps + [step], EpochStep(n, limit, sub, ep, step))
  {
    hide Subsequence, Before, Ordered, AfterAll, IdSent;
    var all, x, e := steps + [step], step.handler, step.msg.event;
    forall h: nat ensures FromHandler(sub, h, all) == FromHandler(sub, h, steps) + if h == x then [step.msg] else [] {
      FromSnoc(sub, h, steps, step);
    }
    hide FromHandler, StorageSends;
    var f := FromHandler(sub, x, steps);
    assert FirstEOSE(sub, FromHandler(sub, x, all));
    assert FromHandler(sub, x, all)[|f|] == step.msg;
    assert f != [];
    assert !OthersSilent(n, c, sub, all) by {
      assert |FromHandler(sub, x, all)| >= 2;
    }
    assert ep.over || x in ep.finished;
    assert Arrived(c, sub, answer, all) == Arrived(c, sub, answer, steps);
    forall j | 0 <= j < |answer|
      ensures IdSent(ep.sent + [e], answer[j].id) <==> IdSent(ep.sent, answer[j].id) || answer[j].id == e.id {
      IdSentSnoc(ep.sent, e, answer[j].id);
    }
    hide OthersSilent, FirstEOSE;
  }

  /** An EOSE changes who has finished, not how much of the answer has arrived. */
  lemma EOSEArrives(n: nat, c: nat, sub: string, answer: seq<Event>, steps: seq<Step>, step: Step)
    requires Delivers(n, c, sub, answer, steps + [step])
    requires step.Response? && step.msg == EOSEMsg(sub)
    ensures c < n
    ensures var all := steps + [step];
            && Arrived(c, sub, answer, all) == Arrived(c, sub, answer, steps)
            && (|FromHandler(sub, c, all)| == |answer| + 1 <==>
                  step.handler == c || |FromHandler(sub, c, steps)| == |answer| + 1)
            && (forall h :: 0 <= h < n && h != c ==>
                  (FromHandler(sub, h, all) != [] <==> h == step.handler || FromHandler(sub, h, steps) != []))
  {
    var all, f := steps + [step], FromHandler(sub, c, steps);
    forall h: nat
      ensures FromHandler(sub, h, all) == FromHandler(sub, h, steps) + if h == step.handler then [step.msg] else [] {
      FromSnoc(sub, h, steps, step);
    }
    hide FromHandler, OthersSilent, FirstEOSE;
    if step.handler == c {
      assert FromHandler(sub, c, all)[|f|] == step.msg == StorageSends(sub, answer)[|f|];
      assert |f| == |answer|;
    }
  }

  lemma EOSEStep(n: nat, c: nat, limit: int, sub: string, answer: seq<Event>, steps: seq<Step>, step: Step, ep: Epoch)
    requires Delivers(n, c, sub, answer, steps + [step])
    requires OnTheWay(n, c, limit, sub, answer, steps, ep)
    requires OthersSilent(n, c, sub, steps + [step]) ==> OthersSilent(n, c, sub, steps)
    requires step.Response? && step.msg == EOSEMsg(sub)
    ensures OnTheWay(n, c, limit, sub, answer, steps + [step], EpochStep(n, limit, sub, ep, step))
  {
    hide Subsequence, IdSent, Delivers, FromHandler, OthersSilent, Arrived, Everyone, StorageSends;
    EOSEArrives(n, c, sub, answer, steps, step);
    var x, q := step.handler, Finish(n, ep, step.handler);
    assert EpochStep(n, limit, sub, ep, step) == q;
    assert q.sent == ep.sent && q.ordered == ep.ordered && q.after == ep.after;
    if !ep.over && q.over {
      EveryoneHas(n, ep.finished + {x}, c);
      ArrivedAll(c, sub, answer, steps + [step]);
    }
  }

  lemma EveryoneHas(n: nat, finished: set<nat>, c: nat)
    requires Everyone(n, finished) && c < n
    ensures c in finished
  {
  }

  lemma ArrivedAll(c: nat, sub: string, answer: seq<Event>, steps: seq<Step>)
    ensures |FromHandler(sub, c, steps)| == |answer| + 1 ==> Arrived(c, sub, answer, steps) == |answer|
  {
  }

  /** A step that does not concern the subscription. */
  lemma QuietStep(n: nat, c: nat, limit: int, sub: string, answer: seq<Event>, steps: seq<Step>, step: Step, ep: Epoch)
    requires Delivers(n, c, sub, answer, steps + [step])
    requires OnTheWay(n, c, limit, sub, answer, steps, ep)
    requires OthersSilent(n, c, sub, steps + [step]) ==> OthersSilent(n, c, sub, steps)
    requires step.Response? ==> ChannelOf(step.msg) != Req(sub)
    ensures OnTheWay(n, c, limit, sub, answer, steps + [step], EpochStep(n, limit, sub, ep, step))
  {
    hide FromHandler, EpochOf, Subsequence, IdSent, FirstEOSE, StorageSends, OthersSilent;
    forall h: nat
      ensures FromHandler(sub, h, steps + [step]) == FromHandler(sub, h, steps) { FromSnoc(sub, h, steps, step); }
    assert (steps + [step])[|steps|] == step;
    assert EpochStep(n, limit, sub, ep, step) == ep;
    hide Delivers;
  }

  /** However far the handlers have got, every answer event that has arrived has been sent, and the
      EOSE is not sent before all of them have. */
  lemma {:induction false} AnswersOnTheWay(n: nat, c: nat, limit: int, sub: string, answer: seq<Event>,
        steps: seq<Step>)
    requires Delivers(n, c, sub, answer, steps)
    requires Ordered(answer) && DistinctEventIds(answer) && (limit > 0 ==> |answer| <= limit)
    ensures OnTheWay(n, c, limit, sub, answer, steps, EpochOf(n, limit, sub, steps))
  {
    if steps == [] {
      assert answer[..0] == [];
    } else {
      hide OnTheWay, Delivers, OthersSilent, Ordered, DistinctEventIds, EpochStep;
      var most, step := steps[..|steps| - 1], steps[|steps| - 1];
      assert steps == most + [step];
      DeliversBefore(n, c, sub, answer, most, step);
      AnswersOnTheWay(n, c, limit, sub, answer, most);
      var ep := EpochOf(n, limit, sub, most);
      assert EpochOf(n, limit, sub, steps) == EpochStep(n, limit, sub, ep, step);
      if step.Response? && step.msg.EventMsg? && step.msg.sub == sub {
        if step.handler == c {
          StorageEventStep(n, c, limit, sub, answer, most, step, ep);
        } else {
          OtherEventStep(n, c, limit, sub, answer, most, step, ep);
        }
      } else if step.Response? && step.msg == EOSEMsg(sub) {
        EOSEStep(n, c, limit, sub, answer, most, step, ep);
      } else {
        QuietStep(n, c, limit, sub, answer, most, step, ep);
      }
    }
  }

  /** All that is needed of an answer: in order, no id twice, and within the limit. */
  predicate Deliverable(filters: seq<Filter>, answer: seq<Event>) {
    Ordered(answer) && DistinctEventIds(answer) && (ReqLimit(filters) > 0 ==> |answer| <= ReqLimit(filters))
  }

  lemma AnswerIdsDistinct(live: set<Event>, filters: seq<Filter>, answer: seq<Event>)
    requires IsAnswer(live, filters, answer) && DistinctIds(live)
    ensures Deliverable(filters, answer)
  {
    forall i, j | 0 <= i < j < |answer| ensures answer[i].id != answer[j].id {
      assert answer[i] in answer && answer[j] in answer;
      BeforeOrder(answer[i], answer[j], answer[j]);
      assert Before(answer[i], answer[j]);
    }
  }

  ghost predicate AllDone(n: nat, c: nat, sub: string, answer: seq<Event>, steps: seq<Step>) {
    FromHandler(sub, c, steps) == StorageSends(sub, answer) &&
    forall h :: 0 <= h < n && h != c ==> FromHandler(sub, h, steps) != []
  }

  /** What the client received for a fresh REQ: every event of the answer exactly once, then one EOSE,
      then whatever came later; and the answer in its order and nothing else when the other handlers
      are silent. */
  ghost predicate OnceBeforeEOSE(n: nat, c: nat, sub: string, before: seq<Step>, filters: seq<Filter>,
      rest: seq<Step>, answer: seq<Event>)
  {
    && TraceWf(n, before) && TraceWf(n, before + [StartReq(sub, filters)] + rest)
    && var ep := EpochOf(n, ReqLimit(filters), sub, rest);
    && ReqRun(n, sub, IDLE, before + [StartReq(sub, filters)] + rest).1 ==
       ReqRun(n, sub, IDLE, before).1 + (EventMsgs(sub, ep.sent) + ([EOSEMsg(sub)] + EventMsgs(sub, ep.after)))
    && DistinctEventIds(ep.sent)
    && (forall j :: 0 <= j < |answer| ==> IdSent(ep.sent, answer[j].id))
    && (OthersSilent(n, c, sub, rest) ==> ep.sent == answer && ep.after == [])
  }

  /** Under every interleaving, once the storage and the others have sent their EOSE. */
  lemma EveryAnswerOnce(n: nat, c: nat, sub: string, before: seq<Step>, filters: seq<Filter>, rest: seq<Step>,
      answer: seq<Event>)
    requires TraceWf(n, before) && TraceWf(n, rest) && Within(sub, rest)
    requires Deliverable(filters, answer)
    requires Delivers(n, c, sub, answer, rest) && AllDone(n, c, sub, answer, rest)
    ensures OnceBeforeEOSE(n, c, sub, before, filters, rest, answer)
  {
    SessionFollowsEpoch(n, sub, before, filters, rest);
    AnswersOnTheWay(n, c, ReqLimit(filters), sub, answer, rest);
    EpochKeeps(n, ReqLimit(filters), sub, rest);
    var ep := EpochOf(n, ReqLimit(filters), sub, rest);
    assert answer[..|answer|] == answer;
    hide EpochOf, ReqRun, FromHandler, Subsequence, IdSent, DistinctEventIds, Ordered, Tracks, OthersSilent, EventMsgs;
    assert !ep.over ==> Everyone(n, ep.finished);
  }

  /** So it is for the right answer over live events, as the in-memory storage gives it. */
  lemma MemoryAnswerOnce(n: nat, c: nat, sub: string, before: seq<Step>, filters: seq<Filter>, rest: seq<Step>,
      live: set<Event>, answer: seq<Event>)
    requires TraceWf(n, before) && TraceWf(n, rest) && Within(sub, rest)
    requires DistinctIds(live) && IsAnswer(live, filters, answer)
    requires Delivers(n, c, sub, answer, rest) && AllDone(n, c, sub, answer, rest)
    ensures OnceBeforeEOSE(n, c, sub, before, filters, rest, answer)
  {
    AnswerIdsDistinct(live, filters, answer);
    hide IsAnswer, TraceWf, Within, Delivers, AllDone, OnceBeforeEOSE, Deliverable;
    EveryAnswerOnce(n, c, sub, before, filters, rest, answer);
  }

  /** And for the answer of the Pebble storage after any history, unbounded filters included. */
  lemma PebbleAnswerOnce(n: nat, c: nat, sub: string, before: seq<Step>, filters: seq<Filter>, rest: seq<Step>,
      fnv: Hash, history: seq<Event>, answer: seq<Event>)
    requires TraceWf(n, before) && TraceWf(n, rest) && Within(sub, rest) && AllWellFormedEvents(history)
    requires IsAnswer(Stored(RunPebble(fnv, map[], history)), AllEffective(filters), answer)
    requires Delivers(n, c, sub, answer, rest) && AllDone(n, c, sub, answer, rest)
    ensures OnceBeforeEOSE(n, c, sub, before, filters, rest, answer)
  {
    StoredIdsDistinct(fnv, history);
    AnswerIdsDistinct(Stored(RunPebble(fnv, map[], history)), AllEffective(filters), answer);
    SameReqLimit(filters);
    hide IsAnswer, TraceWf, Within, Delivers, AllDone, OnceBeforeEOSE, RunPebble, Stored, AllEffective, ReqLimit;
    EveryAnswerOnce(n, c, sub, before, filters, rest, answer);
  }

  lemma StoredIdsDistinct(fnv: Hash, history: seq<Event>)
    requires AllWellFormedEvents(history)
    ensures DistinctIds(Stored(RunPebble(fnv, map[], history)))
  {
    var s, db := RunState(fnv, history), RunPebble(fnv, map[], history);
    HistoryStep(fnv, ANYWHERE, history);
    StoredAreLive(fnv, ANYWHERE, s, db);
    DatabaseFacts(fnv, ANYWHERE, s, db);
  }

  lemma SameReqLimit(filters: seq<Filter>)
    ensures ReqLimit(AllEffective(filters)) == ReqLimit(filters)
  {
    hide Boundable;
  }
}
