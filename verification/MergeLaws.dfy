/** What a client can tell of a REQ from the messages it gets: what each next answer of a handler makes
    the session send, in terms of what was sent before. */
module MergeLaws {
  import opened Bytes
  import opened Events
  import opened Filters
  import opened MergeSpec
  import opened MergeRuns
  import opened MergeEpochs

  lemma StartWf(n: nat, sub: string, filters: seq<Filter>, rest: seq<Step>)
    requires TraceWf(n, rest)
    ensures TraceWf(n, [StartReq(sub, filters)] + rest)
  {
  }

  /** What has been sent since the REQ. */
  ghost function SentSince(n: nat, sub: string, filters: seq<Filter>, rest: seq<Step>): seq<ServerMsg>
    requires TraceWf(n, rest)
  {
    StartWf(n, sub, filters, rest);
    ReqRun(n, sub, IDLE, [StartReq(sub, filters)] + rest).1
  }

  lemma SentIsReceived(n: nat, sub: string, filters: seq<Filter>, rest: seq<Step>)
    requires TraceWf(n, rest) && Within(sub, rest)
    ensures SentSince(n, sub, filters, rest) == Received(sub, EpochOf(n, ReqLimit(filters), sub, rest))
  {
    SessionFollowsEpoch(n, sub, [], filters, rest);
    NothingRun(n, sub);
    hide Received, EpochOf, Tracks, ReqRun, TraceWf, Within, ReqLimit, ReqInv;
    NothingBefore([StartReq(sub, filters)], rest);
    NothingBefore(Received(sub, EpochOf(n, ReqLimit(filters), sub, rest)), []);
  }

  lemma NothingBefore<T>(a: seq<T>, b: seq<T>)
    ensures [] + a == a && [] + a + b == a + b
  {
  }

  lemma NothingRun(n: nat, sub: string)
    ensures ReqRun(n, sub, IDLE, []).1 == []
  {
  }

  /** What happened before the REQ makes no difference. */
  lemma FreshStart(n: nat, sub: string, before: seq<Step>, filters: seq<Filter>, rest: seq<Step>)
    requires TraceWf(n, before) && TraceWf(n, rest) && Within(sub, rest)
    ensures TraceWf(n, before + [StartReq(sub, filters)] + rest)
    ensures ReqRun(n, sub, IDLE, before + [StartReq(sub, filters)] + rest).1 ==
            ReqRun(n, sub, IDLE, before).1 + SentSince(n, sub, filters, rest)
  {
    SessionFollowsEpoch(n, sub, before, filters, rest);
    SentIsReceived(n, sub, filters, rest);
    hide Received, EpochOf, Tracks, ReqRun;
  }

  predicate SentId(sent: seq<ServerMsg>, id: string) {
    exists i :: 0 <= i < |sent| && sent[i].EventMsg? && sent[i].event.id == id
  }

  /** The events that went out before the EOSE from handlers that had not finished, in order. */
  ghost function Early(n: nat, sub: string, filters: seq<Filter>, rest: seq<Step>): seq<Event>
    requires TraceWf(n, rest)
  {
    if rest == [] then []
    else
      var most, step := rest[..|rest| - 1], rest[|rest| - 1];
      var was, now := SentSince(n, sub, filters, most), SentSince(n, sub, filters, rest);
      Early(n, sub, filters, most) +
      if step.Response? && step.msg.EventMsg? && step.msg.sub == sub && !Finished(sub, step.handler, most) &&
         EOSEMsg(sub) !in was && |now| > |was|
      then [step.msg.event] else []
  }

  ghost predicate AtLimit(filters: seq<Filter>, k: nat) {
    |filters| > 0 && filters[0].limit.Some? && filters[0].limit.value > 0 && k == filters[0].limit.value
  }

  // ---------- Messages and the epoch ----------

  lemma ReceivedShows(sub: string, ep: Epoch)
    ensures EOSEMsg(sub) in Received(sub, ep) <==> ep.over
    ensures !ep.over ==> Received(sub, ep) == EventMsgs(sub, ep.sent)
    ensures !ep.over ==> forall id :: SentId(Received(sub, ep), id) <==> IdSent(ep.sent, id)
  {
    var out := EventMsgs(sub, ep.sent);
    assert out + [] == out;
    if ep.over {
      assert Received(sub, ep)[|ep.sent|] == EOSEMsg(sub);
    } else {
      forall id ensures SentId(out, id) <==> IdSent(ep.sent, id) {
        if i :| 0 <= i < |ep.sent| && ep.sent[i].id == id {
          assert out[i] == EventMsg(sub, ep.sent[i]);
        }
      }
    }
  }

  lemma OneMoreStep(n: nat, sub: string, filters: seq<Filter>, rest: seq<Step>, step: Step)
    requires TraceWf(n, rest) && Within(sub, rest) && StepWf(n, step)
    requires step != Close(sub) && !(step.StartReq? && step.sub == sub)
    ensures TraceWf(n, rest + [step]) && Within(sub, rest + [step])
    ensures EpochOf(n, ReqLimit(filters), sub, rest + [step]) ==
            EpochStep(n, ReqLimit(filters), sub, EpochOf(n, ReqLimit(filters), sub, rest), step)
  {
    hide EpochStep;
    assert (rest + [step])[..|rest|] == rest;
  }

  lemma {:induction false} EarlyIsOrdered(n: nat, sub: string, filters: seq<Filter>, rest: seq<Step>)
    requires TraceWf(n, rest) && Within(sub, rest)
    ensures Early(n, sub, filters, rest) == EpochOf(n, ReqLimit(filters), sub, rest).ordered
  {
    hide Received, SentSince, EpochStep, Finished, ReqLimit;
    if rest != [] {
      var most, step := rest[..|rest| - 1], rest[|rest| - 1];
      assert rest == most + [step];
      var limit := ReqLimit(filters);
      EarlyIsOrdered(n, sub, filters, most);
      SentIsReceived(n, sub, filters, most);
      SentIsReceived(n, sub, filters, rest);
      var ep := EpochOf(n, limit, sub, most);
      ReceivedShows(sub, ep);
      OneMoreStep(n, sub, filters, most, step);
      if step.Response? {
        FinishedAreKnown(n, limit, sub, most, step.handler);
      }
      OrderedStep(n, limit, sub, ep, step);
    }
  }

  /** An event joins the ordered ones exactly when it is sent before the EOSE for a handler that has not
      finished. */
  lemma OrderedStep(n: nat, limit: int, sub: string, ep: Epoch, step: Step)
    ensures var q := EpochStep(n, limit, sub, ep, step);
            q.ordered == ep.ordered +
              if step.Response? && step.msg.EventMsg? && step.msg.sub == sub && step.handler !in ep.finished &&
                 !ep.over && |Received(sub, q)| > |Received(sub, ep)|
              then [step.msg.event] else []
  {
    hide IdSent, AfterAll, Everyone;
  }

  // ---------- The laws ----------

  /** The EOSE has been sent exactly when as many events as the first filter's limit have gone out early,
      or every handler has finished; it is sent at most once. */
  lemma EOSELaw(n: nat, sub: string, filters: seq<Filter>, rest: seq<Step>)
    requires TraceWf(n, rest) && Within(sub, rest)
    ensures var sent := SentSince(n, sub, filters, rest);
            && (EOSEMsg(sub) in sent <==>
                  AtLimit(filters, |Early(n, sub, filters, rest)|) || AllFinished(n, sub, rest))
            && forall i, j :: 0 <= i < j < |sent| && sent[i] == EOSEMsg(sub) ==> sent[j] != EOSEMsg(sub)
  {
    var ep := EpochOf(n, ReqLimit(filters), sub, rest);
    SentIsReceived(n, sub, filters, rest);
    EarlyIsOrdered(n, sub, filters, rest);
    EOSEExactly(n, ReqLimit(filters), sub, rest);
    ReceivedShows(sub, ep);
    hide SentSince, Early, EpochOf, AllFinished;
    forall i | 0 <= i < |Received(sub, ep)|
      ensures Received(sub, ep)[i] == EOSEMsg(sub) <==> ep.over && i == |ep.sent| {}
  }

  /** After the EOSE every event a handler sends for the subscription is passed on. */
  lemma LiveEventLaw(n: nat, sub: string, filters: seq<Filter>, rest: seq<Step>, e: Event, h: nat)
    requires TraceWf(n, rest) && Within(sub, rest) && h < n
    requires EOSEMsg(sub) in SentSince(n, sub, filters, rest) || AllFinished(n, sub, rest)
    ensures var next := rest + [Response(EventMsg(sub, e), h)];
            TraceWf(n, next) &&
            SentSince(n, sub, filters, next) == SentSince(n, sub, filters, rest) + [EventMsg(sub, e)]
  {
    var ep, step := EpochOf(n, ReqLimit(filters), sub, rest), Response(EventMsg(sub, e), h);
    EOSELaw(n, sub, filters, rest);
    OneMoreStep(n, sub, filters, rest, step);
    SentIsReceived(n, sub, filters, rest);
    SentIsReceived(n, sub, filters, rest + [step]);
    ReceivedShows(sub, ep);
    hide SentSince, Early, EpochOf, AllFinished, Received;
    ReceivedLater(sub, ep, e);
  }

  lemma ReceivedLater(sub: string, ep: Epoch, e: Event)
    requires ep.over
    ensures Received(sub, ep.(after := ep.after + [e])) == Received(sub, ep) + [EventMsg(sub, e)]
  {
    EventMsgsSnoc(sub, ep.after, e);
    var a, b := EventMsgs(sub, ep.sent), EventMsgs(sub, ep.after);
    assert a + ([EOSEMsg(sub)] + (b + [EventMsg(sub, e)])) == (a + ([EOSEMsg(sub)] + b)) + [EventMsg(sub, e)];
  }

  lemma ReceivedNext(sub: string, ep: Epoch, q: Epoch, e: Event)
    requires !ep.over && q.sent == ep.sent + [e] && q.after == []
    ensures Received(sub, q) == Received(sub, ep) + ([EventMsg(sub, e)] + if q.over then [EOSEMsg(sub)] else [])
  {
    EventMsgsSnoc(sub, ep.sent, e);
    assert EventMsgs(sub, []) == [];
  }

  /** Before the EOSE an event is passed on exactly when its id is new and its handler has finished, or it
      comes after all events that went out early; the one that makes them as many as the limit is
      followed by the EOSE at once. */
  lemma EarlyEventLaw(n: nat, sub: string, filters: seq<Filter>, rest: seq<Step>, e: Event, h: nat)
    requires TraceWf(n, rest) && Within(sub, rest) && h < n
    requires EOSEMsg(sub) !in SentSince(n, sub, filters, rest)
    ensures var next := rest + [Response(EventMsg(sub, e), h)];
            var sent, early := SentSince(n, sub, filters, rest), Early(n, sub, filters, rest);
            var passed := !SentId(sent, e.id) &&
                          (Finished(sub, h, rest) || forall i :: 0 <= i < |early| ==> Before(early[i], e));
            var last := !Finished(sub, h, rest) && AtLimit(filters, |early| + 1);
            TraceWf(n, next) &&
            SentSince(n, sub, filters, next) ==
            sent + if !passed then [] else [EventMsg(sub, e)] + if last then [EOSEMsg(sub)] else []
  {
    var limit := ReqLimit(filters);
    var ep, step := EpochOf(n, limit, sub, rest), Response(EventMsg(sub, e), h);
    OneMoreStep(n, sub, filters, rest, step);
    SentIsReceived(n, sub, filters, rest);
    SentIsReceived(n, sub, filters, rest + [step]);
    EarlyIsOrdered(n, sub, filters, rest);
    FinishedAreKnown(n, limit, sub, rest, h);
    EpochKeeps(n, limit, sub, rest);
    ReceivedShows(sub, ep);
    ArriveSends(n, limit, sub, ep, e, h);
    EventStepArrives(n, limit, sub, ep, step);
    LimitReached(filters, |ep.ordered| + 1);
    hide SentSince, Early, EpochOf, EpochStep, Arrive, Finished, Received, SentId, IdSent, Before, EpochInv, ReqLimit,
         AtLimit, TraceWf, Within, AfterAll;
    var sent, early := SentSince(n, sub, filters, rest), Early(n, sub, filters, rest);
    assert early == ep.ordered && (SentId(sent, e.id) <==> IdSent(ep.sent, e.id));
    assert Finished(sub, h, rest) <==> h in ep.finished;
    assert AtLimit(filters, |early| + 1) <==> |ep.ordered| + 1 == limit;
  }

  lemma LimitReached(filters: seq<Filter>, k: nat)
    ensures k > 0 ==> (AtLimit(filters, k) <==> k == ReqLimit(filters))
  {
  }

  lemma ArriveSends(n: nat, limit: int, sub: string, ep: Epoch, e: Event, h: nat)
    requires EpochInv(n, limit, ep) && !ep.over
    ensures var passed := !IdSent(ep.sent, e.id) &&
                          (h in ep.finished || forall i :: 0 <= i < |ep.ordered| ==> Before(ep.ordered[i], e));
            var last := h !in ep.finished && |ep.ordered| + 1 == limit;
            Received(sub, Arrive(limit, ep, e, h)) ==
            Received(sub, ep) + if !passed then [] else [EventMsg(sub, e)] + if last then [EOSEMsg(sub)] else []
  {
    NothingAfter(n, limit, ep);
    var q := Arrive(limit, ep, e, h);
    hide Received, IdSent, Before, EpochInv;
    if q.sent == ep.sent + [e] {
      ReceivedNext(sub, ep, q, e);
    }
    assert Received(sub, ep) + [] == Received(sub, ep);
  }

  lemma NothingAfter(n: nat, limit: int, ep: Epoch)
    requires EpochInv(n, limit, ep) && !ep.over
    ensures ep.after == []
  {
  }

  /** Whatever else happens sends nothing for the subscription, but for the EOSE when the last handler
      finishes. */
  lemma QuietLaw(n: nat, sub: string, filters: seq<Filter>, rest: seq<Step>, step: Step)
    requires TraceWf(n, rest) && Within(sub, rest) && StepWf(n, step)
    requires step != Close(sub) && !(step.StartReq? && step.sub == sub)
    requires !(step.Response? && step.msg.EventMsg? && step.msg.sub == sub)
    ensures TraceWf(n, rest + [step])
    ensures var sent := SentSince(n, sub, filters, rest);
            SentSince(n, sub, filters, rest + [step]) ==
            sent + if EOSEMsg(sub) !in sent && AllFinished(n, sub, rest + [step]) then [EOSEMsg(sub)] else []
  {
    var limit := ReqLimit(filters);
    var ep := EpochOf(n, limit, sub, rest);
    OneMoreStep(n, sub, filters, rest, step);
    SentIsReceived(n, sub, filters, rest);
    SentIsReceived(n, sub, filters, rest + [step]);
    EOSEExactly(n, limit, sub, rest);
    EOSEExactly(n, limit, sub, rest + [step]);
    EpochKeeps(n, limit, sub, rest);
    ReceivedShows(sub, ep);
    OthersInventNothing(n, limit, sub, ep, step);
    var q := EpochStep(n, limit, sub, ep, step);
    assert q.ordered == ep.ordered && (ep.over ==> q == ep) by { FinishOnly(n, limit, sub, ep, step); }
    hide SentSince, EpochOf, AllFinished, EpochInv, EpochStep;
    assert !ep.over ==> ep.after == [] by { if !ep.over { NothingAfter(n, limit, ep); } }
    assert EventMsgs(sub, []) == [];
    assert Received(sub, ep) + [] == Received(sub, ep);
  }

  lemma FinishOnly(n: nat, limit: int, sub: string, ep: Epoch, step: Step)
    requires !(step.Response? && step.msg.EventMsg? && step.msg.sub == sub)
    ensures var q := EpochStep(n, limit, sub, ep, step); q.ordered == ep.ordered && (ep.over ==> q == ep)
  {
    hide Everyone;
  }

  // ---------- OK and COUNT ----------

  /** The first step of a handler that counts as its answer: what it says, or that it is lost. */
  ghost predicate FirstWord(c: Channel, rest: seq<Step>, i: int, h: nat) {
    0 <= i < |rest| && Speaks(c, rest[i], h) && forall j :: 0 <= j < i ==> !Speaks(c, rest[j], h)
  }

  predicate Speaks(c: Channel, step: Step, h: nat) {
    match c
    case OKs(id) =>
      step == Lost(h) ||
      (step.Response? && step.handler == h && step.msg.OKMsg? && step.msg.eventID == id)
    case Counts(sub) =>
      step == Lost(h) ||
      (step.Response? && step.handler == h && step.msg.CountMsg? && step.msg.sub == sub)
    case _ => false
  }

  lemma {:induction false} FirstWords(c: Channel, rest: seq<Step>, h: nat)
    requires c.OKs? || c.Counts?
    ensures First(c, h, rest).Some? <==> exists i :: FirstWord(c, rest, i, h)
    ensures forall i :: FirstWord(c, rest, i, h) ==> First(c, h, rest) == VerdictIn(c, h, rest[i])
  {
    if rest != [] {
      var n := |rest| - 1;
      FirstWords(c, rest[..n], h);
      forall i ensures i < n ==> (FirstWord(c, rest, i, h) <==> FirstWord(c, rest[..n], i, h))
               ensures FirstWord(c, rest[..n], i, h) ==> i < n
      {
        assert 0 <= i < n ==> rest[..n][i] == rest[i];
      }
      VerdictSpeaks(c, rest[n], h);
      if First(c, h, rest[..n]).Some? {
        var i :| FirstWord(c, rest[..n], i, h);
        assert FirstWord(c, rest, i, h);
        assert !FirstWord(c, rest, n, h);
      } else {
        NobodySpoke(c, rest[..n], h);
        assert forall j :: 0 <= j < n ==> !Speaks(c, rest[..n][j], h) && rest[..n][j] == rest[j];
        assert FirstWord(c, rest, n, h) <==> Speaks(c, rest[n], h);
      }
      hide Speaks, VerdictIn;
    }
  }

  lemma VerdictSpeaks(c: Channel, step: Step, h: nat)
    requires c.OKs? || c.Counts?
    ensures VerdictIn(c, h, step).Some? <==> Speaks(c, step, h)
  {
  }

  lemma {:induction false} NobodySpoke(c: Channel, rest: seq<Step>, h: nat)
    requires forall i :: !FirstWord(c, rest, i, h)
    ensures forall j :: 0 <= j < |rest| ==> !Speaks(c, rest[j], h)
  {
    hide Speaks;
    var k := 0;
    while k < |rest|
      invariant 0 <= k <= |rest| && forall j :: 0 <= j < k ==> !Speaks(c, rest[j], h)
    {
      assert !FirstWord(c, rest, k, h);
      k := k + 1;
    }
  }

  ghost predicate HasSpoken(c: Channel, rest: seq<Step>, h: nat) {
    exists i :: 0 <= i < |rest| && Speaks(c, rest[i], h)
  }

  /** Every handler has said something or is lost. */
  ghost predicate AllSpoke(n: nat, c: Channel, rest: seq<Step>) {
    n > 0 && forall h :: 0 <= h < n ==> HasSpoken(c, rest, h)
  }

  lemma AllHaveSpoken(n: nat, c: Channel, rest: seq<Step>)
    requires c.OKs? || c.Counts?
    ensures AllSpoke(n, c, rest) <==> AllIn(n, c, rest)
  {
    forall h: nat ensures First(c, h, rest).Some? <==> HasSpoken(c, rest, h) { SpokenFirst(c, rest, h); }
    hide First, HasSpoken;
  }

  lemma SpokenFirst(c: Channel, rest: seq<Step>, h: nat)
    requires c.OKs? || c.Counts?
    ensures First(c, h, rest).Some? <==> HasSpoken(c, rest, h)
  {
    FirstWords(c, rest, h);
    hide First, Speaks;
    if forall i :: !FirstWord(c, rest, i, h) {
      NobodySpoke(c, rest, h);
    }
  }

  /** The OK read off the handlers' first words: refused with a fixed message if one is lost, refused with
      the message of the last to refuse if one refuses, else accepted without message. */
  ghost predicate RightOK(n: nat, id: string, rest: seq<Step>, accepted: bool, message: string) {
    if exists h, i :: 0 <= h < n && FirstWord(OKs(id), rest, i, h) && rest[i].Lost?
    then !accepted && message == "error: a downstream handler is unavailable, please retry"
    else if exists i :: LastRefusal(n, id, rest, i)
    then !accepted && exists i :: LastRefusal(n, id, rest, i) && message == rest[i].msg.message
    else accepted && message == ""
  }

  ghost predicate Refusal(n: nat, id: string, rest: seq<Step>, i: int) {
    0 <= i < |rest| && rest[i].Response? && rest[i].handler < n && FirstWord(OKs(id), rest, i, rest[i].handler) &&
    rest[i].msg.OKMsg? && !rest[i].msg.accepted
  }

  ghost predicate LastRefusal(n: nat, id: string, rest: seq<Step>, i: int) {
    Refusal(n, id, rest, i) && forall j :: Refusal(n, id, rest, j) ==> j <= i
  }

  /** Once every handler has spoken the client gets one OK, the right one, and before that none. */
  lemma OKLaw(n: nat, id: string, before: seq<Step>, rest: seq<Step>)
    requires TraceWf(n, before) && TraceWf(n, rest) && StartEvent(id) !in rest
    ensures TraceWf(n, before + [StartEvent(id)] + rest)
    ensures var was, now := OKRun(n, id, None, before).1, OKRun(n, id, None, before + [StartEvent(id)] + rest).1;
            if AllSpoke(n, OKs(id), rest)
            then exists accepted, message ::
                   now == was + [OKMsg(id, accepted, message)] && RightOK(n, id, rest, accepted, message)
            else now == was
  {
    OneMergedOK(n, id, before, rest);
    AllHaveSpoken(n, OKs(id), rest);
    var was := OKRun(n, id, None, before).1;
    hide OKRun, AllIn, AllSpoke, RightOK, OKTracks, MergedOK;
    if AllSpoke(n, OKs(id), rest) {
      var m := MergedOK(n, id, rest);
      MergedIsRight(n, id, rest);
      assert RightOK(n, id, rest, m.accepted, m.message);
    }
    assert was + [] == was;
  }

  lemma MergedIsRight(n: nat, id: string, rest: seq<Step>)
    requires TraceWf(n, rest)
    ensures var m := MergedOK(n, id, rest); m.OKMsg? && m.eventID == id && RightOK(n, id, rest, m.accepted, m.message)
  {
    GoneIsLost(n, id, rest);
    RejectsIsRefusal(n, id, rest);
    ComplaintIsLast(n, id, rest);
    hide First, FirstWord, AnyGone, NoneRejects, Complaint, Refusal, TraceWf;
    if i :| Refusal(n, id, rest, i) {
      var last := FindLast(n, id, rest, i);
    }
  }

  /** What a first word is, and that it decides. */
  lemma WordDecides(c: Channel, rest: seq<Step>, i: int, h: nat)
    requires (c.OKs? || c.Counts?) && FirstWord(c, rest, i, h)
    ensures 0 <= i < |rest| && Speaks(c, rest[i], h) && First(c, h, rest) == VerdictIn(c, h, rest[i])
  {
    FirstWords(c, rest, h);
    hide First, VerdictIn;
  }

  lemma GoneIsLost(n: nat, id: string, rest: seq<Step>)
    ensures AnyGone(n, id, rest) <==>
              exists h, i :: 0 <= h < n && FirstWord(OKs(id), rest, i, h) && rest[i].Lost?
  {
    hide First;
    if h :| 0 <= h < n && First(OKs(id), h, rest) == Some(Gone) {
      FirstWords(OKs(id), rest, h);
      var i :| FirstWord(OKs(id), rest, i, h);
      WordDecides(OKs(id), rest, i, h);
      assert 0 <= h < n && FirstWord(OKs(id), rest, i, h) && rest[i].Lost?;
    }
    if h, i :| 0 <= h < n && FirstWord(OKs(id), rest, i, h) && rest[i].Lost? {
      WordDecides(OKs(id), rest, i, h);
      assert First(OKs(id), h, rest) == Some(Gone);
    }
  }

  lemma RejectsIsRefusal(n: nat, id: string, rest: seq<Step>)
    ensures NoneRejects(n, id, rest) <==> !exists i :: Refusal(n, id, rest, i)
  {
    hide First, FirstWord;
    if h :| 0 <= h < n && Rejects(First(OKs(id), h, rest)) {
      FirstWords(OKs(id), rest, h);
      var i :| FirstWord(OKs(id), rest, i, h);
      WordDecides(OKs(id), rest, i, h);
      assert Refusal(n, id, rest, i);
    }
    if i :| Refusal(n, id, rest, i) {
      WordDecides(OKs(id), rest, i, rest[i].handler);
      assert Rejects(First(OKs(id), rest[i].handler, rest));
    }
  }

  lemma FindLast(n: nat, id: string, rest: seq<Step>, i: int) returns (last: int)
    requires Refusal(n, id, rest, i)
    ensures LastRefusal(n, id, rest, last)
    decreases |rest| - i
  {
    if j :| Refusal(n, id, rest, j) && j > i {
      last := FindLast(n, id, rest, j);
    } else {
      last := i;
    }
  }

  lemma {:induction false} ComplaintIsLast(n: nat, id: string, rest: seq<Step>)
    requires TraceWf(n, rest)
    ensures forall i :: LastRefusal(n, id, rest, i) ==> Complaint(id, rest) == rest[i].msg.message
    ensures (forall i :: !Refusal(n, id, rest, i)) ==> Complaint(id, rest) == ""
  {
    if rest != [] {
      var k := |rest| - 1;
      ComplaintIsLast(n, id, rest[..k]);
      forall i ensures i < k ==> (Refusal(n, id, rest, i) <==> Refusal(n, id, rest[..k], i))
               ensures i >= k ==> !Refusal(n, id, rest[..k], i)
               ensures Refusal(n, id, rest, i) ==> i <= k
      {
        RefusalBefore(n, id, rest, i);
      }
      RefusalNow(n, id, rest);
      ComplaintSnoc(id, rest[..k], rest[k]);
      assert rest == rest[..k] + [rest[k]];
      hide Refusal, Complaint, First;
      if i :| LastRefusal(n, id, rest, i) && i < k {
        assert LastRefusal(n, id, rest[..k], i);
      }
    }
  }

  lemma RefusalBefore(n: nat, id: string, rest: seq<Step>, i: int)
    requires rest != []
    ensures var k := |rest| - 1;
            && (i < k ==> (Refusal(n, id, rest, i) <==> Refusal(n, id, rest[..k], i)))
            && (i >= k ==> !Refusal(n, id, rest[..k], i))
            && (Refusal(n, id, rest, i) ==> i <= k)
  {
    hide Speaks;
    var k := |rest| - 1;
    assert 0 <= i < k ==> rest[..k][i] == rest[i] && forall j :: 0 <= j < i ==> rest[..k][j] == rest[j];
  }

  lemma RefusalNow(n: nat, id: string, rest: seq<Step>)
    requires rest != [] && TraceWf(n, rest)
    ensures var k := |rest| - 1; var step := rest[k];
            Refusal(n, id, rest, k) <==>
              step.Response? && step.msg.OKMsg? && step.msg.eventID == id && !step.msg.accepted &&
              First(OKs(id), step.handler, rest[..k]).None?
  {
    var k := |rest| - 1;
    var step := rest[k];
    if step.Response? {
      FirstWords(OKs(id), rest[..k], step.handler);
      if First(OKs(id), step.handler, rest[..k]).None? {
        NobodySpoke(OKs(id), rest[..k], step.handler);
        assert forall j :: 0 <= j < k ==> rest[..k][j] == rest[j];
      } else {
        var i :| FirstWord(OKs(id), rest[..k], i, step.handler);
        assert rest[..k][i] == rest[i];
      }
    }
    hide First;
  }

  /** The number read off the handlers' first words: the largest, or zero. */
  ghost predicate RightCount(n: nat, sub: string, rest: seq<Step>, count: int) {
    && (forall h, i :: 0 <= h < n && FirstWord(Counts(sub), rest, i, h) && rest[i].Response? ==>
          CountOfMsg(rest[i].msg) <= count)
    && (count == 0 || exists h, i :: 0 <= h < n && FirstWord(Counts(sub), rest, i, h) && rest[i].Response? &&
                                     CountOfMsg(rest[i].msg) == count)
  }

  function CountOfMsg(m: ServerMsg): int {
    if m.CountMsg? then m.count else 0
  }

  lemma CountLaw(n: nat, sub: string, before: seq<Step>, rest: seq<Step>)
    requires TraceWf(n, before) && TraceWf(n, rest) && StartCount(sub) !in rest && Close(sub) !in rest
    ensures TraceWf(n, before + [StartCount(sub)] + rest)
    ensures var was := CountRun(n, sub, None, before).1;
            var now := CountRun(n, sub, None, before + [StartCount(sub)] + rest).1;
            if AllSpoke(n, Counts(sub), rest)
            then exists count: uint64 :: now == was + [CountMsg(sub, count)] && RightCount(n, sub, rest, count)
            else now == was
  {
    OneMergedCount(n, sub, before, rest);
    AllHaveSpoken(n, Counts(sub), rest);
    MaxIsRight(n, sub, rest);
    var was := CountRun(n, sub, None, before).1;
    hide CountRun, AllIn, AllSpoke, RightCount, CountTracks, MaxCount;
    assert was + [] == was;
  }

  lemma MaxIsRight(n: nat, sub: string, rest: seq<Step>)
    ensures RightCount(n, sub, rest, MaxCount(n, sub, rest))
  {
    forall h: nat ensures First(Counts(sub), h, rest).Some? <==> exists i :: FirstWord(Counts(sub), rest, i, h)
             ensures forall i :: FirstWord(Counts(sub), rest, i, h) ==>
                       First(Counts(sub), h, rest) == VerdictIn(Counts(sub), h, rest[i]) &&
                       Speaks(Counts(sub), rest[i], h)
    {
      FirstWords(Counts(sub), rest, h);
    }
    MaxCountIsMax(n, sub, rest);
    var m := MaxCount(n, sub, rest);
    hide First, FirstWord, MaxCount;
    forall h, i | 0 <= h < n && FirstWord(Counts(sub), rest, i, h) && rest[i].Response?
      ensures CountOfMsg(rest[i].msg) <= m
    {
      assert CountIn(First(Counts(sub), h, rest)) <= m;
    }
    if m != 0 {
      var h :| 0 <= h < n && First(Counts(sub), h, rest) == Some(Counted(m));
      var i :| FirstWord(Counts(sub), rest, i, h);
      assert rest[i].Response? && CountOfMsg(rest[i].msg) == m;
    }
  }

  /** CLOSED messages and those of other types are passed on one by one. */
  lemma OthersLaw(steps: seq<Step>, step: Step)
    ensures OthersOf([]) == []
    ensures OthersOf(steps + [step]) == OthersOf(steps) +
              if step.Response? && (step.msg.ClosedMsg? || step.msg.OtherMsg?) then [step.msg] else []
  {
    assert (steps + [step])[..|steps|] == steps;
  }
}
