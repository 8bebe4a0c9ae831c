/** Runs of a merge session, channel by channel, and the OK and COUNT guarantees over every run. */
module MergeRuns {
  import opened Bytes
  import opened Events
  import opened MergeSpec
  import opened MergeSession

  ghost predicate TraceWf(n: nat, steps: seq<Step>) {
    forall i :: 0 <= i < |steps| ==> StepWf(n, steps[i])
  }

  ghost function OKRun(n: nat, id: string, st: Option<PendingOK>, steps: seq<Step>):
      (r: (Option<PendingOK>, seq<ServerMsg>))
    requires OKInv(n, st) && TraceWf(n, steps)
    ensures OKInv(n, r.0)
  {
    if steps == [] then (st, [])
    else
      var before := OKRun(n, id, st, steps[..|steps| - 1]);
      OKStepKeeps(n, id, before.0, steps[|steps| - 1]);
      var step := OKStep(n, id, before.0, steps[|steps| - 1]);
      (step.0, before.1 + step.1)
  }

  ghost function CountRun(n: nat, sub: string, st: Option<PendingCount>, steps: seq<Step>):
      (r: (Option<PendingCount>, seq<ServerMsg>))
    requires CountInv(n, st) && TraceWf(n, steps)
    ensures CountInv(n, r.0)
  {
    if steps == [] then (st, [])
    else
      var before := CountRun(n, sub, st, steps[..|steps| - 1]);
      CountStepKeeps(n, sub, before.0, steps[|steps| - 1]);
      var step := CountStep(n, sub, before.0, steps[|steps| - 1]);
      (step.0, before.1 + step.1)
  }

  ghost function ReqRun(n: nat, sub: string, st: ReqState, steps: seq<Step>): (r: (ReqState, seq<ServerMsg>))
    requires ReqInv(n, st) && TraceWf(n, steps)
    ensures ReqInv(n, r.0)
  {
    if steps == [] then (st, [])
    else
      var before := ReqRun(n, sub, st, steps[..|steps| - 1]);
      ReqStepKeeps(n, sub, before.0, steps[|steps| - 1]);
      var step := ReqStep(n, sub, before.0, steps[|steps| - 1]);
      (step.0, before.1 + step.1)
  }

  const IDLE := ReqState(None, false)

  /** What handlers sent that is neither OK, EVENT, EOSE nor COUNT. */
  function OthersOf(steps: seq<Step>): seq<ServerMsg> {
    if steps == [] then []
    else
      var step := steps[|steps| - 1];
      OthersOf(steps[..|steps| - 1]) + if step.Response? && PassesThrough(step.msg) then [step.msg] else []
  }

  // ---------- The session over a whole run ----------

  /** A session that has made these steps and sent these messages. */
  ghost predicate Served(n: nat, steps: seq<Step>, s: Session, sent: seq<ServerMsg>)
    requires TraceWf(n, steps)
  {
    && (forall id :: (OKOf(s, id), On(OKs(id), sent)) == OKRun(n, id, None, steps))
    && (forall sub :: (ReqOf(s, sub), On(Req(sub), sent)) == ReqRun(n, sub, IDLE, steps))
    && (forall sub :: (CountOf(s, sub), On(Counts(sub), sent)) == CountRun(n, sub, None, steps))
    && On(Others, sent) == OthersOf(steps)
  }

  lemma ServedStep(n: nat, steps: seq<Step>, step: Step, s: Session, t: Session, sent: seq<ServerMsg>,
        out: seq<ServerMsg>)
    requires TraceWf(n, steps) && StepWf(n, step) && Served(n, steps, s, sent)
    requires SessionInv(n, s) && Follows(n, s, step, t, out)
    ensures TraceWf(n, steps + [step]) && Served(n, steps + [step], t, sent + out)
  {
    hide OKStep, ReqStep, CountStep, FlagsFit, OKOf, ReqOf, CountOf, On;
    var all := steps + [step];
    assert all[..|all| - 1] == steps && all[|all| - 1] == step;
    forall c ensures On(c, sent + out) == On(c, sent) + On(c, out) { OnAppend(c, sent, out); }
    forall id ensures (OKOf(t, id), On(OKs(id), sent + out)) == OKRun(n, id, None, all) {
      assert (OKOf(s, id), On(OKs(id), sent)) == OKRun(n, id, None, steps);
    }
    forall sub ensures (ReqOf(t, sub), On(Req(sub), sent + out)) == ReqRun(n, sub, IDLE, all) {
      assert (ReqOf(s, sub), On(Req(sub), sent)) == ReqRun(n, sub, IDLE, steps);
    }
    forall sub ensures (CountOf(t, sub), On(Counts(sub), sent + out)) == CountRun(n, sub, None, all) {
      assert (CountOf(s, sub), On(Counts(sub), sent)) == CountRun(n, sub, None, steps);
    }
  }

  /** The main loop of the merge handler over any sequence of choices of its select. */
  method Serve(n: nat, steps: seq<Step>) returns (sent: seq<ServerMsg>)
    requires TraceWf(n, steps)
    ensures exists s :: SessionInv(n, s) && Served(n, steps, s, sent)
  {
    hide Served, Follows, SessionInv;
    var session := new MergeSession(n);
    sent := [];
    ServedNothing(n);
    for i := 0 to |steps|
      invariant session.numHandlers == n && session.Valid()
      invariant TraceWf(n, steps[..i]) && Served(n, steps[..i], session.Value(), sent)
    {
      var results := [];
      ghost var before := session.Value();
      match steps[i] {
        case StartEvent(id) => session.StartEventResponse(id);
        case StartReq(sub, filters) => session.StartReqResponse(sub, filters);
        case StartCount(sub) => session.StartCountResponse(sub);
        case Close(sub) => session.CloseSubscription(sub);
        case Lost(h) => results := session.HandlerClosed(h);
        case Response(msg, h) => results := session.ProcessResponse(msg, h);
      }
      assert steps[..i + 1] == steps[..i] + [steps[i]];
      ServedStep(n, steps[..i], steps[i], before, session.Value(), sent, results);
      sent := sent + results;
    }
    assert steps[..|steps|] == steps;
  }

  lemma ServedNothing(n: nat)
    ensures Served(n, [], Session(map[], map[], map[], {}), [])
  {
  }

  // ---------- Verdicts ----------

  /** What one handler contributes to a merged OK or COUNT. */
  datatype Verdict = Answered(accepted: bool, message: string) | Counted(count: uint64) | Gone

  function VerdictIn(c: Channel, h: nat, step: Step): Option<Verdict> {
    match step
    case Lost(x) => if x == h then Some(Gone) else None
    case Response(OKMsg(id, accepted, message), x) =>
      if x == h && c == OKs(id) then Some(Answered(accepted, message)) else None
    case Response(CountMsg(sub, count), x) => if x == h && c == Counts(sub) then Some(Counted(count)) else None
    case _ => None
  }

  /** The first contribution of a handler: later ones are duplicates. */
  function First(c: Channel, h: nat, steps: seq<Step>): Option<Verdict> {
    if steps == [] then None
    else
      var before := First(c, h, steps[..|steps| - 1]);
      if before.Some? then before else VerdictIn(c, h, steps[|steps| - 1])
  }

  ghost predicate AllIn(n: nat, c: Channel, steps: seq<Step>) {
    n > 0 && forall h :: 0 <= h < n ==> First(c, h, steps).Some?
  }

  lemma FirstSnoc(c: Channel, h: nat, steps: seq<Step>, step: Step)
    ensures First(c, h, steps + [step]) ==
            if First(c, h, steps).Some? then First(c, h, steps) else VerdictIn(c, h, step)
  {
    assert (steps + [step])[..|steps|] == steps;
  }

  // ---------- OK ----------

  ghost predicate AnyGone(n: nat, id: string, steps: seq<Step>) {
    exists h :: 0 <= h < n && First(OKs(id), h, steps) == Some(Gone)
  }

  predicate Rejects(v: Option<Verdict>) {
    v.Some? && v.value.Answered? && !v.value.accepted
  }

  ghost predicate NoneRejects(n: nat, id: string, steps: seq<Step>) {
    forall h :: 0 <= h < n ==> !Rejects(First(OKs(id), h, steps))
  }

  /** The message of the handler that rejected last. */
  function Complaint(id: string, steps: seq<Step>): string {
    if steps == [] then ""
    else
      var rest, step := steps[..|steps| - 1], steps[|steps| - 1];
      if step.Response? && step.msg.OKMsg? && step.msg.eventID == id && !step.msg.accepted &&
         First(OKs(id), step.handler, rest).None?
      then step.msg.message
      else Complaint(id, rest)
  }

  /** The one OK the client gets: a lost handler forces a refusal with a fixed message; otherwise it
      is accepted exactly when every handler accepted. */
  ghost function MergedOK(n: nat, id: string, steps: seq<Step>): ServerMsg {
    if AnyGone(n, id, steps) then OKMsg(id, false, LOST_HANDLER_MESSAGE)
    else OKMsg(id, NoneRejects(n, id, steps), Complaint(id, steps))
  }

  ghost predicate OKTracks(n: nat, id: string, steps: seq<Step>, st: Option<PendingOK>) {
    st.Some? && OKInv(n, st) &&
    var p := st.value;
    && (forall h :: 0 <= h < n ==> (p.responded[h] <==> First(OKs(id), h, steps).Some?))
    && (p.hadLoss <==> AnyGone(n, id, steps))
    && (p.accepted <==> NoneRejects(n, id, steps))
    && p.message == Complaint(id, steps)
  }

  lemma OKTracksFresh(n: nat, id: string)
    ensures OKTracks(n, id, [], Some(FreshOK(n)))
  {
    TruesAll(NoFlags(n));
  }

  /** One more step of a pending OK. */
  lemma OKTracksStep(n: nat, id: string, steps: seq<Step>, st: Option<PendingOK>, step: Step)
    requires OKTracks(n, id, steps, st) && !AllIn(n, OKs(id), steps) && StepWf(n, step) && step != StartEvent(id)
    ensures var r := OKStep(n, id, st, step);
            if AllIn(n, OKs(id), steps + [step]) then r == (None, [MergedOK(n, id, steps + [step])])
            else OKTracks(n, id, steps + [step], r.0) && r.1 == []
  {
    hide First, Complaint, Trues, AnyGone, NoneRejects, NoFlags;
    var all := steps + [step];
    ComplaintSnoc(id, steps, step);
    forall h ensures First(OKs(id), h, all) ==
                     if First(OKs(id), h, steps).Some? then First(OKs(id), h, steps) else VerdictIn(OKs(id), h, step)
    {
      FirstSnoc(OKs(id), h, steps, step);
    }
    var p := st.value;
    if (step.Lost? || (step.Response? && step.msg.OKMsg? && step.msg.eventID == id)) && !p.responded[step.handler] {
      OKVerdictArrives(n, id, steps, all, step.handler);
      OKVerdictCounts(n, id, steps, st, step);
    } else {
      OKVerdictAbsent(n, id, steps, all);
    }
  }

  lemma ComplaintSnoc(id: string, steps: seq<Step>, step: Step)
    ensures Complaint(id, steps + [step]) ==
            if step.Response? && step.msg.OKMsg? && step.msg.eventID == id && !step.msg.accepted &&
               First(OKs(id), step.handler, steps).None?
            then step.msg.message else Complaint(id, steps)
  {
    assert (steps + [step])[..|steps|] == steps;
  }

  lemma OKVerdictAbsent(n: nat, id: string, steps: seq<Step>, all: seq<Step>)
    requires forall h :: 0 <= h < n ==> First(OKs(id), h, all) == First(OKs(id), h, steps)
    ensures AnyGone(n, id, all) <==> AnyGone(n, id, steps)
    ensures NoneRejects(n, id, all) <==> NoneRejects(n, id, steps)
    ensures AllIn(n, OKs(id), all) <==> AllIn(n, OKs(id), steps)
  {
    hide First;
  }

  /** The counter reaches the number of handlers exactly when the last verdict arrives. */
  lemma OKVerdictCounts(n: nat, id: string, steps: seq<Step>, st: Option<PendingOK>, step: Step)
    requires OKTracks(n, id, steps, st) && (step.Lost? || step.Response?) && StepWf(n, step)
    requires !st.value.responded[step.handler] && VerdictIn(OKs(id), step.handler, step).Some?
    ensures var flags := st.value.responded[step.handler := true];
            && Trues(flags) == st.value.received + 1
            && (st.value.received + 1 >= n <==> AllIn(n, OKs(id), steps + [step]))
            && forall h :: 0 <= h < n ==> (flags[h] <==> First(OKs(id), h, steps + [step]).Some?)
  {
    var flags := st.value.responded[step.handler := true];
    TruesSet(st.value.responded, step.handler);
    TruesAll(flags);
    hide Trues;
    forall h | 0 <= h < n ensures flags[h] <==> First(OKs(id), h, steps + [step]).Some? {
      FirstSnoc(OKs(id), h, steps, step);
    }
    hide First, VerdictIn;
  }

  /** What changes when the first verdict of handler `x` arrives. */
  lemma OKVerdictArrives(n: nat, id: string, steps: seq<Step>, all: seq<Step>, x: nat)
    requires x < n && First(OKs(id), x, steps).None?
    requires forall h :: 0 <= h < n && h != x ==> First(OKs(id), h, all) == First(OKs(id), h, steps)
    ensures AnyGone(n, id, all) <==> AnyGone(n, id, steps) || First(OKs(id), x, all) == Some(Gone)
    ensures NoneRejects(n, id, all) <==> NoneRejects(n, id, steps) && !Rejects(First(OKs(id), x, all))
  {
    hide First;
  }

  lemma OKDoneStays(n: nat, id: string, steps: seq<Step>, step: Step)
    requires AllIn(n, OKs(id), steps) && StepWf(n, step)
    ensures AllIn(n, OKs(id), steps + [step]) && MergedOK(n, id, steps + [step]) == MergedOK(n, id, steps)
  {
    var all := steps + [step];
    assert all[..|all| - 1] == steps;
    forall h | 0 <= h < n ensures First(OKs(id), h, all) == First(OKs(id), h, steps) {
      FirstSnoc(OKs(id), h, steps, step);
    }
    hide First;
  }

  /** From registering an event on, until it is registered again, the client gets one OK for it if
      every handler answers or is lost, none before, and never a second. */
  lemma {:induction false} OneMergedOK(n: nat, id: string, before: seq<Step>, rest: seq<Step>)
    requires TraceWf(n, before) && TraceWf(n, rest) && StartEvent(id) !in rest
    ensures TraceWf(n, before + [StartEvent(id)] + rest)
    ensures var r := OKRun(n, id, None, before + [StartEvent(id)] + rest);
            && r.1 == OKRun(n, id, None, before).1 + (if AllIn(n, OKs(id), rest) then [MergedOK(n, id, rest)] else [])
            && if AllIn(n, OKs(id), rest) then r.0 == None else OKTracks(n, id, rest, r.0)
  {
    hide AllIn, MergedOK, OKTracks, FlagsFit, OKStep;
    var start := before + [StartEvent(id)];
    var out := OKRun(n, id, None, before).1;
    assert start[..|before|] == before;
    if rest == [] {
      OKTracksFresh(n, id);
      OKStepStart(n, id, OKRun(n, id, None, before).0);
      AllInNothing(n, OKs(id));
      assert start + rest == start && out + [] == out;
    } else {
      var most, step := rest[..|rest| - 1], rest[|rest| - 1];
      assert rest == most + [step] && (start + rest)[..|start + rest| - 1] == start + most;
      OneMergedOK(n, id, before, most);
      var r := OKRun(n, id, None, start + most);
      if AllIn(n, OKs(id), most) {
        OKDoneStays(n, id, most, step);
        OKStepIdle(n, id, step);
        assert r.1 + [] == r.1;
      } else {
        OKTracksStep(n, id, most, r.0, step);
        assert r.1 == out && out + [] == out;
      }
    }
  }

  lemma OKStepStart(n: nat, id: string, st: Option<PendingOK>)
    requires OKInv(n, st)
    ensures OKStep(n, id, st, StartEvent(id)) == (Some(FreshOK(n)), [])
  {
  }

  lemma OKStepIdle(n: nat, id: string, step: Step)
    requires StepWf(n, step) && step != StartEvent(id)
    ensures OKStep(n, id, None, step) == (None, [])
  {
  }

  lemma AllInNothing(n: nat, c: Channel)
    ensures !AllIn(n, c, [])
  {
    assert n > 0 ==> First(c, 0, []).None?;
  }

  /** The message of a refusal is the message of some handler that refused. */
  lemma {:induction false} ComplaintIsARefusal(n: nat, id: string, steps: seq<Step>)
    requires TraceWf(n, steps)
    ensures NoneRejects(n, id, steps) ==> Complaint(id, steps) == ""
    ensures !NoneRejects(n, id, steps) ==>
              exists h :: 0 <= h < n && First(OKs(id), h, steps) == Some(Answered(false, Complaint(id, steps)))
  {
    if steps != [] {
      var before, step := steps[..|steps| - 1], steps[|steps| - 1];
      assert steps == before + [step];
      ComplaintIsARefusal(n, id, before);
      forall h ensures First(OKs(id), h, steps) ==
                       if First(OKs(id), h, before).Some? then First(OKs(id), h, before)
                        else VerdictIn(OKs(id), h, step)
      {
        FirstSnoc(OKs(id), h, before, step);
      }
      ComplaintSnoc(id, before, step);
      hide First, Complaint;
      if !NoneRejects(n, id, before) {
        var h :| 0 <= h < n && First(OKs(id), h, before) == Some(Answered(false, Complaint(id, before)));
        assert First(OKs(id), h, steps) == First(OKs(id), h, before);
      }
      if step.Response? && step.msg.OKMsg? && step.msg.eventID == id && !step.msg.accepted &&
         First(OKs(id), step.handler, before).None?
      {
        assert First(OKs(id), step.handler, steps) == Some(Answered(false, Complaint(id, steps)));
      }
    }
  }

  // ---------- COUNT ----------

  function CountIn(v: Option<Verdict>): uint64 {
    if v.Some? && v.value.Counted? then v.value.count else 0
  }

  /** The largest count among the first `k` handlers' answers. */
  function MaxCount(k: nat, sub: string, steps: seq<Step>): uint64 {
    if k == 0 then 0
    else
      var rest, last := MaxCount(k - 1, sub, steps), CountIn(First(Counts(sub), k - 1, steps));
      if last > rest then last else rest
  }

  lemma {:induction false} MaxCountIsMax(k: nat, sub: string, steps: seq<Step>)
    ensures forall h :: 0 <= h < k ==> CountIn(First(Counts(sub), h, steps)) <= MaxCount(k, sub, steps)
    ensures MaxCount(k, sub, steps) == 0 ||
            exists h :: 0 <= h < k && First(Counts(sub), h, steps) == Some(Counted(MaxCount(k, sub, steps)))
  {
    hide First;
    if k > 0 {
      MaxCountIsMax(k - 1, sub, steps);
      var m := MaxCount(k, sub, steps);
      if m != MaxCount(k - 1, sub, steps) {
        var h: nat := k - 1;
        assert 0 <= h < k && First(Counts(sub), h, steps) == Some(Counted(m));
        assert exists h :: 0 <= h < k && First(Counts(sub), h, steps) == Some(Counted(m));
      } else if m != 0 {
        var h :| 0 <= h < k - 1 && First(Counts(sub), h, steps) == Some(Counted(m));
      }
    }
  }

  /** Only handler `x` has a new verdict. */
  ghost predicate OnlyNew(n: nat, c: Channel, x: nat, steps: seq<Step>, all: seq<Step>) {
    forall h :: 0 <= h < n && h != x ==> First(c, h, all) == First(c, h, steps)
  }

  lemma {:induction false} MaxCountArrives(n: nat, k: nat, sub: string, steps: seq<Step>, all: seq<Step>, x: nat)
    requires k <= n && First(Counts(sub), x, steps).None? && OnlyNew(n, Counts(sub), x, steps, all)
    ensures var count := CountIn(First(Counts(sub), x, all));
            MaxCount(k, sub, all) ==
            if x < k && count > MaxCount(k, sub, steps) then count else MaxCount(k, sub, steps)
  {
    hide First;
    if k > 0 {
      MaxCountArrives(n, k - 1, sub, steps, all, x);
    }
  }

  lemma {:induction false} MaxCountSame(n: nat, k: nat, sub: string, steps: seq<Step>, all: seq<Step>)
    requires k <= n && forall h :: 0 <= h < n ==> First(Counts(sub), h, all) == First(Counts(sub), h, steps)
    ensures MaxCount(k, sub, all) == MaxCount(k, sub, steps)
  {
    hide First;
    if k > 0 {
      MaxCountSame(n, k - 1, sub, steps, all);
    }
  }

  ghost predicate CountTracks(n: nat, sub: string, steps: seq<Step>, st: Option<PendingCount>) {
    st.Some? && CountInv(n, st) &&
    (forall h :: 0 <= h < n ==> (st.value.responded[h] <==> First(Counts(sub), h, steps).Some?)) &&
    st.value.maxCount == MaxCount(n, sub, steps)
  }

  lemma CountTracksStep(n: nat, sub: string, steps: seq<Step>, st: Option<PendingCount>, step: Step)
    requires CountTracks(n, sub, steps, st) && !AllIn(n, Counts(sub), steps) && StepWf(n, step)
    requires step != StartCount(sub) && step != Close(sub)
    ensures var r := CountStep(n, sub, st, step);
            if AllIn(n, Counts(sub), steps + [step]) then r == (None, [CountMsg(sub, MaxCount(n, sub, steps + [step]))])
            else CountTracks(n, sub, steps + [step], r.0) && r.1 == []
  {
    hide First, Trues, MaxCount, NoFlags;
    var all := steps + [step];
    forall h ensures First(Counts(sub), h, all) ==
                     if First(Counts(sub), h, steps).Some? then First(Counts(sub), h, steps)
                      else VerdictIn(Counts(sub), h, step)
    {
      FirstSnoc(Counts(sub), h, steps, step);
    }
    if (step.Lost? || (step.Response? && step.msg.CountMsg? && step.msg.sub == sub)) &&
       !st.value.responded[step.handler]
    {
      CountVerdictCounts(n, sub, steps, st, step);
      MaxCountArrives(n, n, sub, steps, all, step.handler);
    } else {
      MaxCountSame(n, n, sub, steps, all);
      assert AllIn(n, Counts(sub), all) <==> AllIn(n, Counts(sub), steps);
    }
  }

  lemma CountVerdictCounts(n: nat, sub: string, steps: seq<Step>, st: Option<PendingCount>, step: Step)
    requires CountTracks(n, sub, steps, st) && (step.Lost? || step.Response?) && StepWf(n, step)
    requires !st.value.responded[step.handler] && VerdictIn(Counts(sub), step.handler, step).Some?
    ensures var flags := st.value.responded[step.handler := true];
            && Trues(flags) == st.value.received + 1
            && (st.value.received + 1 >= n <==> AllIn(n, Counts(sub), steps + [step]))
            && forall h :: 0 <= h < n ==> (flags[h] <==> First(Counts(sub), h, steps + [step]).Some?)
  {
    var flags := st.value.responded[step.handler := true];
    TruesSet(st.value.responded, step.handler);
    TruesAll(flags);
    hide Trues;
    forall h | 0 <= h < n ensures flags[h] <==> First(Counts(sub), h, steps + [step]).Some? {
      FirstSnoc(Counts(sub), h, steps, step);
    }
    hide First, VerdictIn;
  }

  lemma CountDoneStays(n: nat, sub: string, steps: seq<Step>, step: Step)
    requires AllIn(n, Counts(sub), steps)
    ensures AllIn(n, Counts(sub), steps + [step]) && MaxCount(n, sub, steps + [step]) == MaxCount(n, sub, steps)
  {
    forall h | 0 <= h < n ensures First(Counts(sub), h, steps + [step]) == First(Counts(sub), h, steps) {
      FirstSnoc(Counts(sub), h, steps, step);
    }
    hide First;
    MaxCountSame(n, n, sub, steps, steps + [step]);
  }

  /** From a COUNT request on, until the next or a CLOSE, the client gets the largest count once
      every handler has answered or is lost, nothing before and nothing after. */
  lemma {:induction false} OneMergedCount(n: nat, sub: string, before: seq<Step>, rest: seq<Step>)
    requires TraceWf(n, before) && TraceWf(n, rest) && StartCount(sub) !in rest && Close(sub) !in rest
    ensures TraceWf(n, before + [StartCount(sub)] + rest)
    ensures var r := CountRun(n, sub, None, before + [StartCount(sub)] + rest);
            && r.1 == CountRun(n, sub, None, before).1 +
                      (if AllIn(n, Counts(sub), rest) then [CountMsg(sub, MaxCount(n, sub, rest))] else [])
            && if AllIn(n, Counts(sub), rest) then r.0 == None else CountTracks(n, sub, rest, r.0)
  {
    hide AllIn, CountTracks, FlagsFit, CountStep, MaxCount;
    var start := before + [StartCount(sub)];
    var out := CountRun(n, sub, None, before).1;
    assert start[..|before|] == before;
    if rest == [] {
      CountTracksFresh(n, sub, CountRun(n, sub, None, before).0);
      AllInNothing(n, Counts(sub));
      assert start + rest == start && out + [] == out;
    } else {
      var most, step := rest[..|rest| - 1], rest[|rest| - 1];
      assert rest == most + [step] && (start + rest)[..|start + rest| - 1] == start + most;
      OneMergedCount(n, sub, before, most);
      var r := CountRun(n, sub, None, start + most);
      if AllIn(n, Counts(sub), most) {
        CountDoneStays(n, sub, most, step);
        CountStepIdle(n, sub, step);
        assert r.1 + [] == r.1;
      } else {
        CountTracksStep(n, sub, most, r.0, step);
        assert r.1 == out && out + [] == out;
      }
    }
  }

  lemma CountTracksFresh(n: nat, sub: string, st: Option<PendingCount>)
    requires CountInv(n, st)
    ensures CountStep(n, sub, st, StartCount(sub)) == (Some(FreshCount(n)), [])
    ensures CountTracks(n, sub, [], Some(FreshCount(n)))
  {
    TruesAll(NoFlags(n));
    MaxCountIsMax(n, sub, []);
    forall h ensures First(Counts(sub), h, []).None? {}
  }

  lemma CountStepIdle(n: nat, sub: string, step: Step)
    requires StepWf(n, step) && step != StartCount(sub)
    ensures CountStep(n, sub, None, step) == (None, [])
  {
  }

  // ---------- CLOSE ----------

  /** After a CLOSE nothing more is sent for the subscription until it is requested again, whatever
      the handlers send. */
  lemma {:induction false} SilentAfterClose(n: nat, sub: string, before: seq<Step>, rest: seq<Step>)
    requires TraceWf(n, before) && TraceWf(n, rest)
    requires forall i :: 0 <= i < |rest| ==> rest[i] != StartCount(sub) && !(rest[i].StartReq? && rest[i].sub == sub)
    ensures TraceWf(n, before + [Close(sub)] + rest)
    ensures CountRun(n, sub, None, before + [Close(sub)] + rest) == (None, CountRun(n, sub, None, before).1)
    ensures ReqRun(n, sub, IDLE, before + [Close(sub)] + rest) == (IDLE, ReqRun(n, sub, IDLE, before).1)
  {
    hide FlagsFit, OnEvent, AdvanceEOSE, AdvanceCount;
    var closed := before + [Close(sub)];
    assert closed[..|before|] == before;
    var out, counts := ReqRun(n, sub, IDLE, before).1, CountRun(n, sub, None, before).1;
    assert out + [] == out && counts + [] == counts;
    if rest == [] {
      assert closed + rest == closed;
    } else {
      var most, step := rest[..|rest| - 1], rest[|rest| - 1];
      assert (closed + rest)[..|closed + rest| - 1] == closed + most;
      SilentAfterClose(n, sub, before, most);
      CountStepIdle(n, sub, step);
      ReqStepIdle(n, sub, step);
    }
  }

  lemma ReqStepIdle(n: nat, sub: string, step: Step)
    requires StepWf(n, step) && !(step.StartReq? && step.sub == sub)
    ensures ReqStep(n, sub, IDLE, step) == (IDLE, [])
  {
  }
}
