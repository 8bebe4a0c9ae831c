/** What merging the answers of several handlers means, one subscription or event id at a time. */
module MergeSpec {
  import opened Bytes
  import opened Events
  import opened Filters

  datatype ServerMsg =
    | OKMsg(eventID: string, accepted: bool, message: string)
    | EventMsg(sub: string, event: Event)
    | EOSEMsg(sub: string)
    | CountMsg(sub: string, count: uint64)
    | ClosedMsg(sub: string, message: string)
    | OtherMsg(text: string)

  /** Nothing is pending for these: they go on as they come. */
  predicate PassesThrough(m: ServerMsg) {
    m.ClosedMsg? || m.OtherMsg?
  }

  /** What a session reacts to: the client's requests, an answer of one handler, the loss of one. */
  datatype Step =
    | StartEvent(eventID: string)
    | StartReq(sub: string, filters: seq<Filter>)
    | StartCount(sub: string)
    | Close(sub: string)
    | Lost(handler: nat)
    | Response(msg: ServerMsg, handler: nat)

  const LOST_HANDLER_MESSAGE := "error: a downstream handler is unavailable, please retry"

  datatype PendingOK = PendingOK(
    received: nat, accepted: bool, message: string, responded: seq<bool>, hadLoss: bool)

  datatype PendingEOSE = PendingEOSE(
    received: nat, seen: set<string>, lastCreatedAt: int64, lastID: string, hasSent: bool,
    limit: int64, eventCount: nat, eoseSent: bool, done: seq<bool>)

  datatype PendingCount = PendingCount(received: nat, maxCount: uint64, responded: seq<bool>)

  function NoFlags(n: nat): (s: seq<bool>)
    ensures |s| == n && forall i :: 0 <= i < n ==> !s[i]
  {
    seq(n, _ => false)
  }

  function Trues(s: seq<bool>): (k: nat)
    ensures k <= |s|
  {
    if s == [] then 0 else Trues(s[..|s| - 1]) + if s[|s| - 1] then 1 else 0
  }

  lemma {:induction false} TruesSet(s: seq<bool>, h: nat)
    requires h < |s| && !s[h]
    ensures Trues(s[h := true]) == Trues(s) + 1
  {
    var t := s[h := true];
    if h == |s| - 1 {
      assert t[..|s| - 1] == s[..|s| - 1];
    } else {
      assert t[..|s| - 1] == s[..|s| - 1][h := true];
      TruesSet(s[..|s| - 1], h);
    }
  }

  lemma {:induction false} TruesAll(s: seq<bool>)
    ensures Trues(s) == |s| <==> forall i :: 0 <= i < |s| ==> s[i]
    ensures Trues(s) == 0 <==> forall i :: 0 <= i < |s| ==> !s[i]
  {
    if s != [] {
      TruesAll(s[..|s| - 1]);
      assert forall i :: 0 <= i < |s| - 1 ==> s[i] == s[..|s| - 1][i];
    }
  }

  // ---------- Channels ----------

  /** Messages about one event id, one subscription or one count request. */
  datatype Channel = OKs(id: string) | Req(sub: string) | Counts(sub: string) | Others

  function ChannelOf(m: ServerMsg): Channel {
    match m
    case OKMsg(id, _, _) => OKs(id)
    case EventMsg(sub, _) => Req(sub)
    case EOSEMsg(sub) => Req(sub)
    case CountMsg(sub, _) => Counts(sub)
    case ClosedMsg(_, _) => Others
    case OtherMsg(_) => Others
  }

  /** The messages of one channel, in order. */
  function On(c: Channel, out: seq<ServerMsg>): seq<ServerMsg> {
    if out == [] then []
    else
      var m := out[|out| - 1];
      On(c, out[..|out| - 1]) + if ChannelOf(m) == c then [m] else []
  }

  lemma {:induction false} OnAppend(c: Channel, a: seq<ServerMsg>, b: seq<ServerMsg>)
    ensures On(c, a + b) == On(c, a) + On(c, b)
  {
    if b == [] {
      assert a + b == a;
    } else {
      assert (a + b)[..|a + b| - 1] == a + b[..|b| - 1];
      OnAppend(c, a, b[..|b| - 1]);
    }
  }

  /** Messages that are the same on every channel are the same messages, up to order. */
  lemma {:induction false} SameOnChannels(a: seq<ServerMsg>, b: seq<ServerMsg>)
    requires forall c :: On(c, a) == On(c, b)
    ensures multiset(a) == multiset(b)
  {
    forall m ensures multiset(a)[m] == multiset(b)[m] {
      OnCounts(a, m);
      OnCounts(b, m);
      assert On(ChannelOf(m), a) == On(ChannelOf(m), b);
    }
  }

  lemma {:induction false} OnCounts(a: seq<ServerMsg>, m: ServerMsg)
    ensures multiset(On(ChannelOf(m), a))[m] == multiset(a)[m]
  {
    if a != [] {
      OnCounts(a[..|a| - 1], m);
      assert a == a[..|a| - 1] + [a[|a| - 1]];
    }
  }

  // ---------- One event id ----------

  predicate OKWf(n: nat, st: Option<PendingOK>) {
    st.Some? ==> |st.value.responded| == n
  }

  predicate StepWf(n: nat, step: Step) {
    match step
    case Lost(h) => h < n
    case Response(_, h) => h < n
    case _ => true
  }

  function FreshOK(n: nat): PendingOK {
    PendingOK(0, true, "", NoFlags(n), false)
  }

  function FinalOK(id: string, p: PendingOK): ServerMsg {
    if p.hadLoss then OKMsg(id, false, LOST_HANDLER_MESSAGE) else OKMsg(id, p.accepted, p.message)
  }

  /** One more handler accounted for. */
  function AdvanceOK(n: nat, id: string, p: PendingOK): (Option<PendingOK>, seq<ServerMsg>) {
    if p.received >= n then (None, [FinalOK(id, p)]) else (Some(p), [])
  }

  function OKStep(n: nat, id: string, st: Option<PendingOK>, step: Step): (Option<PendingOK>, seq<ServerMsg>)
    requires OKWf(n, st) && StepWf(n, step)
  {
    match step
    case StartEvent(x) => if x == id then (Some(FreshOK(n)), []) else (st, [])
    case Lost(h) =>
      if st.None? || st.value.responded[h] then (st, [])
      else
        var p := st.value;
        AdvanceOK(n, id, p.(responded := p.responded[h := true], received := p.received + 1, hadLoss := true))
    case Response(OKMsg(x, accepted, message), h) =>
      if x != id || st.None? || st.value.responded[h] then (st, [])
      else
        var p := st.value.(responded := st.value.responded[h := true], received := st.value.received + 1);
        AdvanceOK(n, id, if accepted then p else p.(accepted := false, message := message))
    case _ => (st, [])
  }

  // ---------- One count request ----------

  predicate CountWf(n: nat, st: Option<PendingCount>) {
    st.Some? ==> |st.value.responded| == n
  }

  function FreshCount(n: nat): PendingCount {
    PendingCount(0, 0, NoFlags(n))
  }

  function AdvanceCount(n: nat, sub: string, p: PendingCount, h: nat, count: uint64):
      (Option<PendingCount>, seq<ServerMsg>)
    requires |p.responded| == n && h < n
  {
    if p.responded[h] then (Some(p), [])
    else
      var q := PendingCount(p.received + 1, if count > p.maxCount then count else p.maxCount, p.responded[h := true]);
      if q.received >= n then (None, [CountMsg(sub, q.maxCount)]) else (Some(q), [])
  }

  function CountStep(n: nat, sub: string, st: Option<PendingCount>, step: Step): (Option<PendingCount>, seq<ServerMsg>)
    requires CountWf(n, st) && StepWf(n, step)
  {
    match step
    case StartCount(s) => if s == sub then (Some(FreshCount(n)), []) else (st, [])
    case Close(s) => (if s == sub then None else st, [])
    case Lost(h) => if st.None? then (st, []) else AdvanceCount(n, sub, st.value, h, 0)
    case Response(CountMsg(s, count), h) =>
      if s != sub || st.None? then (st, []) else AdvanceCount(n, sub, st.value, h, count)
    case _ => (st, [])
  }

  // ---------- One subscription ----------

  datatype ReqState = ReqState(pending: Option<PendingEOSE>, completed: bool)

  predicate ReqWf(n: nat, st: ReqState) {
    st.pending.Some? ==> |st.pending.value.done| == n
  }

  /** The limit of a REQ is the first filter's; zero means none here. */
  function ReqLimit(filters: seq<Filter>): int64 {
    if |filters| > 0 && filters[0].limit.Some? then filters[0].limit.value else 0
  }

  function AdvanceEOSE(n: nat, sub: string, st: ReqState, h: nat): (ReqState, seq<ServerMsg>)
    requires ReqWf(n, st) && st.pending.Some? && h < n
  {
    var p := st.pending.value;
    if p.eoseSent || p.done[h] then (st, [])
    else
      var q := p.(done := p.done[h := true], received := p.received + 1);
      if q.received >= n then (ReqState(None, true), [EOSEMsg(sub)]) else (ReqState(Some(q), st.completed), [])
  }

  predicate BreaksOrder(p: PendingEOSE, e: Event) {
    p.hasSent && (e.createdAt > p.lastCreatedAt || (e.createdAt == p.lastCreatedAt && StringLess(e.id, p.lastID)))
  }

  function Sent(p: PendingEOSE, e: Event): PendingEOSE {
    p.(seen := p.seen + {e.id}, lastCreatedAt := e.createdAt, lastID := e.id, hasSent := true,
       eventCount := p.eventCount + 1)
  }

  function OnEvent(n: nat, sub: string, st: ReqState, e: Event, h: nat): (ReqState, seq<ServerMsg>)
    requires ReqWf(n, st) && h < n
  {
    if st.completed then (st, [EventMsg(sub, e)])
    else if st.pending.None? || st.pending.value.eoseSent || e.id in st.pending.value.seen then (st, [])
    else
      var p := st.pending.value;
      if p.done[h] then (ReqState(Some(p.(seen := p.seen + {e.id})), false), [EventMsg(sub, e)])
      else if BreaksOrder(p, e) then (st, [])
      else if p.limit > 0 && p.eventCount + 1 >= p.limit then (ReqState(None, true), [EventMsg(sub, e), EOSEMsg(sub)])
      else (ReqState(Some(Sent(p, e)), false), [EventMsg(sub, e)])
  }

  function FreshEOSE(n: nat, limit: int64): PendingEOSE {
    PendingEOSE(0, {}, 0, "", false, limit, 0, false, NoFlags(n))
  }

  function ReqStep(n: nat, sub: string, st: ReqState, step: Step): (ReqState, seq<ServerMsg>)
    requires ReqWf(n, st) && StepWf(n, step)
  {
    match step
    case StartReq(s, filters) =>
      (if s == sub then ReqState(Some(FreshEOSE(n, ReqLimit(filters))), false) else st, [])
    case Close(s) => (if s == sub then ReqState(None, false) else st, [])
    case Lost(h) => if st.pending.None? then (st, []) else AdvanceEOSE(n, sub, st, h)
    case Response(EOSEMsg(s), h) =>
      if s != sub || st.completed || st.pending.None? then (st, []) else AdvanceEOSE(n, sub, st, h)
    case Response(EventMsg(s, e), h) => if s != sub then (st, []) else OnEvent(n, sub, st, e, h)
    case _ => (st, [])
  }

  // ---------- The whole session ----------

  datatype Session = Session(
    oks: map<string, PendingOK>, reqs: map<string, PendingEOSE>,
    counts: map<string, PendingCount>, completed: set<string>)

  function OKOf(s: Session, id: string): Option<PendingOK> {
    if id in s.oks then Some(s.oks[id]) else None
  }

  function ReqOf(s: Session, sub: string): ReqState {
    ReqState(if sub in s.reqs then Some(s.reqs[sub]) else None, sub in s.completed)
  }

  function CountOf(s: Session, sub: string): Option<PendingCount> {
    if sub in s.counts then Some(s.counts[sub]) else None
  }

  predicate FlagsFit(n: nat, received: nat, flags: seq<bool>) {
    |flags| == n && received == Trues(flags) && (n > 0 ==> received < n)
  }

  predicate OKInv(n: nat, st: Option<PendingOK>) {
    st.Some? ==> FlagsFit(n, st.value.received, st.value.responded)
  }

  predicate CountInv(n: nat, st: Option<PendingCount>) {
    st.Some? ==> FlagsFit(n, st.value.received, st.value.responded)
  }

  predicate ReqInv(n: nat, st: ReqState) {
    st.pending.Some? ==>
      FlagsFit(n, st.pending.value.received, st.pending.value.done) && !st.completed && !st.pending.value.eoseSent
  }

  /** Every pending entry counts its set flags and still waits for some handler; no subscription is
      both pending and completed; no entry in the map has sent its EOSE. */
  ghost predicate SessionInv(n: nat, s: Session) {
    && (forall id :: OKInv(n, OKOf(s, id)))
    && (forall sub :: ReqInv(n, ReqOf(s, sub)))
    && (forall sub :: CountInv(n, CountOf(s, sub)))
  }

  /** One step of the session: every channel takes its own step and nothing else happens. */
  ghost predicate Follows(n: nat, s: Session, step: Step, t: Session, out: seq<ServerMsg>)
    requires SessionInv(n, s) && StepWf(n, step)
  {
    && (forall id :: (OKOf(t, id), On(OKs(id), out)) == OKStep(n, id, OKOf(s, id), step))
    && (forall sub :: (ReqOf(t, sub), On(Req(sub), out)) == ReqStep(n, sub, ReqOf(s, sub), step))
    && (forall sub :: (CountOf(t, sub), On(Counts(sub), out)) == CountStep(n, sub, CountOf(s, sub), step))
    && On(Others, out) == if step.Response? && PassesThrough(step.msg) then [step.msg] else []
  }

  lemma OKStepKeeps(n: nat, id: string, st: Option<PendingOK>, step: Step)
    requires OKInv(n, st) && StepWf(n, step)
    ensures OKInv(n, OKStep(n, id, st, step).0)
  {
    TruesAll(NoFlags(n));
    if st.Some? && (step.Lost? || step.Response?) && !st.value.responded[step.handler] {
      TruesSet(st.value.responded, step.handler);
    }
  }

  lemma CountStepKeeps(n: nat, sub: string, st: Option<PendingCount>, step: Step)
    requires CountInv(n, st) && StepWf(n, step)
    ensures CountInv(n, CountStep(n, sub, st, step).0)
  {
    TruesAll(NoFlags(n));
    if st.Some? && (step.Lost? || step.Response?) && !st.value.responded[step.handler] {
      TruesSet(st.value.responded, step.handler);
    }
  }

  lemma ReqStepKeeps(n: nat, sub: string, st: ReqState, step: Step)
    requires ReqInv(n, st) && StepWf(n, step)
    ensures ReqInv(n, ReqStep(n, sub, st, step).0)
  {
    TruesAll(NoFlags(n));
    if st.pending.Some? && (step.Lost? || step.Response?) && !st.pending.value.done[step.handler] {
      TruesSet(st.pending.value.done, step.handler);
    }
  }

  /** The session invariant holds after every step of every trace. */
  lemma FollowsKeepsInv(n: nat, s: Session, step: Step, t: Session, out: seq<ServerMsg>)
    requires SessionInv(n, s) && StepWf(n, step) && Follows(n, s, step, t, out)
    ensures SessionInv(n, t)
  {
    hide OKStep, ReqStep, CountStep, OKInv, ReqInv, CountInv, OKOf, ReqOf, CountOf, On;
    forall id ensures OKInv(n, OKOf(t, id)) { OKStepKeeps(n, id, OKOf(s, id), step); }
    forall sub ensures ReqInv(n, ReqOf(t, sub)) { ReqStepKeeps(n, sub, ReqOf(s, sub), step); }
    forall sub ensures CountInv(n, CountOf(t, sub)) { CountStepKeeps(n, sub, CountOf(s, sub), step); }
  }

  /** A step leaves no choice but the order of its messages: whatever order the maps are visited
      in, the session ends the same and sends the same messages. */
  lemma StepIsDetermined(n: nat, s: Session, step: Step, t: Session, out: seq<ServerMsg>, t': Session,
        out': seq<ServerMsg>)
    requires SessionInv(n, s) && StepWf(n, step)
    requires Follows(n, s, step, t, out) && Follows(n, s, step, t', out')
    ensures t == t' && multiset(out) == multiset(out')
  {
    hide OKStep, ReqStep, CountStep, OKInv, ReqInv, CountInv, On;
    forall id ensures OKOf(t, id) == OKOf(t', id) {}
    forall sub ensures ReqOf(t, sub) == ReqOf(t', sub) && CountOf(t, sub) == CountOf(t', sub) {}
    SameViews(t, t');
    forall c ensures On(c, out) == On(c, out') {
      match c {
        case OKs(id) => assert OKOf(t, id) == OKOf(t', id);
        case Req(sub) => assert ReqOf(t, sub) == ReqOf(t', sub);
        case Counts(sub) => assert CountOf(t, sub) == CountOf(t', sub);
        case Others =>
      }
    }
    SameOnChannels(out, out');
  }

  lemma SameViews(t: Session, t': Session)
    requires forall id :: OKOf(t, id) == OKOf(t', id)
    requires forall sub :: ReqOf(t, sub) == ReqOf(t', sub) && CountOf(t, sub) == CountOf(t', sub)
    ensures t == t'
  {
    forall id ensures id in t.oks <==> id in t'.oks { assert OKOf(t, id) == OKOf(t', id); }
    forall id | id in t.oks ensures t.oks[id] == t'.oks[id] { assert OKOf(t, id) == OKOf(t', id); }
    forall sub ensures sub in t.reqs <==> sub in t'.reqs { assert ReqOf(t, sub) == ReqOf(t', sub); }
    forall sub | sub in t.reqs ensures t.reqs[sub] == t'.reqs[sub] { assert ReqOf(t, sub) == ReqOf(t', sub); }
    forall sub ensures sub in t.completed <==> sub in t'.completed { assert ReqOf(t, sub) == ReqOf(t', sub); }
    forall sub ensures sub in t.counts <==> sub in t'.counts { assert CountOf(t, sub) == CountOf(t', sub); }
    forall sub | sub in t.counts ensures t.counts[sub] == t'.counts[sub] { assert CountOf(t, sub) == CountOf(t', sub); }
  }
}
