/** The handler that answers clients from a storage. */
module StorageHandler {
  import opened Bytes
  import opened Events
  import opened Filters
  import opened StoreSpec
  import opened MemoryStorage
  import opened MergeSpec
  import opened MergeEpochs

  datatype ClientMsg =
    | ClientEvent(event: Option<Event>)
    | ClientReq(sub: string, filters: seq<Filter>)
    | ClientCount(sub: string, filters: seq<Filter>)
    | ClientClose(sub: string)

  /** What the storage sends for one REQ. */
  function StorageSends(sub: string, answer: seq<Event>): seq<ServerMsg> {
    EventMsgs(sub, answer) + [EOSEMsg(sub)]
  }

  /** What went out before the query's time was up, if it was: so many events, and a CLOSED. */
  function SentInTime(sub: string, answer: seq<Event>, timeout: Option<nat>): seq<ServerMsg> {
    match timeout
    case None => StorageSends(sub, answer)
    case Some(k) => EventMsgs(sub, answer[..if k < |answer| then k else |answer|]) + [TimedOut(sub)]
  }

  function TimedOut(sub: string): ServerMsg {
    ClosedMsg(sub, "error: query timeout")
  }

  function StoredOK(e: Event, stored: bool): ServerMsg {
    OKMsg(e.id, true, if stored then "" else "duplicate: already have this event")
  }

  /** One message handled: the right answer goes out, or as much of it as there is time for, and only
      an EVENT changes the storage. */
  ghost predicate Handled(s: State, msg: ClientMsg, timeout: Option<nat>, t: State, out: seq<ServerMsg>) {
    match msg
    case ClientEvent(None) => t == s && out == [OKMsg("", false, "error: no event provided")]
    case ClientEvent(Some(e)) => t == StoreSpec.Store(s, e).0 && out == [StoredOK(e, StoreSpec.Store(s, e).1)]
    case ClientReq(sub, filters) =>
      t == s &&
      if sub == "" then out == []
      else exists answer :: IsAnswer(s.live.Values, filters, answer) && out == SentInTime(sub, answer, timeout)
    case ClientCount(sub, filters) =>
      t == s &&
      if sub == "" then out == []
      else if timeout.Some? then out == [TimedOut(sub)]
      else exists answer :: IsAnswer(s.live.Values, filters, answer) && out == [CountMsg(sub, |answer| % TWO_64)]
    case ClientClose(_) => t == s && out == []
  }

  class StorageHandler {
    const storage: InMemoryStorage

    constructor (storage: InMemoryStorage)
      ensures this.storage == storage
    {
      this.storage := storage;
    }

    method HandleEvent(event: Option<Event>) returns (sent: seq<ServerMsg>)
      requires storage.Valid()
      modifies storage
      ensures storage.Valid()
      ensures forall timeout :: Handled(old(storage.State()), ClientEvent(event), timeout, storage.State(), sent)
    {
      match event {
        case None => sent := [OKMsg("", false, "error: no event provided")];
        case Some(e) =>
          var stored := storage.Store(e);
          if stored {
            sent := [OKMsg(e.id, true, "")];
          } else {
            sent := [OKMsg(e.id, true, "duplicate: already have this event")];
          }
      }
    }

    /** Every event of the answer in turn, then the EOSE; a CLOSED when the time is up before that. */
    method HandleReq(sub: string, filters: seq<Filter>, timeout: Option<nat>) returns (sent: seq<ServerMsg>)
      requires storage.Valid()
      ensures Handled(storage.State(), ClientReq(sub, filters), timeout, storage.State(), sent)
    {
      hide IsAnswer, InMemoryStorage.Valid, InMemoryStorage.State;
      sent := [];
      if sub == "" {
        return;
      }
      var answer := storage.Query(filters);
      var i := 0;
      while i < |answer| && timeout != Some(i)
        invariant 0 <= i <= |answer| && sent == EventMsgs(sub, answer[..i])
        invariant timeout.Some? ==> i <= timeout.value
      {
        EventMsgsSnoc(sub, answer[..i], answer[i]);
        assert answer[..i + 1] == answer[..i] + [answer[i]];
        sent := sent + [EventMsg(sub, answer[i])];
        i := i + 1;
      }
      if timeout.Some? {
        sent := sent + [TimedOut(sub)];
      } else {
        assert answer[..|answer|] == answer;
        sent := sent + [EOSEMsg(sub)];
      }
    }

    method HandleCount(sub: string, filters: seq<Filter>, timeout: Option<nat>) returns (sent: seq<ServerMsg>)
      requires storage.Valid()
      ensures Handled(storage.State(), ClientCount(sub, filters), timeout, storage.State(), sent)
    {
      hide IsAnswer, InMemoryStorage.Valid, InMemoryStorage.State;
      sent := [];
      if sub == "" {
        return;
      }
      var answer := storage.Query(filters);
      var i, count := 0, 0;
      while i < |answer| && timeout != Some(i)
        invariant 0 <= i <= |answer| && count == i % TWO_64
      {
        i, count := i + 1, (count + 1) % TWO_64;
      }
      if timeout.Some? {
        sent := [TimedOut(sub)];
      } else {
        sent := [CountMsg(sub, count)];
      }
    }

    method HandleMsg(msg: ClientMsg, timeout: Option<nat>) returns (sent: seq<ServerMsg>)
      requires storage.Valid()
      modifies storage
      ensures storage.Valid() && Handled(old(storage.State()), msg, timeout, storage.State(), sent)
    {
      hide Handled, InMemoryStorage.State;
      sent := [];
      match msg {
        case ClientEvent(event) => sent := HandleEvent(event);
        case ClientReq(sub, filters) => sent := HandleReq(sub, filters, timeout);
        case ClientCount(sub, filters) => sent := HandleCount(sub, filters, timeout);
        case ClientClose(sub) => CloseHandled(storage.State(), sub, timeout);
      }
    }

    /** Messages are handled one at a time, in order; `timeouts` says which queries run out of time. */
    method Serve(msgs: seq<ClientMsg>, timeouts: nat -> Option<nat>)
        returns (sent: seq<seq<ServerMsg>>, ghost states: seq<State>)
      requires storage.Valid()
      modifies storage
      ensures storage.Valid()
      ensures |sent| == |msgs| && |states| == |msgs| + 1
      ensures states[0] == old(storage.State()) && states[|msgs|] == storage.State()
      ensures forall i :: 0 <= i < |msgs| ==> Handled(states[i], msgs[i], timeouts(i), states[i + 1], sent[i])
    {
      sent, states := [], [storage.State()];
      hide Handled;
      for i := 0 to |msgs|
        invariant storage.Valid() && |sent| == i && |states| == i + 1
        invariant states[0] == old(storage.State()) && states[i] == storage.State()
        invariant forall k :: 0 <= k < i ==> Handled(states[k], msgs[k], timeouts(k), states[k + 1], sent[k])
      {
        var out := HandleMsg(msgs[i], timeouts(i));
        sent, states := sent + [out], states + [storage.State()];
      }
    }
  }

  lemma CloseHandled(s: State, sub: string, timeout: Option<nat>)
    ensures Handled(s, ClientClose(sub), timeout, s, [])
  {
  }

  /** Every event gets one OK with its id, accepted whether it was new or not, but with a message when
      it was not stored; a message without event gets a refusal. */
  lemma EventLaw(s: State, event: Option<Event>, timeout: Option<nat>, t: State, out: seq<ServerMsg>)
    requires Handled(s, ClientEvent(event), timeout, t, out)
    ensures |out| == 1 && out[0].OKMsg?
    ensures event.Some? ==>
              && out[0].eventID == event.value.id && out[0].accepted
              && t == StoreSpec.Store(s, event.value).0
              && (out[0].message == "" <==> StoreSpec.Store(s, event.value).1)
    ensures event.None? ==> t == s && out[0].eventID == "" && !out[0].accepted
  {
    hide StoreSpec.Store;
  }

  /** A REQ gets the events of the right answer one by one and the EOSE last. If time runs out after `k`
      events it gets a CLOSED instead of the rest. */
  lemma ReqLaw(s: State, sub: string, filters: seq<Filter>, timeout: Option<nat>, t: State, out: seq<ServerMsg>)
    requires Handled(s, ClientReq(sub, filters), timeout, t, out) && sub != ""
    ensures t == s && exists answer :: IsAnswer(s.live.Values, filters, answer) && RightReply(sub, answer, timeout, out)
  {
    hide IsAnswer;
    var answer :| IsAnswer(s.live.Values, filters, answer) && out == SentInTime(sub, answer, timeout);
    assert RightReply(sub, answer, timeout, out);
  }

  predicate RightReply(sub: string, answer: seq<Event>, timeout: Option<nat>, out: seq<ServerMsg>) {
    && 0 < |out| <= |answer| + 1
    && (timeout.None? ==> |out| == |answer| + 1)
    && (timeout.Some? ==> |out| == |answer| + 1 || |out| == timeout.value + 1)
    && (timeout.Some? && timeout.value <= |answer| ==> |out| == timeout.value + 1)
    && (forall i :: 0 <= i < |out| - 1 ==> out[i] == EventMsg(sub, answer[i]))
    && out[|out| - 1] == if timeout.None? then EOSEMsg(sub) else ClosedMsg(sub, "error: query timeout")
  }

  /** A COUNT gets the number of events of the right answer, or a CLOSED. */
  lemma CountLaw(s: State, sub: string, filters: seq<Filter>, timeout: Option<nat>, t: State, out: seq<ServerMsg>)
    requires Handled(s, ClientCount(sub, filters), timeout, t, out) && sub != ""
    ensures t == s && |out| == 1
    ensures timeout.None? ==>
              exists answer :: IsAnswer(s.live.Values, filters, answer) && RightCount(sub, answer, out[0])
    ensures timeout.Some? ==> out[0] == ClosedMsg(sub, "error: query timeout")
  {
    hide IsAnswer;
    if timeout.None? {
      var answer :| IsAnswer(s.live.Values, filters, answer) && out == [CountMsg(sub, |answer| % TWO_64)];
      assert RightCount(sub, answer, out[0]);
    }
  }

  predicate RightCount(sub: string, answer: seq<Event>, m: ServerMsg) {
    m.CountMsg? && m.sub == sub && (|answer| < TWO_64 ==> m.count == |answer|)
  }
}
