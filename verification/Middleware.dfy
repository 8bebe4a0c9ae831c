/** Simple middlewares in one pipeline: composition, and conservation of messages in its loop. */
module Middleware {
  import opened Events
  import opened MergeSpec
  import opened StorageHandler

  /** One middleware with its own state. A handler that returns nothing at all has failed, which ends
      the connection. */
  datatype Base<!S> = Base(
    handleClientMsg: (S, ClientMsg) -> Option<(S, Option<ClientMsg>, Option<ServerMsg>)>,
    handleServerMsg: (S, ServerMsg) -> Option<(S, Option<ServerMsg>)>)

  function AsSeq<T>(o: Option<T>): seq<T> {
    match o
    case None => []
    case Some(x) => [x]
  }

  /** A server message on its way out, innermost base first. */
  function ServerPass<S>(bases: seq<Base<S>>, st: seq<S>, msg: ServerMsg): (r: Option<(seq<S>, Option<ServerMsg>)>)
    requires |st| == |bases|
    ensures r.Some? ==> |r.value.0| == |bases|
  {
    if bases == [] then Some(([], Some(msg)))
    else
      var k := |bases| - 1;
      match bases[k].handleServerMsg(st[k], msg)
      case None => None
      case Some((s, None)) => Some((st[..k] + [s], None))
      case Some((s, Some(m))) =>
        match ServerPass(bases[..k], st[..k], m)
        case None => None
        case Some((rest, out)) => Some((rest + [s], out))
  }

  /** Several server messages, one after the other. */
  function Up<S>(bases: seq<Base<S>>, st: seq<S>, msgs: seq<ServerMsg>): (r: Option<(seq<S>, seq<ServerMsg>)>)
    requires |st| == |bases|
    ensures r.Some? ==> |r.value.0| == |bases|
  {
    if msgs == [] then Some((st, []))
    else
      match Up(bases, st, msgs[..|msgs| - 1])
      case None => None
      case Some((before, out)) =>
        match ServerPass(bases, before, msgs[|msgs| - 1])
        case None => None
        case Some((after, last)) => Some((after, out + AsSeq(last)))
  }

  /** The states afterwards, what goes downstream, and the replies to the client; nothing if a base
      has failed. */
  type Passed<S> = Option<(seq<S>, Option<ClientMsg>, seq<ServerMsg>)>

  /** What the rest has done, seen through the base around it. */
  function Around<S>(x: Base<S>, s: S, reply: Option<ServerMsg>, r: Passed<S>): (q: Passed<S>)
    ensures q.Some? ==> r.Some? && |q.value.0| == 1 + |r.value.0|
  {
    match r
    case None => None
    case Some((inner, out, replies)) =>
      match Up([x], [s], replies)
      case None => None
      case Some((outer, up)) => Some((outer + inner, out, AsSeq(reply) + up))
  }

  /** A client message on its way in, as nested middlewares handle it: the outermost base passes it on
      to the rest, and whatever the rest replies comes back through it. */
  function ClientPass<S>(bases: seq<Base<S>>, st: seq<S>, msg: ClientMsg): (r: Passed<S>)
    requires |st| == |bases|
    ensures r.Some? ==> |r.value.0| == |bases|
  {
    if bases == [] then Some(([], Some(msg), []))
    else
      match bases[0].handleClientMsg(st[0], msg)
      case None => None
      case Some((s, None, reply)) => Some(([s] + st[1..], None, AsSeq(reply)))
      case Some((s, Some(m), reply)) =>
        Around(bases[0], s, reply, ClientPass(bases[1..], st[1..], m))
  }

  // ---------- Composition ----------

  /** The result of `b` inside `a`, for server messages. */
  function ServerNested<S>(a: seq<Base<S>>, b: seq<Base<S>>, sa: seq<S>, sb: seq<S>, msg: ServerMsg):
      Option<(seq<S>, Option<ServerMsg>)>
    requires |sa| == |a| && |sb| == |b|
  {
    match ServerPass(b, sb, msg)
    case None => None
    case Some((sb', None)) => Some((sa + sb', None))
    case Some((sb', Some(m))) =>
      match ServerPass(a, sa, m)
      case None => None
      case Some((sa', out)) => Some((sa' + sb', out))
  }

  /** The result of `b` inside `a`, for several server messages: first all of them through `b`. */
  function UpNested<S>(a: seq<Base<S>>, b: seq<Base<S>>, sa: seq<S>, sb: seq<S>, msgs: seq<ServerMsg>):
      Option<(seq<S>, seq<ServerMsg>)>
    requires |sa| == |a| && |sb| == |b|
  {
    match Up(b, sb, msgs)
    case None => None
    case Some((sb', out)) =>
      match Up(a, sa, out)
      case None => None
      case Some((sa', out')) => Some((sa' + sb', out'))
  }

  /** The result of `b` inside `a`, for a client message: `b` handles what `a` has let through, and
      its replies come back through `a`. */
  function Inside<S>(a: seq<Base<S>>, r: Passed<S>, b: seq<Base<S>>, sb: seq<S>): Passed<S>
    requires (r.Some? ==> |r.value.0| == |a|) && |sb| == |b|
  {
    match r
    case None => None
    case Some((sa', None, replies)) => Some((sa' + sb, None, replies))
    case Some((sa', Some(m), replies)) =>
      match ClientPass(b, sb, m)
      case None => None
      case Some((sb', out, inner)) =>
        Joined(sb', out, replies, Up(a, sa', inner))
  }

  function Joined<S>(sb: seq<S>, out: Option<ClientMsg>, replies: seq<ServerMsg>, up: Option<(seq<S>, seq<ServerMsg>)>):
      Passed<S> {
    match up
    case None => None
    case Some((sa, more)) => Some((sa + sb, out, replies + more))
  }

  lemma {:induction false} ServerComposition<S>(a: seq<Base<S>>, b: seq<Base<S>>, sa: seq<S>, sb: seq<S>,
        msg: ServerMsg)
    requires |sa| == |a| && |sb| == |b|
    ensures ServerPass(a + b, sa + sb, msg) == ServerNested(a, b, sa, sb, msg)
  {
    if b == [] {
      assert a + b == a && sa + sb == sa;
      assert ServerPass(b, sb, msg) == Some(([], Some(msg)));
      match ServerPass(a, sa, msg) {
        case None =>
        case Some((sa', out)) => assert sa' + [] == sa';
      }
    } else {
      var k := |b| - 1;
      assert (a + b)[..|a + b| - 1] == a + b[..k] && (sa + sb)[..|a + b| - 1] == sa + sb[..k];
      match b[k].handleServerMsg(sb[k], msg) {
        case None =>
        case Some((s, None)) =>
          assert (sa + sb[..k]) + [s] == sa + (sb[..k] + [s]);
        case Some((s, Some(m))) =>
          ServerComposition(a, b[..k], sa, sb[..k], m);
          match ServerPass(b[..k], sb[..k], m) {
            case None =>
            case Some((sb', None)) => assert (sa + sb') + [s] == sa + (sb' + [s]);
            case Some((sb', Some(m'))) =>
              match ServerPass(a, sa, m') {
                case None =>
                case Some((sa', out)) => assert (sa' + sb') + [s] == sa' + (sb' + [s]);
              }
          }
      }
    }
  }

  lemma UpSnoc<S>(bases: seq<Base<S>>, st: seq<S>, msgs: seq<ServerMsg>, m: ServerMsg)
    requires |st| == |bases|
    ensures Up(bases, st, msgs + [m]) ==
            match Up(bases, st, msgs)
            case None => None
            case Some((before, out)) =>
              match ServerPass(bases, before, m)
              case None => None
              case Some((after, last)) => Some((after, out + AsSeq(last)))
  {
    assert (msgs + [m])[..|msgs|] == msgs;
  }

  lemma {:induction false} UpConcat<S>(bases: seq<Base<S>>, st: seq<S>, x: seq<ServerMsg>, y: seq<ServerMsg>)
    requires |st| == |bases|
    ensures Up(bases, st, x + y) ==
            match Up(bases, st, x)
            case None => None
            case Some((st', out)) =>
              match Up(bases, st', y)
              case None => None
              case Some((st'', out')) => Some((st'', out + out'))
  {
    if y == [] {
      assert x + y == x;
      assert forall o: seq<ServerMsg> :: o + [] == o;
    } else {
      var most, last := y[..|y| - 1], y[|y| - 1];
      assert x + y == (x + most) + [last] && y == most + [last];
      UpConcat(bases, st, x, most);
      UpSnoc(bases, st, x + most, last);
      forall o: seq<ServerMsg>, p: seq<ServerMsg>, q: seq<ServerMsg> ensures (o + p) + q == o + (p + q) {}
    }
  }

  /** Sending messages out one by one through everything is sending all through the inner bases first:
      the states of inner and outer bases do not meet. */
  lemma {:induction false} UpComposition<S>(a: seq<Base<S>>, b: seq<Base<S>>, sa: seq<S>, sb: seq<S>,
        msgs: seq<ServerMsg>)
    requires |sa| == |a| && |sb| == |b|
    ensures Up(a + b, sa + sb, msgs) == UpNested(a, b, sa, sb, msgs)
  {
    if msgs != [] {
      var most, last := msgs[..|msgs| - 1], msgs[|msgs| - 1];
      assert msgs == most + [last];
      UpComposition(a, b, sa, sb, most);
      UpSnoc(b, sb, most, last);
      match Up(b, sb, most) {
        case None =>
        case Some((sb', out)) =>
          match ServerPass(b, sb', last) {
            case None =>
            case Some((sb'', o)) =>
              UpConcat(a, sa, out, AsSeq(o));
          }
          match Up(a, sa, out) {
            case None =>
            case Some((sa', out')) => ServerComposition(a, b, sa', sb', last);
          }
      }
    }
  }

  lemma {:induction false} UpThroughNothing<S>(msgs: seq<ServerMsg>)
    ensures Up<S>([], [], msgs) == Some(([], msgs))
  {
    if msgs != [] {
      UpThroughNothing<S>(msgs[..|msgs| - 1]);
      assert msgs == msgs[..|msgs| - 1] + [msgs[|msgs| - 1]];
    }
  }

  /** One pass through the pipeline of `a + b` passes the same message downstream, sends the client
      the same replies in the same order and leaves the same states as `a` wrapped around `b`, and it
      fails exactly when that fails. */
  lemma {:induction false} ClientComposition<S>(a: seq<Base<S>>, b: seq<Base<S>>, sa: seq<S>, sb: seq<S>,
        msg: ClientMsg)
    requires |sa| == |a| && |sb| == |b|
    ensures ClientPass(a + b, sa + sb, msg) == Inside(a, ClientPass(a, sa, msg), b, sb)
  {
    if a == [] {
      assert a + b == b && sa + sb == sb;
      match ClientPass(b, sb, msg) {
        case None =>
        case Some((sb', out, inner)) =>
          UpThroughNothing<S>(inner);
          assert [] + sb' == sb' && [] + inner == inner;
      }
    } else {
      var x, rest := a[0], a[1..];
      assert (a + b)[0] == x && (a + b)[1..] == rest + b;
      assert (sa + sb)[0] == sa[0] && (sa + sb)[1..] == sa[1..] + sb;
      match x.handleClientMsg(sa[0], msg) {
        case None =>
        case Some((s, None, reply)) => assert [s] + (sa[1..] + sb) == ([s] + sa[1..]) + sb;
        case Some((s, Some(m), reply)) =>
          ClientComposition(rest, b, sa[1..], sb, m);
          AroundInside(x, s, reply, rest, ClientPass(rest, sa[1..], m), b, sb);
          assert [x] + rest == a;
      }
    }
  }

  /** The replies of `b` through the rest and then the outermost base, or through both in turn. */
  lemma AroundInside<S>(x: Base<S>, s: S, reply: Option<ServerMsg>, rest: seq<Base<S>>, r: Passed<S>, b: seq<Base<S>>,
        sb: seq<S>)
    requires (r.Some? ==> |r.value.0| == |rest|) && |sb| == |b|
    ensures Around(x, s, reply, Inside(rest, r, b, sb)) == Inside([x] + rest, Around(x, s, reply, r), b, sb)
  {
    hide ClientPass;
    match r {
      case None =>
      case Some((inner, None, replies)) =>
        match Up([x], [s], replies) {
          case None =>
          case Some((outer, up)) => assert outer + (inner + sb) == (outer + inner) + sb;
        }
      case Some((inner, Some(m), replies)) =>
        match ClientPass(b, sb, m) {
          case None =>
          case Some((sb', out, more)) => RepliesMeet(x, s, reply, rest, inner, replies, sb', out, more);
        }
    }
  }

  lemma RepliesMeet<S>(x: Base<S>, s: S, reply: Option<ServerMsg>, rest: seq<Base<S>>, inner: seq<S>,
      replies: seq<ServerMsg>, sb: seq<S>, out: Option<ClientMsg>, more: seq<ServerMsg>)
    requires |inner| == |rest|
    ensures Around(x, s, reply, Joined(sb, out, replies, Up(rest, inner, more))) ==
            var u := Up([x], [s], replies);
            if u.None? then None else Joined(sb, out, AsSeq(reply) + u.value.1, Up([x] + rest, u.value.0 + inner, more))
  {
    hide Up, ServerPass, AsSeq;
    match Up(rest, inner, more) {
      case None =>
        match Up([x], [s], replies) {
          case None =>
          case Some((outer, up)) => UpComposition([x], rest, outer, inner, more);
        }
      case Some((inner', through)) =>
        UpConcat([x], [s], replies, through);
        match Up([x], [s], replies) {
          case None =>
          case Some((outer, up)) =>
            UpComposition([x], rest, outer, inner, more);
            match Up([x], outer, through) {
              case None =>
              case Some((outer', up')) =>
                assert outer' + (inner' + sb) == (outer' + inner') + sb;
                assert AsSeq(reply) + (up + up') == AsSeq(reply) + up + up';
            }
        }
    }
  }

  // ---------- One pass, step by step ----------

  lemma ClientOne<S>(x: Base<S>, s: S, msg: ClientMsg)
    ensures ClientPass([x], [s], msg) ==
            match x.handleClientMsg(s, msg)
            case None => None
            case Some((s', out, reply)) => Some(([s'], out, AsSeq(reply)))
  {
    match x.handleClientMsg(s, msg) {
      case None =>
      case Some((s', None, reply)) => assert [s'] + [s][1..] == [s'];
      case Some((s', Some(m), reply)) =>
        assert ClientPass([x][1..], [s][1..], m) == Some(([], Some(m), []));
        assert [s'] + [] == [s'] && AsSeq(reply) + [] == AsSeq(reply);
    }
  }

  lemma UpOne<S>(bases: seq<Base<S>>, st: seq<S>, reply: Option<ServerMsg>)
    requires |st| == |bases|
    ensures Up(bases, st, AsSeq(reply)) ==
            if reply.None? then Some((st, []))
            else
              match ServerPass(bases, st, reply.value)
              case None => None
              case Some((st', last)) => Some((st', AsSeq(last)))
  {
    assert Up(bases, st, []) == Some((st, []));
    if reply.Some? {
      assert AsSeq(reply) == [] + [reply.value];
      UpSnoc(bases, st, [], reply.value);
      hide Up;
      match ServerPass(bases, st, reply.value) {
        case None =>
        case Some((st', last)) => assert [] + AsSeq(last) == AsSeq(last);
      }
    }
  }

  /** One more base: it handles what the outer ones have let through, and its reply goes out through
      them at once. */
  lemma ClientPassNext<S>(bases: seq<Base<S>>, st: seq<S>, i: nat, msg: ClientMsg, before: seq<S>, m: ClientMsg,
        replies: seq<ServerMsg>)
    requires |st| == |bases| && i < |bases|
    requires ClientPass(bases[..i], st[..i], msg) == Some((before, Some(m), replies))
    ensures ClientPass(bases[..i + 1], st[..i + 1], msg) ==
            var x := bases[i].handleClientMsg(st[i], m);
            if x.None? then None else Joined([x.value.0], x.value.1, replies, Up(bases[..i], before, AsSeq(x.value.2)))
  {
    assert bases[..i + 1] == bases[..i] + [bases[i]] && st[..i + 1] == st[..i] + [st[i]];
    ClientComposition(bases[..i], [bases[i]], st[..i], [st[i]], msg);
    ClientOne(bases[i], st[i], m);
  }

  /** The states of inner bases added to a result. */
  function Widened<S>(r: Option<(seq<S>, Option<ServerMsg>)>, inner: seq<S>): Option<(seq<S>, Option<ServerMsg>)> {
    match r
    case None => None
    case Some((st, out)) => Some((st + inner, out))
  }

  lemma WidenedByNothing<S>(r: Option<(seq<S>, Option<ServerMsg>)>)
    ensures Widened(r, []) == r
  {
    match r {
      case None =>
      case Some((st, _)) => assert st + [] == st;
    }
  }

  lemma ServerPassNothing<S>(bases: seq<Base<S>>, st: seq<S>, msg: ServerMsg, inner: seq<S>)
    requires |bases| == 0 == |st|
    ensures Widened(ServerPass(bases, st, msg), inner) == Some((inner, Some(msg)))
  {
    assert [] + inner == inner;
  }

  lemma ServerPassNext<S>(bases: seq<Base<S>>, st: seq<S>, j: nat, msg: ServerMsg, inner: seq<S>)
    requires |st| == |bases| && 0 < j <= |bases|
    ensures Widened(ServerPass(bases[..j], st[..j], msg), inner) ==
            var x := bases[j - 1].handleServerMsg(st[j - 1], msg);
            if x.None? then None
            else if x.value.1.None? then Some((st[..j - 1] + ([x.value.0] + inner), None))
            else Widened(ServerPass(bases[..j - 1], st[..j - 1], x.value.1.value), [x.value.0] + inner)
  {
    var k := j - 1;
    assert bases[..j][..k] == bases[..k] && st[..j][..k] == st[..k];
    match bases[k].handleServerMsg(st[k], msg) {
      case None =>
      case Some((s, None)) => assert (st[..k] + [s]) + inner == st[..k] + ([s] + inner);
      case Some((s, Some(m))) =>
        match ServerPass(bases[..k], st[..k], m) {
          case None =>
          case Some((rest, _)) => assert (rest + [s]) + inner == rest + ([s] + inner);
        }
    }
  }

  // ---------- The loop ----------

  /** What one select of the loop may choose. Sending is offered only while something is queued, and
      receiving only until the client's channel is closed. */
  datatype Choice =
    | Receive(client: ClientMsg) | ReceiveClosed | HandlerSends(server: ServerMsg) | HandlerFinished
    | PassDown | PassUp | Canceled

  datatype Input = FromClient(client: ClientMsg) | FromHandler(server: ServerMsg)

  datatype Exit = Drained | Finished | Cancellation | Failure | StillRunning

  /** The messages taken in: none from the client once its channel is closed. */
  function Taken(choices: seq<Choice>): seq<Input> {
    if choices == [] then []
    else
      var before := choices[..|choices| - 1];
      Taken(before) +
      match choices[|choices| - 1]
      case Receive(m) => if ReceiveClosed in before then [] else [FromClient(m)]
      case HandlerSends(m) => [FromHandler(m)]
      case _ => []
  }

  /** What the pipeline makes of one message: the states, what goes downstream, what to the client. */
  function TakeIn<S>(bases: seq<Base<S>>, st: seq<S>, input: Input):
      (r: Option<(seq<S>, seq<ClientMsg>, seq<ServerMsg>)>)
    requires |st| == |bases|
    ensures r.Some? ==> |r.value.0| == |bases|
  {
    match input
    case FromClient(m) =>
      var r := ClientPass(bases, st, m);
      if r.None? then None else Some((r.value.0, AsSeq(r.value.1), r.value.2))
    case FromHandler(m) =>
      var r := ServerPass(bases, st, m);
      if r.None? then None else Some((r.value.0, [], AsSeq(r.value.1)))
  }

  /** What the pipeline makes of its inputs: the states, everything for downstream, everything for the
      client. */
  function Produced<S>(bases: seq<Base<S>>, st: seq<S>, inputs: seq<Input>):
      (r: Option<(seq<S>, seq<ClientMsg>, seq<ServerMsg>)>)
    requires |st| == |bases|
    ensures r.Some? ==> |r.value.0| == |bases|
  {
    if inputs == [] then Some((st, [], []))
    else
      match Produced(bases, st, inputs[..|inputs| - 1])
      case None => None
      case Some((before, down, up)) =>
        var r := TakeIn(bases, before, inputs[|inputs| - 1]);
        if r.None? then None else Some((r.value.0, down + r.value.1, up + r.value.2))
  }

  lemma TakenSnoc(choices: seq<Choice>, c: Choice)
    ensures Taken(choices + [c]) == Taken(choices) +
            match c
            case Receive(m) => if ReceiveClosed in choices then [] else [FromClient(m)]
            case HandlerSends(m) => [FromHandler(m)]
            case _ => []
  {
    assert (choices + [c])[..|choices|] == choices;
  }

  lemma ProducedSnoc<S>(bases: seq<Base<S>>, st: seq<S>, inputs: seq<Input>, input: Input,
      before: seq<S>, down: seq<ClientMsg>, up: seq<ServerMsg>)
    requires |st| == |bases| && Produced(bases, st, inputs) == Some((before, down, up))
    ensures Produced(bases, st, inputs + [input]) ==
            var r := TakeIn(bases, before, input);
            if r.None? then None else Some((r.value.0, down + r.value.1, up + r.value.2))
  {
    assert (inputs + [input])[..|inputs|] == inputs;
  }

  /** How many of the messages for downstream have been sent on: each time sending is chosen the next
      one, if there is one. */
  function DownSent<S>(bases: seq<Base<S>>, st: seq<S>, choices: seq<Choice>): nat
    requires |st| == |bases|
  {
    if choices == [] then 0
    else
      var before := choices[..|choices| - 1];
      var n, r := DownSent(bases, st, before), Produced(bases, st, Taken(before));
      if choices[|choices| - 1] == PassDown && r.Some? && n < |r.value.1| then n + 1 else n
  }

  function UpSent<S>(bases: seq<Base<S>>, st: seq<S>, choices: seq<Choice>): nat
    requires |st| == |bases|
  {
    if choices == [] then 0
    else
      var before := choices[..|choices| - 1];
      var n, r := UpSent(bases, st, before), Produced(bases, st, Taken(before));
      if choices[|choices| - 1] == PassUp && r.Some? && n < |r.value.2| then n + 1 else n
  }

  lemma SentSnoc<S>(bases: seq<Base<S>>, st: seq<S>, choices: seq<Choice>, c: Choice)
    requires |st| == |bases|
    ensures DownSent(bases, st, choices + [c]) ==
            var n, r := DownSent(bases, st, choices), Produced(bases, st, Taken(choices));
            if c == PassDown && r.Some? && n < |r.value.1| then n + 1 else n
    ensures UpSent(bases, st, choices + [c]) ==
            var n, r := UpSent(bases, st, choices), Produced(bases, st, Taken(choices));
            if c == PassUp && r.Some? && n < |r.value.2| then n + 1 else n
  {
    hide Produced, Taken;
    assert (choices + [c])[..|choices|] == choices;
  }

  lemma NothingSent<S>(bases: seq<Base<S>>, st: seq<S>, choices: seq<Choice>)
    requires |st| == |bases| && choices == []
    ensures DownSent(bases, st, choices) == 0 == UpSent(bases, st, choices)
  {
  }

  // ---------- Laws of the loop ----------

  lemma ServerOne<S>(x: Base<S>, s: S, msg: ServerMsg)
    ensures ServerPass([x], [s], msg) ==
            match x.handleServerMsg(s, msg)
            case None => None
            case Some((s', out)) => Some(([s'], out))
  {
    match x.handleServerMsg(s, msg) {
      case None =>
      case Some((s', None)) => assert [s][..0] + [s'] == [s'];
      case Some((s', Some(m))) =>
        assert ServerPass([x][..0], [s][..0], m) == Some(([], Some(m)));
        assert [] + [s'] == [s'];
    }
  }

  /** One more message from the client, while its channel is open: what it makes the pipeline pass on
      goes downstream, and its replies to the client, after everything before. */
  lemma ClientMessageLaw<S>(bases: seq<Base<S>>, st: seq<S>, choices: seq<Choice>, m: ClientMsg)
    requires |st| == |bases| && ReceiveClosed !in choices && Produced(bases, st, Taken(choices)).Some?
    ensures var (now, down, up) := Produced(bases, st, Taken(choices)).value;
            var r := ClientPass(bases, now, m);
            Produced(bases, st, Taken(choices + [Receive(m)])) ==
            if r.None? then None
            else Some((r.value.0, if r.value.1.Some? then down + [r.value.1.value] else down, up + r.value.2))
  {
    hide ClientPass, ServerPass, Taken, Produced;
    var (now, down, up) := Produced(bases, st, Taken(choices)).value;
    TakenSnoc(choices, Receive(m));
    ProducedSnoc(bases, st, Taken(choices), FromClient(m), now, down, up);
    assert down + [] == down;
  }

  /** One more message from the handler: what comes out of the pipeline goes to the client, after
      everything before. */
  lemma HandlerMessageLaw<S>(bases: seq<Base<S>>, st: seq<S>, choices: seq<Choice>, m: ServerMsg)
    requires |st| == |bases| && Produced(bases, st, Taken(choices)).Some?
    ensures var (now, down, up) := Produced(bases, st, Taken(choices)).value;
            var r := ServerPass(bases, now, m);
            Produced(bases, st, Taken(choices + [HandlerSends(m)])) ==
            if r.None? then None
            else Some((r.value.0, down, if r.value.1.Some? then up + [r.value.1.value] else up))
  {
    hide ClientPass, ServerPass, Taken, Produced;
    var (now, down, up) := Produced(bases, st, Taken(choices)).value;
    TakenSnoc(choices, HandlerSends(m));
    ProducedSnoc(bases, st, Taken(choices), FromHandler(m), now, down, up);
    assert down + [] == down && up + [] == up;
  }

  /** No other choice produces anything, nor does a client message once the channel is closed. */
  lemma OtherChoiceLaw<S>(bases: seq<Base<S>>, st: seq<S>, choices: seq<Choice>, c: Choice)
    requires |st| == |bases| && !c.HandlerSends? && (c.Receive? ==> ReceiveClosed in choices)
    ensures Produced(bases, st, Taken(choices + [c])) == Produced(bases, st, Taken(choices))
    ensures Produced(bases, st, Taken([])) == Some((st, [], []))
  {
    hide ClientPass, ServerPass, Taken;
    TakenSnoc(choices, c);
    TakenNothing([]);
    assert Taken(choices) + [] == Taken(choices);
  }

  /** Bases that let every message pass unchanged and reply nothing. */
  ghost predicate Transparent<S(!new)>(bases: seq<Base<S>>) {
    forall i, s :: 0 <= i < |bases| ==> LetsThrough(bases[i], s)
  }

  ghost predicate LetsThrough<S(!new)>(x: Base<S>, s: S) {
    && (forall m :: x.handleClientMsg(s, m).Some? && x.handleClientMsg(s, m).value.1 == Some(m) &&
                    x.handleClientMsg(s, m).value.2 == None)
    && (forall m :: x.handleServerMsg(s, m).Some? && x.handleServerMsg(s, m).value.1 == Some(m))
  }

  /** The client's messages up to the closing of its channel. */
  function ClientMessages(choices: seq<Choice>): seq<ClientMsg> {
    if choices == [] || choices[0] == ReceiveClosed then []
    else (if choices[0].Receive? then [choices[0].client] else []) + ClientMessages(choices[1..])
  }

  function HandlerMessages(choices: seq<Choice>): seq<ServerMsg> {
    if choices == [] then []
    else (if choices[0].HandlerSends? then [choices[0].server] else []) + HandlerMessages(choices[1..])
  }

  lemma {:induction false} MessagesSnoc(choices: seq<Choice>, c: Choice)
    ensures ClientMessages(choices + [c]) ==
            ClientMessages(choices) + if c.Receive? && ReceiveClosed !in choices then [c.client] else []
    ensures HandlerMessages(choices + [c]) ==
            HandlerMessages(choices) + if c.HandlerSends? then [c.server] else []
  {
    var all := choices + [c];
    if choices == [] {
      assert all == [c] && all[1..] == [];
    } else {
      assert all[1..] == choices[1..] + [c] && all[0] == choices[0];
      MessagesSnoc(choices[1..], c);
      assert ReceiveClosed in choices <==> choices[0] == ReceiveClosed || ReceiveClosed in choices[1..];
    }
  }

  lemma {:induction false} ServerThrough<S(!new)>(bases: seq<Base<S>>, st: seq<S>, m: ServerMsg)
    requires |st| == |bases| && Transparent(bases)
    ensures ServerPass(bases, st, m).Some? && ServerPass(bases, st, m).value.1 == Some(m)
  {
    if bases != [] {
      var k := |bases| - 1;
      assert LetsThrough(bases[k], st[k]);
      assert Transparent(bases[..k]);
      ServerThrough(bases[..k], st[..k], m);
    }
  }

  lemma {:induction false} ClientThrough<S(!new)>(bases: seq<Base<S>>, st: seq<S>, m: ClientMsg)
    requires |st| == |bases| && Transparent(bases)
    ensures ClientPass(bases, st, m).Some? && ClientPass(bases, st, m).value.1 == Some(m)
    ensures ClientPass(bases, st, m).value.2 == []
  {
    if bases != [] {
      assert LetsThrough(bases[0], st[0]);
      assert forall i :: 0 <= i < |bases| - 1 ==> bases[1..][i] == bases[i + 1];
      assert Transparent(bases[1..]);
      ClientThrough(bases[1..], st[1..], m);
    }
  }

  /** Through such bases everything the client sends goes downstream, and everything the handler sends to
      the client, in order. */
  lemma {:induction false} TransparentLaw<S(!new)>(bases: seq<Base<S>>, st: seq<S>, choices: seq<Choice>)
    requires |st| == |bases| && Transparent(bases)
    ensures var r := Produced(bases, st, Taken(choices));
            r.Some? && r.value.1 == ClientMessages(choices) && r.value.2 == HandlerMessages(choices)
  {
    hide Taken, Produced, ClientPass, ServerPass, Transparent;
    if choices == [] {
      OtherChoiceLaw(bases, st, [], ReceiveClosed);
    } else {
      var most, c := choices[..|choices| - 1], choices[|choices| - 1];
      assert choices == most + [c];
      TransparentLaw(bases, st, most);
      MessagesSnoc(most, c);
      var now := Produced(bases, st, Taken(most)).value.0;
      if c.Receive? && ReceiveClosed !in most {
        ClientMessageLaw(bases, st, most, c.client);
        ClientThrough(bases, now, c.client);
      } else if c.HandlerSends? {
        HandlerMessageLaw(bases, st, most, c.server);
        ServerThrough(bases, now, c.server);
      } else {
        OtherChoiceLaw(bases, st, most, c);
      }
      hide ClientMessages, HandlerMessages;
    }
  }

  function Passes(c: Choice, j: nat): (s: seq<Choice>)
    ensures |s| == j && forall i :: 0 <= i < j ==> s[i] == c
  {
    seq(j, _ => c)
  }

  /** Choosing to send as often as something is queued sends all of it. */
  lemma {:induction false} DrainLaw<S>(bases: seq<Base<S>>, st: seq<S>, choices: seq<Choice>, j: nat)
    requires |st| == |bases| && Produced(bases, st, Taken(choices)).Some?
    requires DownSent(bases, st, choices) <= |Produced(bases, st, Taken(choices)).value.1|
    requires UpSent(bases, st, choices) <= |Produced(bases, st, Taken(choices)).value.2|
    ensures var (_, down, up) := Produced(bases, st, Taken(choices)).value;
            var n, m := DownSent(bases, st, choices), UpSent(bases, st, choices);
            && DownSent(bases, st, choices + Passes(PassDown, j)) == (if n + j <= |down| then n + j else |down|)
            && UpSent(bases, st, choices + Passes(PassUp, j)) == (if m + j <= |up| then m + j else |up|)
            && Produced(bases, st, Taken(choices + Passes(PassDown, j))) == Produced(bases, st, Taken(choices))
            && Produced(bases, st, Taken(choices + Passes(PassUp, j))) == Produced(bases, st, Taken(choices))
  {
    hide Taken, Produced, DownSent, UpSent;
    if j == 0 {
      assert choices + Passes(PassDown, 0) == choices == choices + Passes(PassUp, 0);
    } else {
      DrainLaw(bases, st, choices, j - 1);
      var d, u := choices + Passes(PassDown, j - 1), choices + Passes(PassUp, j - 1);
      assert choices + Passes(PassDown, j) == d + [PassDown] && choices + Passes(PassUp, j) == u + [PassUp];
      SentSnoc(bases, st, d, PassDown);
      SentSnoc(bases, st, u, PassUp);
      OtherChoiceLaw(bases, st, d, PassDown);
      OtherChoiceLaw(bases, st, u, PassUp);
    }
  }

  class Pipeline<S> {
    const bases: seq<Base<S>>
    var states: seq<S>

    ghost predicate Valid()
      reads this
    {
      |states| == |bases|
    }

    constructor (bases: seq<Base<S>>, states: seq<S>)
      requires |states| == |bases|
      ensures Valid() && this.bases == bases && this.states == states
    {
      this.bases, this.states := bases, states;
    }

    /** A server message out through the `i` outermost bases, innermost of them first. */
    method HandleServerMsg(i: nat, msg: ServerMsg) returns (failed: bool, out: Option<ServerMsg>)
      requires Valid() && i <= |bases|
      modifies this
      ensures Valid() && states[i..] == old(states)[i..]
      ensures ServerPass(bases[..i], old(states)[..i], msg) == if failed then None else Some((states[..i], out))
    {
      hide ServerPass, Widened;
      ghost var st := states;
      var j := i;
      failed, out := false, Some(msg);
      assert states[j..i] == [];
      WidenedByNothing(ServerPass(bases[..i], st[..i], msg));
      while j > 0 && out.Some?
        invariant 0 <= j <= i && Valid() && states[i..] == st[i..] && states[..j] == st[..j]
        invariant ServerPass(bases[..i], st[..i], msg) ==
                  if out.None? then Some((states[..i], None))
                  else Widened(ServerPass(bases[..j], st[..j], out.value), states[j..i])
      {
        var k := j - 1;
        ServerPassNext(bases, st, j, out.value, states[j..i]);
        ghost var was := states;
        match bases[k].handleServerMsg(states[k], out.value) {
          case None =>
            failed := true;
            return;
          case Some((s, next)) =>
            states := states[k := s];
            assert states[k..i] == [s] + was[j..i];
            assert states[..i] == st[..k] + ([s] + was[j..i]);
            out := next;
        }
        j := k;
      }
      if out.Some? {
        ServerPassNothing(bases[..0], st[..0], out.value, states[0..i]);
        assert states[0..i] == states[..i];
      }
    }

    /** A client message in through the bases, outermost first. */
    method HandleClientMsg(msg: ClientMsg) returns (failed: bool, out: Option<ClientMsg>, replies: seq<ServerMsg>)
      requires Valid()
      modifies this
      ensures Valid()
      ensures ClientPass(bases, old(states), msg) == if failed then None else Some((states, out, replies))
    {
      hide ClientPass, ServerPass, Up, AsSeq, Inside;
      ghost var st := states;
      failed, out, replies := false, Some(msg), [];
      var i := 0;
      ClientPassNothing(bases[..0], st[..0], msg);
      assert states[..0] == [];
      while i < |bases| && out.Some?
        invariant 0 <= i <= |bases| && Valid() && states[i..] == st[i..]
        invariant ClientPass(bases[..i], st[..i], msg) == Some((states[..i], out, replies))
      {
        ClientPassNext(bases, st, i, msg, states[..i], out.value, replies);
        ClientPassFails(bases, st, i + 1, msg);
        match bases[i].handleClientMsg(states[i], out.value) {
          case None =>
            failed := true;
            return;
          case Some((s, next, reply)) =>
            UpOne(bases[..i], states[..i], reply);
            ghost var was := states;
            states := states[i := s];
            assert states[..i] == was[..i] && states[i..] == [s] + st[i + 1..];
            if reply.Some? {
              var bad, up := HandleServerMsg(i, reply.value);
              if bad {
                failed := true;
                return;
              }
              replies := replies + AsSeq(up);
            } else {
              assert replies + [] == replies;
            }
            assert states[i] == states[i..][0] == s;
            assert states[..i + 1] == states[..i] + [s];
            assert states[i + 1..] == states[i..][1..] == st[i + 1..];
            out := next;
        }
        i := i + 1;
      }
      ClientPassDropped(bases, st, i, msg, states[..i], out, replies);
      assert states[..i] + st[i..] == states;
    }

    /** The loop: in both directions, what was sent and what is still queued is what the pipeline made
        of the messages taken in, in order; it drains its queues before it stops for a closed client. */
    method Run(choices: seq<Choice>) returns (exit: Exit, sentDown: seq<ClientMsg>, sentUp: seq<ServerMsg>,
          pendingDown: seq<ClientMsg>, pendingUp: seq<ServerMsg>, k: nat)
      requires Valid()
      modifies this
      ensures Valid() && k <= |choices|
      ensures Produced(bases, old(states), Taken(choices[..k])) ==
              if exit.Failure? then None else Some((states, sentDown + pendingDown, sentUp + pendingUp))
      ensures !exit.Failure? ==>
                |sentDown| == DownSent(bases, old(states), choices[..k]) &&
                |sentUp| == UpSent(bases, old(states), choices[..k])
      ensures exit.Drained? ==> ReceiveClosed in choices[..k] && pendingDown == [] && pendingUp == []
      ensures exit.Finished? <==> HandlerFinished in choices[..k]
      ensures exit.Cancellation? <==> Canceled in choices[..k]
      ensures exit.Finished? || exit.Cancellation? ==> k > 0 && choices[k - 1] in {HandlerFinished, Canceled}
      ensures exit.StillRunning? ==>
                k == |choices| && (ReceiveClosed in choices ==> pendingDown != [] || pendingUp != [])
    {
      hide ServerPass, ClientPass, Taken, AsSeq, DownSent, UpSent;
      ghost var st := states;
      var receiving := true;
      exit, sentDown, sentUp, pendingDown, pendingUp, k := StillRunning, [], [], [], [], 0;
      assert Taken(choices[..0]) == [] by { TakenNothing(choices[..0]); }
      assert [] + pendingDown == [] && [] + pendingUp == [];
      ghost var inputs := [];
      NothingSent(bases, st, choices[..0]);
      hide Produced;
      while true
        invariant k <= |choices| && Valid() && exit == StillRunning
        invariant receiving <==> ReceiveClosed !in choices[..k]
        invariant HandlerFinished !in choices[..k] && Canceled !in choices[..k]
        invariant inputs == Taken(choices[..k])
        invariant |sentDown| == DownSent(bases, st, choices[..k]) && |sentUp| == UpSent(bases, st, choices[..k])
        invariant Produced(bases, st, inputs) == Some((states, sentDown + pendingDown, sentUp + pendingUp))
        decreases |choices| - k
      {
        if !receiving && pendingDown == [] && pendingUp == [] {
          exit := Drained;
          return;
        }
        if k == |choices| {
          assert choices[..k] == choices;
          return;
        }
        var choice := choices[k];
        TakenSnoc(choices[..k], choice);
        SentSnoc(bases, st, choices[..k], choice);
        assert choices[..k + 1] == choices[..k] + [choice];
        assert inputs + [] == inputs;
        k := k + 1;
        match choice {
          case Canceled =>
            exit := Cancellation;
            return;
          case HandlerFinished =>
            exit := Finished;
            return;
          case ReceiveClosed => receiving := false;
          case PassDown =>
            if pendingDown != [] {
              FirstMoves(sentDown, pendingDown);
              sentDown, pendingDown := sentDown + [pendingDown[0]], pendingDown[1..];
            }
          case PassUp =>
            if pendingUp != [] {
              FirstMoves(sentUp, pendingUp);
              sentUp, pendingUp := sentUp + [pendingUp[0]], pendingUp[1..];
            }
          case Receive(msg) =>
            if receiving {
              ProducedSnoc(bases, st, inputs, FromClient(msg), states, sentDown + pendingDown, sentUp + pendingUp);
              inputs := inputs + [FromClient(msg)];
              var failed, out, replies := HandleClientMsg(msg);
              if failed {
                exit := Failure;
                return;
              }
              MoreQueued(sentDown, pendingDown, AsSeq(out));
              MoreQueued(sentUp, pendingUp, replies);
              pendingDown, pendingUp := pendingDown + AsSeq(out), pendingUp + replies;
            }
          case HandlerSends(msg) =>
            ProducedSnoc(bases, st, inputs, FromHandler(msg), states, sentDown + pendingDown, sentUp + pendingUp);
            inputs := inputs + [FromHandler(msg)];
            assert bases[..|bases|] == bases && states[..|bases|] == states;
            var failed, out := HandleServerMsg(|bases|, msg);
            if failed {
              exit := Failure;
              return;
            }
            assert states[..|bases|] == states;
            MoreQueued(sentDown, pendingDown, []);
            MoreQueued(sentUp, pendingUp, AsSeq(out));
            pendingUp := pendingUp + AsSeq(out);
        }
      }
    }
  }

  /** A pipeline of bases that let everything through, run: nothing is lost, invented or reordered. */
  method RunTransparent<S(!new)>(pipeline: Pipeline<S>, choices: seq<Choice>)
      returns (exit: Exit, sentDown: seq<ClientMsg>, sentUp: seq<ServerMsg>,
               pendingDown: seq<ClientMsg>, pendingUp: seq<ServerMsg>, k: nat)
    requires pipeline.Valid() && Transparent(pipeline.bases)
    modifies pipeline
    ensures k <= |choices| && !exit.Failure?
    ensures sentDown + pendingDown == ClientMessages(choices[..k])
    ensures sentUp + pendingUp == HandlerMessages(choices[..k])
  {
    ghost var st := pipeline.states;
    exit, sentDown, sentUp, pendingDown, pendingUp, k := pipeline.Run(choices);
    TransparentLaw(pipeline.bases, st, choices[..k]);
  }

  lemma FirstMoves<T>(sent: seq<T>, pending: seq<T>)
    requires pending != []
    ensures (sent + [pending[0]]) + pending[1..] == sent + pending
  {
  }

  lemma MoreQueued<T>(sent: seq<T>, pending: seq<T>, more: seq<T>)
    ensures (sent + pending) + more == sent + (pending + more)
    ensures more == [] ==> pending + more == pending
  {
  }

  lemma TakenNothing(choices: seq<Choice>)
    requires |choices| == 0
    ensures Taken(choices) == []
  {
  }

  lemma ClientPassNothing<S>(bases: seq<Base<S>>, st: seq<S>, msg: ClientMsg)
    requires |bases| == 0 == |st|
    ensures ClientPass(bases, st, msg) == Some(([], Some(msg), []))
  {
  }

  lemma ClientPassFails<S>(bases: seq<Base<S>>, st: seq<S>, i: nat, msg: ClientMsg)
    requires |st| == |bases| && i <= |bases|
    ensures ClientPass(bases[..i], st[..i], msg) == None ==> ClientPass(bases, st, msg) == None
  {
    ClientComposition(bases[..i], bases[i..], st[..i], st[i..], msg);
    assert bases[..i] + bases[i..] == bases && st[..i] + st[i..] == st;
    hide ClientPass;
  }

  /** A message that some outer base drops does not reach the inner ones. */
  lemma ClientPassDropped<S>(bases: seq<Base<S>>, st: seq<S>, i: nat, msg: ClientMsg, before: seq<S>,
        out: Option<ClientMsg>, replies: seq<ServerMsg>)
    requires |st| == |bases| && i <= |bases| && (out.None? || i == |bases|)
    requires ClientPass(bases[..i], st[..i], msg) == Some((before, out, replies))
    ensures ClientPass(bases, st, msg) == Some((before + st[i..], out, replies))
  {
    if i == |bases| {
      assert bases[..i] == bases && st[..i] == st && before + st[i..] == before;
    } else {
      ClientComposition(bases[..i], bases[i..], st[..i], st[i..], msg);
      assert bases[..i] + bases[i..] == bases && st[..i] + st[i..] == st;
      hide ClientPass;
    }
  }
}
