/**
  One client, the serve loop and the transport between them, interleaved in any way: the replies the client
  gets are the service's answers, in order, to a prefix of the messages it sent. A request whose handler throws
  ends the server's thread for good.
*/
module Pipeline {
  import opened Common
  import opened Transport

  /** Where the serve loop stands. */
  datatype Pc = AtCheck | Waiting | Handling(request: string) | Replying(reply: string) | Exited | Crashed(request: string)

  /** sent and received record what the client's calls returned. */
  datatype World<S> = World(
    channel: Channel, stop: bool, pc: Pc, service: S,
    sent: seq<string>, received: seq<string>)

  /** One step of the client, of whoever closes or stops, or of the server. */
  datatype Step = Send(message: string) | Receive | Close | Stop | Serve

  /** The service: what it becomes and what it answers, which is nothing when it throws. */
  type Service<!S> = (S, string) -> (S, Option<string>)

  function Reply<S>(service: S, request: string, handle: Service<S>): string {
    handle(service, request).1.GetOr("")
  }

  function ServeStep<S>(w: World<S>, handle: Service<S>): World<S> {
    match w.pc
    case AtCheck => w.(pc := if w.stop then Exited else Waiting)
    case Waiting =>
      var r := ReceiveResult(w.channel, false);
      if r.Success? then w.(pc := Handling(r.value), channel := Received(w.channel, false))
      else w.(pc := if w.stop then Exited else AtCheck)
    case Handling(request) =>
      var answer := handle(w.service, request);
      if answer.1.None? then w.(pc := Crashed(request)) else w.(service := answer.0, pc := Replying(answer.1.value))
    case Replying(reply) => w.(pc := AtCheck, channel := Sent(w.channel, false, reply))
    case Exited => w
    case Crashed(_) => w
  }

  function Next<S>(w: World<S>, step: Step, handle: Service<S>): World<S> {
    match step
    case Send(message) =>
      w.(channel := Sent(w.channel, true, message),
         sent := if SendResult(w.channel).Success? then w.sent + [message] else w.sent)
    case Receive =>
      var r := ReceiveResult(w.channel, true);
      w.(channel := Received(w.channel, true), received := if r.Success? then w.received + [r.value] else w.received)
    case Close => w.(channel := w.channel.(closed := true))
    case Stop => w.(stop := true)
    case Serve => ServeStep(w, handle)
  }

  function Run<S>(w: World<S>, steps: seq<Step>, handle: Service<S>): World<S> {
    if steps == [] then w
    else Next(Run(w, steps[..|steps| - 1], handle), steps[|steps| - 1], handle)
  }

  function Start<S>(service: S): World<S> {
    World(Channel([], [], false), false, AtCheck, service, [], [])
  }

  /** The service after some requests, one after the other. */
  function After<S>(service: S, requests: seq<string>, handle: Service<S>): S {
    if requests == [] then service
    else handle(After(service, requests[..|requests| - 1], handle), requests[|requests| - 1]).0
  }

  /** What the service answers to some requests, one after the other. */
  function Answers<S>(service: S, requests: seq<string>, handle: Service<S>): (r: seq<string>)
    ensures |r| == |requests|
  {
    if requests == [] then []
    else
      var front := requests[..|requests| - 1];
      Answers(service, front, handle) + [Reply(After(service, front, handle), requests[|requests| - 1], handle)]
  }

  /** None of the requests, one after the other, makes the service throw. */
  predicate NoneThrows<S>(service: S, requests: seq<string>, handle: Service<S>) {
    forall k | 0 <= k < |requests| :: handle(After(service, requests[..k], handle), requests[k]).1.Some?
  }

  lemma {:induction false} AnswersToPrefix<S>(service: S, requests: seq<string>, n: nat, handle: Service<S>)
    requires n <= |requests|
    ensures Answers(service, requests[..n], handle) == Answers(service, requests, handle)[..n]
  {
    if n == |requests| {
      assert requests[..n] == requests;
    } else {
      AnswersToPrefix(service, requests[..|requests| - 1], n, handle);
      assert requests[..|requests| - 1][..n] == requests[..n];
    }
  }

  lemma NoneThrowsInPrefix<S>(service: S, requests: seq<string>, n: nat, handle: Service<S>)
    requires NoneThrows(service, requests, handle) && n <= |requests|
    ensures NoneThrows(service, requests[..n], handle)
  {
    assert forall k | 0 <= k < n :: requests[..n][..k] == requests[..k];
  }

  // ---------------------------------------------------------------- the invariant

  /** The request in hand, if any. */
  function InHand<S>(w: World<S>): seq<string> {
    if w.pc.Handling? || w.pc.Crashed? then [w.pc.request] else []
  }

  /** The reply that is not sent yet, if any. */
  function Unsent<S>(w: World<S>): seq<string> {
    if w.pc.Replying? then [w.pc.reply] else []
  }

  /** The first done messages are handled, the others are in hand or queued; until the close no reply is lost. */
  ghost predicate Consistent<S>(w: World<S>, init: S, done: seq<string>, handle: Service<S>) {
    && NoneThrows(init, done, handle)
    && (w.pc.Exited? ==> w.stop) && (w.pc.Crashed? ==> handle(w.service, w.pc.request).1.None?)
    && w.sent == done + InHand(w) + w.channel.toServer
    && w.service == After(init, done, handle)
    && w.received + w.channel.toClient <= Answers(init, done, handle)
    && (!w.channel.closed ==> w.received + w.channel.toClient + Unsent(w) == Answers(init, done, handle))
  }

  /** The messages handled after a step. */
  function DoneAfter<S>(w: World<S>, step: Step, done: seq<string>, handle: Service<S>): seq<string> {
    if step.Serve? && w.pc.Handling? && handle(w.service, w.pc.request).1.Some? then done + [w.pc.request] else done
  }

  lemma ClientKeeps<S>(w: World<S>, step: Step, init: S, done: seq<string>, handle: Service<S>)
    requires Consistent(w, init, done, handle) && !step.Serve?
    ensures Consistent(Next(w, step, handle), init, done, handle)
  {
    match step
    case Send(message) => Associate(done + InHand(w), w.channel.toServer, [message]);
    case Receive =>
      if w.channel.toClient != [] {
        assert w.channel.toClient == [w.channel.toClient[0]] + w.channel.toClient[1..];
        Associate(w.received, [w.channel.toClient[0]], w.channel.toClient[1..]);
      }
    case Close =>
    case Stop =>
  }

  lemma OneMoreServed<S>(init: S, done: seq<string>, request: string, handle: Service<S>)
    requires NoneThrows(init, done, handle) && handle(After(init, done, handle), request).1.Some?
    ensures NoneThrows(init, done + [request], handle)
    ensures After(init, done + [request], handle) == handle(After(init, done, handle), request).0
    ensures Answers(init, done + [request], handle)
         == Answers(init, done, handle) + [Reply(After(init, done, handle), request, handle)]
  {
    assert (done + [request])[..|done|] == done;
    var more := done + [request];
    forall k | 0 <= k < |more| ensures handle(After(init, more[..k], handle), more[k]).1.Some? {
      assert k < |done| ==> more[..k] == done[..k];
      assert k == |done| ==> more[..k] == done;
    }
  }

  lemma HandlingKeeps<S>(w: World<S>, init: S, done: seq<string>, handle: Service<S>)
    requires Consistent(w, init, done, handle) && w.pc.Handling?
    ensures Consistent(ServeStep(w, handle), init, DoneAfter(w, Serve, done, handle), handle)
  {
    var request := w.pc.request;
    if handle(w.service, request).1.Some? {
      assert done + [request] + [] == done + [request];
      OneMoreServed(init, done, request, handle);
    }
  }

  lemma ServerKeeps<S>(w: World<S>, init: S, done: seq<string>, handle: Service<S>)
    requires Consistent(w, init, done, handle)
    ensures Consistent(ServeStep(w, handle), init, DoneAfter(w, Serve, done, handle), handle)
  {
    match w.pc
    case Waiting =>
      if w.channel.toServer != [] {
        assert w.channel.toServer == [w.channel.toServer[0]] + w.channel.toServer[1..];
        assert done + [] == done;
        Associate(done, [w.channel.toServer[0]], w.channel.toServer[1..]);
      }
    case Handling(request) => HandlingKeeps(w, init, done, handle);
    case Replying(reply) => Associate(w.received, w.channel.toClient, [reply]);
    case _ =>
  }

  lemma {:induction false} RunKeeps<S>(init: S, steps: seq<Step>, handle: Service<S>) returns (done: seq<string>)
    ensures Consistent(Run(Start(init), steps, handle), init, done, handle)
  {
    if steps == [] {
      done := [];
    } else {
      var w, step := Run(Start(init), steps[..|steps| - 1], handle), steps[|steps| - 1];
      var before := RunKeeps(init, steps[..|steps| - 1], handle);
      done := DoneAfter(w, step, before, handle);
      if step.Serve? {
        ServerKeeps(w, init, before, handle);
      } else {
        ClientKeeps(w, step, init, before, handle);
      }
    }
  }

  // ---------------------------------------------------------------- the theorems

  /**
    In every interleaving, what the client has received followed by what is queued for it are the service's
    answers, in order, to the first n messages it sent; and if nobody has closed the transport, n leaves out
    only messages the server has not answered yet.
  */
  lemma RepliesAnswerSent<S>(init: S, steps: seq<Step>, handle: Service<S>) returns (n: nat)
    ensures var w := Run(Start(init), steps, handle);
            && n <= |w.sent|
            && w.received + w.channel.toClient == Answers(init, w.sent[..n], handle) && NoneThrows(init, w.sent[..n], handle)
            && (!w.channel.closed ==> n + |Unsent(w)| + |InHand(w)| + |w.channel.toServer| == |w.sent|)
  {
    var w := Run(Start(init), steps, handle);
    var done := RunKeeps(init, steps, handle);
    var replies := w.received + w.channel.toClient;
    n := |replies|;
    AnswersToPrefix(init, done, n, handle);
    assert w.sent[..n] == done[..n];
    NoneThrowsInPrefix(init, done, n, handle);
    assert Answers(init, done, handle)[..n] == replies;
  }

  /** Steps of the server alone. */
  function Serves<S>(w: World<S>, n: nat, handle: Service<S>): World<S>
    decreases n
  {
    if n == 0 then w else Serves(ServeStep(w, handle), n - 1, handle)
  }

  /** The messages of a channel are handled in order, closed or not, when none of them makes the service throw. */
  lemma {:induction false} QueueIsServed<S>(w: World<S>, handle: Service<S>)
    requires w.pc.AtCheck? && !w.stop && AllAnswered(w.service, w.channel.toServer, handle)
    ensures var end := Serves(w, 4 * |w.channel.toServer|, handle);
            && end.pc.AtCheck? && end.channel.toServer == [] && end.channel.closed == w.channel.closed && !end.stop
            && end.sent == w.sent && end.received == w.received
            && end.service == AfterAll(w.service, w.channel.toServer, handle)
            && end.channel.toClient
               == if w.channel.closed then w.channel.toClient
                  else w.channel.toClient + AnswersToAll(w.service, w.channel.toServer, handle)
    decreases |w.channel.toServer|
  {
    var queue := w.channel.toServer;
    if queue != [] {
      var w4 := OneServed(w, handle);
      QueueIsServed(w4, handle);
      ServesFour(w, 4 * (|queue| - 1), handle);
      Associate(w.channel.toClient, [Reply(w.service, queue[0], handle)], AnswersToAll(w4.service, queue[1..], handle));
    }
  }

  /** Four steps of the server handle the first message that is queued. */
  lemma OneServed<S>(w: World<S>, handle: Service<S>) returns (w4: World<S>)
    requires w.pc.AtCheck? && !w.stop && w.channel.toServer != []
    requires handle(w.service, w.channel.toServer[0]).1.Some?
    ensures w4 == ServeStep(ServeStep(ServeStep(ServeStep(w, handle), handle), handle), handle)
    ensures var request := w.channel.toServer[0];
            w4 == w.(service := handle(w.service, request).0,
                     channel := Sent(w.channel.(toServer := w.channel.toServer[1..]), false, Reply(w.service, request, handle)))
  {
    var w1 := ServeStep(w, handle);
    var w2 := ServeStep(w1, handle);
    var w3 := ServeStep(w2, handle);
    w4 := ServeStep(w3, handle);
    assert w2.pc == Handling(w.channel.toServer[0]) && w2.channel.toServer == w.channel.toServer[1..];
  }

  /** Otherwise the thread ends in the handler of the first message that throws, and answers nothing any more. */
  lemma {:induction false} ThrowEndsService<S>(w: World<S>, handle: Service<S>) returns (n: nat)
    requires w.pc.AtCheck? && !w.stop && !AllAnswered(w.service, w.channel.toServer, handle)
    ensures Serves(w, n, handle).pc.Crashed?
    ensures forall more: nat :: Serves(Serves(w, n, handle), more, handle) == Serves(w, n, handle)
    decreases |w.channel.toServer|
  {
    var queue := w.channel.toServer;
    if handle(w.service, queue[0]).1.None? {
      var w1 := ServeStep(w, handle);
      var w2 := ServeStep(w1, handle);
      var w3 := ServeStep(w2, handle);
      assert w2.pc == Handling(queue[0]);
      n := 3;
      assert Serves(w, 3, handle) == Serves(w1, 2, handle) == Serves(w2, 1, handle) == Serves(w3, 0, handle);
    } else {
      var w4 := OneServed(w, handle);
      var rest := ThrowEndsService(w4, handle);
      ServesFour(w, rest, handle);
      n := rest + 4;
    }
    forall more: nat ensures Serves(Serves(w, n, handle), more, handle) == Serves(w, n, handle) {
      CrashedStays(Serves(w, n, handle), more, handle);
    }
  }

  lemma {:induction false} CrashedStays<S>(w: World<S>, n: nat, handle: Service<S>)
    requires w.pc.Crashed?
    ensures Serves(w, n, handle) == w
    decreases n
  {
    if n > 0 {
      CrashedStays(w, n - 1, handle);
    }
  }

  lemma ServesFour<S>(w: World<S>, n: nat, handle: Service<S>)
    ensures Serves(w, n + 4, handle)
         == Serves(ServeStep(ServeStep(ServeStep(ServeStep(w, handle), handle), handle), handle), n, handle)
  {
    var w1 := ServeStep(w, handle);
    var w2 := ServeStep(w1, handle);
    var w3 := ServeStep(w2, handle);
    assert Serves(w, n + 4, handle) == Serves(w1, n + 3, handle) == Serves(w2, n + 2, handle) == Serves(w3, n + 1, handle);
  }

  /** The same folds as After and Answers, from the front. */
  function AfterAll<S>(service: S, requests: seq<string>, handle: Service<S>): S {
    if requests == [] then service else AfterAll(handle(service, requests[0]).0, requests[1..], handle)
  }

  function AnswersToAll<S>(service: S, requests: seq<string>, handle: Service<S>): seq<string> {
    if requests == [] then []
    else [Reply(service, requests[0], handle)] + AnswersToAll(handle(service, requests[0]).0, requests[1..], handle)
  }

  predicate AllAnswered<S>(service: S, requests: seq<string>, handle: Service<S>)
    decreases |requests|
  {
    requests == [] ||
    (handle(service, requests[0]).1.Some? && AllAnswered(handle(service, requests[0]).0, requests[1..], handle))
  }

  /** Receive steps of the client alone. */
  function Receives<S>(w: World<S>, n: nat, handle: Service<S>): World<S>
    decreases n
  {
    if n == 0 then w else Receives(Next(w, Receive, handle), n - 1, handle)
  }

  /** What is queued for the client is delivered in order, closed or not. */
  lemma {:induction false} QueueIsDelivered<S>(w: World<S>, handle: Service<S>)
    ensures Receives(w, |w.channel.toClient|, handle)
         == w.(received := w.received + w.channel.toClient, channel := w.channel.(toClient := []))
    decreases |w.channel.toClient|
  {
    var queue := w.channel.toClient;
    if queue == [] {
      assert w.received + [] == w.received;
    } else {
      QueueIsDelivered(Next(w, Receive, handle), handle);
      Associate(w.received, [queue[0]], queue[1..]);
      assert [queue[0]] + queue[1..] == queue;
    }
  }

  /** Both folds agree: a queue served from the front continues what was done before it. */
  lemma {:induction false} AnswersContinue<S>(init: S, done: seq<string>, queue: seq<string>, handle: Service<S>)
    ensures Answers(init, done + queue, handle) == Answers(init, done, handle) + AnswersToAll(After(init, done, handle), queue, handle)
    decreases |queue|
  {
    if queue == [] {
      assert done + queue == done;
    } else {
      var request := queue[0];
      assert (done + [request])[..|done|] == done;
      AnswersContinue(init, done + [request], queue[1..], handle);
      assert done + [request] + queue[1..] == done + queue;
      var after := After(init, done, handle);
      Associate(Answers(init, done, handle), [Reply(after, request, handle)], AnswersToAll(handle(after, request).0, queue[1..], handle));
    }
  }

  lemma {:induction false} NoneThrowsContinues<S>(init: S, done: seq<string>, queue: seq<string>, handle: Service<S>)
    requires NoneThrows(init, done + queue, handle)
    ensures AllAnswered(After(init, done, handle), queue, handle)
    decreases |queue|
  {
    if queue != [] {
      var request := queue[0];
      assert (done + queue)[..|done|] == done && (done + queue)[|done|] == request;
      assert (done + [request])[..|done|] == done;
      assert done + [request] + queue[1..] == done + queue;
      NoneThrowsContinues(init, done + [request], queue[1..], handle);
    }
  }

  /** How many steps of the server lead back to the check of its flag. */
  function ToCheck<S>(w: World<S>): nat {
    match w.pc
    case AtCheck => 0
    case Waiting => if w.channel.toServer == [] then 1 else 3
    case Handling(_) => 2
    case Replying(_) => 1
    case _ => 0
  }

  lemma {:induction false} ServesAreSteps<S>(init: S, steps: seq<Step>, n: nat, handle: Service<S>) returns (longer: seq<Step>)
    ensures Run(Start(init), longer, handle) == Serves(Run(Start(init), steps, handle), n, handle)
    decreases n
  {
    longer := steps;
    if n > 0 {
      assert (steps + [Serve])[..|steps|] == steps;
      longer := ServesAreSteps(init, steps + [Serve], n - 1, handle);
    }
  }

  /** At most three steps of the server finish what it has begun. */
  lemma BackToCheck<S>(w: World<S>, handle: Service<S>)
    requires !w.stop && !w.channel.closed && !w.pc.Exited? && !w.pc.Crashed?
    requires w.pc.Handling? ==> handle(w.service, w.pc.request).1.Some?
    requires w.pc.Waiting? && w.channel.toServer != [] ==> handle(w.service, w.channel.toServer[0]).1.Some?
    ensures var t := Serves(w, ToCheck(w), handle);
            && ToCheck(w) <= 3 && t.pc.AtCheck? && !t.stop && !t.channel.closed && t.sent == w.sent && t.received == w.received
  {
    var w1 := ServeStep(w, handle);
    var w2 := ServeStep(w1, handle);
    assert Serves(w, 2, handle) == Serves(w1, 1, handle) == Serves(w2, 0, handle);
    assert Serves(w, 3, handle) == Serves(w1, 2, handle) == Serves(w2, 1, handle);
  }

  /** After n steps of the server the client has only to receive, and then it has every answer. */
  ghost predicate AllDelivered<S>(w: World<S>, n: nat, init: S, handle: Service<S>) {
    var served := Serves(w, n, handle);
    var end := Receives(served, |served.channel.toClient|, handle);
    end.sent == w.sent && end.received == Answers(init, w.sent, handle)
  }

  lemma ServesThenReceives<S>(init: S, steps: seq<Step>, handle: Service<S>)
    requires var w := Run(Start(init), steps, handle);
             w.pc.AtCheck? && !w.stop && !w.channel.closed && NoneThrows(init, w.sent, handle)
    ensures var w := Run(Start(init), steps, handle); AllDelivered(w, 4 * |w.channel.toServer|, init, handle)
  {
    var w := Run(Start(init), steps, handle);
    var done := RunKeeps(init, steps, handle);
    assert w.sent == done + w.channel.toServer by {
      assert done + [] == done;
    }
    AnswersContinue(init, done, w.channel.toServer, handle);
    NoneThrowsContinues(init, done, w.channel.toServer, handle);
    QueueIsServed(w, handle);
    var served := Serves(w, 4 * |w.channel.toServer|, handle);
    QueueIsDelivered(served, handle);
    Associate(w.received, w.channel.toClient, AnswersToAll(w.service, w.channel.toServer, handle));
    assert w.received + w.channel.toClient + [] == w.received + w.channel.toClient;
  }

  /** What is in hand does not throw either, so the server is not in the middle of a throw. */
  lemma NothingThrows<S>(init: S, steps: seq<Step>, handle: Service<S>)
    requires var w := Run(Start(init), steps, handle); !w.stop && NoneThrows(init, w.sent, handle)
    ensures var w := Run(Start(init), steps, handle);
            && !w.pc.Exited? && !w.pc.Crashed?
            && (w.pc.Handling? ==> handle(w.service, w.pc.request).1.Some?)
            && (w.pc.Waiting? && w.channel.toServer != [] ==> handle(w.service, w.channel.toServer[0]).1.Some?)
  {
    var w := Run(Start(init), steps, handle);
    var done := RunKeeps(init, steps, handle);
    if w.sent != done {
      var n := |done|;
      assert w.sent[..n] == done;
      assert handle(After(init, w.sent[..n], handle), w.sent[n]).1.Some?;
    }
  }

  /**
    From any state in which nobody has closed or stopped anything, wherever the server stands, it can answer
    everything that was sent, and the client then has every answer; unless one of the messages makes it throw.
  */
  lemma NothingIsLost<S>(init: S, steps: seq<Step>, handle: Service<S>) returns (n: nat)
    requires var w := Run(Start(init), steps, handle); !w.stop && !w.channel.closed && NoneThrows(init, w.sent, handle)
    ensures AllDelivered(Run(Start(init), steps, handle), n, init, handle)
  {
    var w := Run(Start(init), steps, handle);
    NothingThrows(init, steps, handle);
    BackToCheck(w, handle);
    var t := Serves(w, ToCheck(w), handle);
    var longer := ServesAreSteps(init, steps, ToCheck(w), handle);
    ServesThenReceives(init, longer, handle);
    n := DeliveredLater(w, ToCheck(w), 4 * |t.channel.toServer|, init, handle);
  }

  lemma DeliveredLater<S>(w: World<S>, m: nat, n: nat, init: S, handle: Service<S>) returns (total: nat)
    requires AllDelivered(Serves(w, m, handle), n, init, handle) && Serves(w, m, handle).sent == w.sent
    ensures AllDelivered(w, total, init, handle)
  {
    ServesAppend(w, m, n, handle);
    total := m + n;
  }

  lemma {:induction false} ServesAppend<S>(w: World<S>, m: nat, n: nat, handle: Service<S>)
    ensures Serves(w, m + n, handle) == Serves(Serves(w, m, handle), n, handle)
    decreases m
  {
    if m > 0 {
      ServesAppend(ServeStep(w, handle), m - 1, n, handle);
    }
  }
}
