/** The whole agent behind the transport: every reply a client gets answers the request it sent. */
module AgentPipeline {
  import opened Common
  import opened JsonCodec
  import opened JsonRoundTrip
  import opened AgentApprovals
  import opened AgentMessages
  import opened AgentEnvelope
  import Pipeline

  /** The agent's state, and how many requests it has seen. */
  datatype Serving = Serving(agent: Agent, calls: nat)

  /** The agent as a service; outside is what each of its calls learns. */
  ghost function ServiceOf(c: Setting, fl: Floats, outside: nat -> Outside): Pipeline.Service<Serving> {
    (s: Serving, text: string) =>
      (Serving(Effect(c, s.agent, text, fl, outside(s.calls)), s.calls + 1),
       Printed(Answer(c, s.agent, text, fl, outside(s.calls)), fl))
  }

  function Printed(answer: Option<Json>, fl: Floats): Option<string> {
    if answer.None? then None else Some(Encode(answer.value, fl))
  }

  lemma {:induction false} AnswerAt<S>(init: S, requests: seq<string>, k: nat, handle: Pipeline.Service<S>)
    requires k < |requests|
    ensures Pipeline.Answers(init, requests, handle)[k]
         == Pipeline.Reply(Pipeline.After(init, requests[..k], handle), requests[k], handle)
  {
    var last := |requests| - 1;
    if k < last {
      AnswerAt(init, requests[..last], k, handle);
      assert requests[..last][..k] == requests[..k];
    }
  }

  /** The text is the printed form of an answer under the id, and decodes to it when its strings survive. */
  ghost predicate Answering(reply: string, id: string, fl: Floats) {
    exists answer :: reply == Encode(answer, fl) && IsAnswer(answer, id) && (Decode(reply, fl) == Success(answer) <==> Safe(answer))
  }

  lemma ServiceAnswers(c: Setting, fl: Floats, outside: nat -> Outside, s: Serving, text: string)
    requires ServiceOf(c, fl, outside)(s, text).1.Some?
    ensures Answering(ServiceOf(c, fl, outside)(s, text).1.value, IdOf(text, fl), fl)
  {
    assert ServiceOf(c, fl, outside)(s, text).1 == Printed(Answer(c, s.agent, text, fl, outside(s.calls)), fl);
    EveryRequestIsAnswered(c, s.agent, text, fl, outside(s.calls));
    ReplyDecodesToAnswer(c, s.agent, text, fl, outside(s.calls));
  }

  /** In every interleaving, reply k the client gets is an answer to message k it sent. */
  lemma EveryReplyAnswersItsMessage(c: Setting, fl: Floats, outside: nat -> Outside, init: Agent, steps: seq<Pipeline.Step>)
    ensures var w := Pipeline.Run(Pipeline.Start(Serving(init, 0)), steps, ServiceOf(c, fl, outside));
            var replies := w.received + w.channel.toClient;
            && |replies| <= |w.sent|
            && forall k | 0 <= k < |replies| :: Answering(replies[k], IdOf(w.sent[k], fl), fl)
  {
    var handle := ServiceOf(c, fl, outside);
    var w := Pipeline.Run(Pipeline.Start(Serving(init, 0)), steps, handle);
    var n := Pipeline.RepliesAnswerSent(Serving(init, 0), steps, handle);
    var replies := w.received + w.channel.toClient;
    forall k | 0 <= k < |replies| ensures Answering(replies[k], IdOf(w.sent[k], fl), fl) {
      var before := Pipeline.After(Serving(init, 0), w.sent[..n][..k], handle);
      AnswerAt(Serving(init, 0), w.sent[..n], k, handle);
      assert handle(before, w.sent[..n][k]).1.Some?;
      ServiceAnswers(c, fl, outside, before, w.sent[k]);
    }
  }
}
