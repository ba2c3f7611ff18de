/** The host relay client: it subscribes to the device's generated-text topic,
    keeps a bounded conversation history, asks a chat-completion service for the
    next turn and publishes the reply back to the device. */
module Relay {
  import opened Utf8
  import opened Mqtt
  import opened Truncation
  import opened History

  /** Text payloads and history entries, as UTF-8 bytes. */
  type Text = seq<Byte>

  /** The only topic whose messages the relay answers. */
  const SUBSCRIBE_TOPIC: string := "/esp_gpt_out"
  /** Where the relay publishes its replies. */
  const PUBLISH_TOPIC: string := "/client_gpt"

  datatype Option<T> = None | Some(value: T)

  /** One choice of a chat-completion response; its message may carry no text. */
  datatype Choice = Choice(content: Option<Text>)

  /** What the chat-completion service gives back for one request: either the
      client call itself failed, or a response with its list of choices. */
  datatype ApiResponse = TransportFailure | Completion(choices: seq<Choice>)

  /** Why no reply text could be obtained. */
  datatype ApiError = Transport | NoResponse | EmptyResponse

  datatype Result<T> = Ok(value: T) | Err(error: ApiError)

  /** The history entries are sent to the service, oldest first; the service
      itself is an oracle from those entries to its response. */
  type Service = seq<Text> -> ApiResponse

  /** Choice selection: the reply is the first choice's text; no choice at all
      and a first choice without text are two distinct errors. */
  function SelectReply(choices: seq<Choice>): (r: Result<Text>)
    ensures r.Ok? <==> |choices| > 0 && choices[0].content.Some?
    ensures r.Ok? ==> r.value == choices[0].content.value
    ensures |choices| == 0 ==> r == Err(NoResponse)
    ensures |choices| > 0 && choices[0].content.None? ==> r == Err(EmptyResponse)
  {
    if |choices| == 0 then Err(NoResponse)
    else match choices[0].content
      case Some(text) => Ok(text)
      case None => Err(EmptyResponse)
  }

  /** One call of the service with the given history: a failed call is an
      error, a response goes through choice selection. */
  function CallService(messages: seq<Text>, service: Service): (r: Result<Text>)
    ensures r.Ok? <==> service(messages).Completion? && SelectReply(service(messages).choices).Ok?
    ensures service(messages).TransportFailure? ==> r == Err(Transport)
    ensures service(messages).Completion? ==> r == SelectReply(service(messages).choices)
  {
    match service(messages)
    case TransportFailure => Err(Transport)
    case Completion(choices) => SelectReply(choices)
  }

  /** What the relay's event loop receives from the MQTT client library. */
  datatype Event =
    | Incoming(topic: string, payload: Text)  // an inbound publish
    | ConnAck                                  // connection acknowledged
    | OtherPacket                              // any other packet
    | PollError                                // the poll itself failed

  /** An inbound publish the relay answers. */
  predicate IsRequest(e: Event) {
    e.Incoming? && e.topic == SUBSCRIBE_TOPIC
  }

  /** The cap applied to every stored or published message. */
  function Cap(msg: Text): (r: Text)
    ensures |r| <= MAX_MESSAGE_LENGTH
    ensures |msg| <= MAX_MESSAGE_LENGTH ==> r == msg
  {
    TruncateOnBoundary(msg, MAX_MESSAGE_LENGTH)
  }

  /** What one event leaves behind: the new history and the publishes issued. */
  datatype Outcome = Outcome(history: seq<Text>, publishes: seq<Publish>)

  /** The publish carrying a reply to the device. */
  function ReplyPublish(reply: Text): Publish {
    Publish(PUBLISH_TOPIC, reply, AtMostOnce, false)
  }

  /** A publish to the reply topic at QoS 0, not retained, within the cap. */
  predicate IsReplyPublish(p: Publish) {
    p.topic == PUBLISH_TOPIC && p.qos == AtMostOnce && !p.retain && |p.payload| <= MAX_MESSAGE_LENGTH
  }

  /** The history sent to the service for an inbound payload: the capped payload
      appended, then the oldest entries dropped. */
  function RequestHistory(history: seq<Text>, payload: Text): (r: seq<Text>)
    ensures |r| == if |history| < MAX_CONVERSATION_HISTORY then |history| + 1 else MAX_CONVERSATION_HISTORY
    ensures |r| > 0 && r[|r| - 1] == Cap(payload)
  {
    BoundedAppend(history, Cap(payload), MAX_CONVERSATION_HISTORY);
    Bounded(history + [Cap(payload)], MAX_CONVERSATION_HISTORY)
  }

  /** The history sent to the service is what is left of the old history with
      the capped inbound text appended: only the oldest entries are dropped. */
  lemma RequestHistoryKeepsNewest(history: seq<Text>, payload: Text)
    ensures IsSuffix(RequestHistory(history, payload), history + [Cap(payload)])
  {
  }

  /** One turn of the event loop. */
  function Step(history: seq<Text>, event: Event, service: Service): (r: Outcome)
    ensures IsRequest(event) ==> |r.history| <= MAX_CONVERSATION_HISTORY
    ensures |r.publishes| <= 1
    ensures forall k :: 0 <= k < |r.publishes| ==> IsReplyPublish(r.publishes[k])
    ensures !IsRequest(event) ==> r.history == history && r.publishes == []
  {
    if !IsRequest(event) then Outcome(history, [])
    else
      var sent := RequestHistory(history, event.payload);
      match CallService(sent, service)
      case Err(_) => Outcome(sent, [])
      case Ok(reply) =>
        var out := Cap(reply);
        Outcome(Bounded(sent + [out], MAX_CONVERSATION_HISTORY), [ReplyPublish(out)])
  }

  /** A failed service call publishes nothing; the capped inbound payload stays
      as the newest entry and only the oldest earlier entries are dropped. */
  lemma {:induction false} StepOnFailure(history: seq<Text>, event: Event, service: Service)
    requires IsRequest(event)
    requires CallService(RequestHistory(history, event.payload), service).Err?
    ensures var r := Step(history, event, service);
            && r.publishes == []
            && |r.history| > 0 && r.history[|r.history| - 1] == Cap(event.payload)
            && IsSuffix(r.history, history + [Cap(event.payload)])
            && |r.history| == if |history| + 1 < MAX_CONVERSATION_HISTORY then |history| + 1 else MAX_CONVERSATION_HISTORY
  {
    BoundedAppend(history, Cap(event.payload), MAX_CONVERSATION_HISTORY);
  }

  /** A successful call publishes exactly one message, the capped reply, to the
      reply topic; that reply is the newest entry, and the history is what is
      left of the old one plus the inbound payload and the reply, in order. */
  lemma {:induction false} StepOnSuccess(history: seq<Text>, event: Event, service: Service)
    requires IsRequest(event)
    requires CallService(RequestHistory(history, event.payload), service).Ok?
    ensures var reply := CallService(RequestHistory(history, event.payload), service).value;
            var r := Step(history, event, service);
            && r.publishes == [ReplyPublish(Cap(reply))]
            && |r.history| > 0 && r.history[|r.history| - 1] == Cap(reply)
            && IsSuffix(r.history, history + [Cap(event.payload), Cap(reply)])
            && |r.history| == if |history| + 2 < MAX_CONVERSATION_HISTORY then |history| + 2 else MAX_CONVERSATION_HISTORY
  {
    var sent := RequestHistory(history, event.payload);
    var out := Cap(CallService(sent, service).value);
    assert Step(history, event, service)
           == Outcome(Bounded(sent + [out], MAX_CONVERSATION_HISTORY), [ReplyPublish(out)]);
    BoundedAppendTwice(history, Cap(event.payload), out, MAX_CONVERSATION_HISTORY);
  }

  /** Every history entry fits the message cap. */
  predicate EntriesFit(history: seq<Text>) {
    forall k :: 0 <= k < |history| ==> |history[k]| <= MAX_MESSAGE_LENGTH
  }

  /** No turn ever stores an entry longer than the message cap. */
  lemma {:induction false} StepKeepsEntriesFit(history: seq<Text>, event: Event, service: Service)
    requires EntriesFit(history)
    ensures EntriesFit(Step(history, event, service).history)
  {
    if IsRequest(event) {
      var sent := RequestHistory(history, event.payload);
      BoundedElements(history + [Cap(event.payload)], MAX_CONVERSATION_HISTORY);
      assert EntriesFit(history + [Cap(event.payload)]);
      assert EntriesFit(sent);
      var c := CallService(sent, service);
      if c.Ok? {
        BoundedElements(sent + [Cap(c.value)], MAX_CONVERSATION_HISTORY);
        assert EntriesFit(sent + [Cap(c.value)]);
      }
    }
  }

  /** The loop of events: every turn starts from the history the last one left.
      `services[k]` answers the request of event `k`, so two requests with the
      same history may be answered differently, as a real service may. */
  function Run(history: seq<Text>, events: seq<Event>, services: seq<Service>): (r: Outcome)
    requires |services| == |events|
    ensures |r.publishes| <= |events|
    ensures (forall k :: 0 <= k < |events| ==> !IsRequest(events[k])) ==> r == Outcome(history, [])
    decreases |events|
  {
    if |events| == 0 then Outcome(history, [])
    else
      var first := Step(history, events[0], services[0]);
      var rest := Run(first.history, events[1..], services[1..]);
      Outcome(rest.history, first.publishes + rest.publishes)
  }

  /** However many events arrive, the history stays within its cap and every
      entry within the message cap; each event publishes at most once. */
  lemma {:induction false} RunBounded(history: seq<Text>, events: seq<Event>, services: seq<Service>)
    requires |services| == |events|
    requires |history| <= MAX_CONVERSATION_HISTORY && EntriesFit(history)
    ensures var r := Run(history, events, services);
            |r.history| <= MAX_CONVERSATION_HISTORY && EntriesFit(r.history) && |r.publishes| <= |events|
    decreases |events|
  {
    if |events| > 0 {
      StepKeepsEntriesFit(history, events[0], services[0]);
      RunBounded(Step(history, events[0], services[0]).history, events[1..], services[1..]);
    }
  }

  /** Every publish in `ps` goes to the reply topic at QoS 0, not retained,
      within the message cap. */
  predicate AllReplies(ps: seq<Publish>) {
    forall k :: 0 <= k < |ps| ==> IsReplyPublish(ps[k])
  }

  /** Every publish of the relay goes to the reply topic at QoS 0, not
      retained, and carries a payload within the message cap. */
  lemma {:induction false} RunPublishesReplies(history: seq<Text>, events: seq<Event>, services: seq<Service>)
    requires |services| == |events|
    ensures AllReplies(Run(history, events, services).publishes)
    decreases |events|
  {
    if |events| > 0 {
      var first := Step(history, events[0], services[0]);
      RunPublishesReplies(first.history, events[1..], services[1..]);
      var rest := Run(first.history, events[1..], services[1..]);
      var ps := first.publishes + rest.publishes;
      forall k | 0 <= k < |ps| ensures IsReplyPublish(ps[k]) {
        if k < |first.publishes| {
          assert ps[k] == first.publishes[k];
        } else {
          assert ps[k] == rest.publishes[k - |first.publishes|];
        }
      }
    }
  }

  /** Spells out `Step`'s clause for events that are not requests, event kind
      by event kind: a message on any other topic, a ConnAck, any other packet
      and a poll error change nothing and publish nothing. */
  lemma OtherEventsIgnored(history: seq<Text>, topic: string, payload: Text, service: Service)
    requires topic != SUBSCRIBE_TOPIC
    ensures Step(history, Incoming(topic, payload), service) == Outcome(history, [])
    ensures Step(history, ConnAck, service) == Outcome(history, [])
    ensures Step(history, OtherPacket, service) == Outcome(history, [])
    ensures Step(history, PollError, service) == Outcome(history, [])
  {
  }

  /** "hello" arriving on the subscribed topic, answered with "world", gives one
      publish of "world" on the reply topic and a history of the two texts. */
  lemma HelloWorld(service: Service)
    requires service([[0x68, 0x65, 0x6C, 0x6C, 0x6F]]) == Completion([Choice(Some([0x77, 0x6F, 0x72, 0x6C, 0x64]))])
    ensures var hello: Text := [0x68, 0x65, 0x6C, 0x6C, 0x6F];
            var world: Text := [0x77, 0x6F, 0x72, 0x6C, 0x64];
            Step([], Incoming(SUBSCRIBE_TOPIC, hello), service)
              == Outcome([hello, world], [Publish(PUBLISH_TOPIC, world, AtMostOnce, false)])
  {
    var hello: Text := [0x68, 0x65, 0x6C, 0x6C, 0x6F];
    var world: Text := [0x77, 0x6F, 0x72, 0x6C, 0x64];
    assert RequestHistory([], hello) == [hello];
    assert Bounded([hello] + [world], MAX_CONVERSATION_HISTORY) == [hello, world];
  }

  /** The relay's state across events: the history it keeps and every publish
      it has issued so far. */
  class RelayClient {
    var history: seq<Text>
    var published: seq<Publish>

    ghost predicate Valid()
      reads this
    {
      |history| <= MAX_CONVERSATION_HISTORY && EntriesFit(history)
    }

    constructor ()
      ensures Valid() && history == [] && published == []
    {
      history := [];
      published := [];
    }

    /** `push_back` followed by `while len > MAX { pop_front() }`. */
    method Remember(entry: Text)
      modifies this`history
      ensures history == Bounded(old(history) + [entry], MAX_CONVERSATION_HISTORY)
    {
      ghost var full := history + [entry];
      history := history + [entry];
      while |history| > MAX_CONVERSATION_HISTORY
        invariant IsSuffix(history, full)
        invariant |full| > MAX_CONVERSATION_HISTORY ==> |history| >= MAX_CONVERSATION_HISTORY
        invariant |full| <= MAX_CONVERSATION_HISTORY ==> history == full
        decreases |history|
      {
        history := history[1..];
      }
    }

    /** Handles one event of the loop exactly as `Step` describes. */
    method HandleEvent(event: Event, service: Service)
      requires Valid()
      modifies this
      ensures Valid()
      ensures history == Step(old(history), event, service).history
      ensures published == old(published) + Step(old(history), event, service).publishes
    {
      StepKeepsEntriesFit(history, event, service);
      if IsRequest(event) {
        var inbound := Cap(event.payload);
        Remember(inbound);
        var messages := history;
        var reply := CallService(messages, service);
        match reply {
          case Ok(text) =>
            var out := Cap(text);
            Remember(out);
            published := published + [ReplyPublish(out)];
          case Err(_) =>
        }
      }
    }
  }
}
