/** The device's MQTT event callback (`mqtt_event_handler`). It touches no
    device state: on a connection it subscribes to the command topic, and
    every other event, inbound data included, is only logged. */
module DeviceEvents {
  import opened Utf8
  import opened Mqtt

  /** The topic the device listens on for commands. */
  const COMMAND_TOPIC: string := "/esp32_commands"

  /** The events the client library delivers to the callback. */
  datatype MqttEvent =
    | Connected
    | Disconnected
    | Published(msgId: int)
    | Data(topic: string, data: seq<Byte>)
    | Error(tcpTransport: bool)
    | OtherEvent

  /** The subscribe issued on a connection. */
  function CommandSubscription(): Subscription {
    Subscription(COMMAND_TOPIC, AtMostOnce)
  }

  /** The client calls one event makes: exactly one subscribe, to the command
      topic at QoS 0, on a connection; none otherwise. */
  function HandleEvent(e: MqttEvent): (calls: seq<Subscription>)
    ensures |calls| == if e.Connected? then 1 else 0
    ensures forall k :: 0 <= k < |calls| ==> calls[k].topic == COMMAND_TOPIC && calls[k].qos == AtMostOnce
  {
    match e
    case Connected => [CommandSubscription()]
    case _ => []
  }

  /** The client calls a sequence of events makes, in order. */
  function HandleAll(events: seq<MqttEvent>): seq<Subscription>
    decreases |events|
  {
    if |events| == 0 then [] else HandleEvent(events[0]) + HandleAll(events[1..])
  }

  /** How many of the events are connections. */
  function Connections(events: seq<MqttEvent>): nat
    decreases |events|
  {
    if |events| == 0 then 0 else (if events[0].Connected? then 1 else 0) + Connections(events[1..])
  }

  /** Over any run of events the device subscribes once per connection, always
      to the command topic at QoS 0, so a reconnect renews the subscription
      and inbound data never adds a client call. */
  lemma {:induction false} OneSubscribePerConnection(events: seq<MqttEvent>)
    ensures |HandleAll(events)| == Connections(events)
    ensures forall k :: 0 <= k < |HandleAll(events)| ==> HandleAll(events)[k] == CommandSubscription()
    decreases |events|
  {
    if |events| > 0 {
      OneSubscribePerConnection(events[1..]);
      var first, rest := HandleEvent(events[0]), HandleAll(events[1..]);
      forall k | 0 <= k < |first + rest| ensures (first + rest)[k] == CommandSubscription() {
        if k >= |first| {
          assert (first + rest)[k] == rest[k - |first|];
        }
      }
    }
  }

  /** Inbound data on any topic, the command topic included, makes no call. */
  lemma {:induction false} DataIsOnlyLogged(topic: string, data: seq<Byte>, events: seq<MqttEvent>)
    ensures HandleEvent(Data(topic, data)) == []
    ensures HandleAll(events + [Data(topic, data)]) == HandleAll(events)
    decreases |events|
  {
    if |events| > 0 {
      assert (events + [Data(topic, data)])[1..] == events[1..] + [Data(topic, data)];
      DataIsOnlyLogged(topic, data, events[1..]);
    }
  }
}
