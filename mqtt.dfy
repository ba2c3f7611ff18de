/** What both programs hand to their MQTT client library, recorded as values. */
module Mqtt {
  import opened Utf8

  /** MQTT delivery levels; both programs only use level 0, "at most once". */
  datatype QoS = AtMostOnce | AtLeastOnce | ExactlyOnce

  /** One publish request handed to the client library. */
  datatype Publish = Publish(topic: string, payload: seq<Byte>, qos: QoS, retain: bool)

  /** One subscribe request handed to the client library. */
  datatype Subscription = Subscription(topic: string, qos: QoS)
}
