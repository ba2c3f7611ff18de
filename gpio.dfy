/** The device's button poll loop (`gpio_task`): a one-bit rising-edge detector
    that publishes "pressed" on every LOW-to-HIGH transition seen while the MQTT
    client handle is set. */
module Gpio {
  import opened Utf8
  import opened Mqtt

  /** Topic of every button-press publish. */
  const BUTTON_TOPIC: string := "/esp32_gpio"

  /** The payload "pressed"; a length of 0 makes the client library take the
      length of the C string, so these seven bytes are sent. */
  const PRESSED: seq<Byte> := [0x70, 0x72, 0x65, 0x73, 0x73, 0x65, 0x64]

  /** The publish issued for one press: QoS 0, not retained. */
  function PressPublish(): Publish {
    Publish(BUTTON_TOPIC, PRESSED, AtMostOnce, false)
  }

  /** `last_state` once the given samples have been read: whether the last one
      read 1; false before the first tick. */
  predicate LastHigh(samples: seq<int>) {
    |samples| > 0 && samples[|samples| - 1] == 1
  }

  /** Tick `i` sees a rising edge: it reads 1 and the tick before did not. */
  predicate RisingEdge(samples: seq<int>, i: nat)
    requires i < |samples|
  {
    samples[i] == 1 && !(i > 0 && samples[i - 1] == 1)
  }

  /** Strictly increasing tick indices. */
  predicate Increasing(ticks: seq<nat>) {
    forall j, k :: 0 <= j < k < |ticks| ==> ticks[j] < ticks[k]
  }

  /** The ticks that publish, in order: rising edges at which the client
      handle was set (`ready`). */
  function Presses(samples: seq<int>, ready: seq<bool>): (r: seq<nat>)
    requires |ready| == |samples|
    ensures |r| <= |samples|
    decreases |samples|
  {
    if |samples| == 0 then []
    else
      var n := |samples| - 1;
      Presses(samples[..n], ready[..n]) + (if RisingEdge(samples, n) && ready[n] then [n] else [])
  }

  /** A tick publishes exactly when it is a rising edge and the client handle
      is set then; the publishing ticks come in tick order. */
  lemma {:induction false} PressesExactlyAtReadyEdges(samples: seq<int>, ready: seq<bool>)
    requires |ready| == |samples|
    ensures var r := Presses(samples, ready);
            && (forall i: nat :: i in r <==> i < |samples| && RisingEdge(samples, i) && ready[i])
            && Increasing(r)
            && (forall k :: 0 <= k < |r| ==> r[k] < |samples|)
    decreases |samples|
  {
    if |samples| > 0 {
      var n := |samples| - 1;
      PressesExactlyAtReadyEdges(samples[..n], ready[..n]);
      assert forall i: nat :: i < n ==> RisingEdge(samples[..n], i) == RisingEdge(samples, i);
    }
  }

  /** One more tick: the ticks that publish over `i + 1` ticks are those over
      `i` ticks, plus tick `i` when it is a rising edge with the handle set. */
  lemma {:induction false} PressesExtend(samples: seq<int>, ready: seq<bool>, i: nat)
    requires |ready| == |samples| && i < |samples|
    ensures Presses(samples[..i + 1], ready[..i + 1])
            == Presses(samples[..i], ready[..i])
               + (if samples[i] == 1 && !LastHigh(samples[..i]) && ready[i] then [i] else [])
  {
    assert samples[..i + 1][..i] == samples[..i] && ready[..i + 1][..i] == ready[..i];
  }

  /** The poll loop run over a finite stretch of ticks: `samples[i]` is what
      `gpio_get_level` returns at tick `i`, `ready[i]` whether
      `mqtt_client_handle` is non-NULL then. It returns the ticks that
      published, the publishes and the final `last_state`. */
  method PollLoop(samples: seq<int>, ready: seq<bool>) returns (fired: seq<nat>, publishes: seq<Publish>, lastState: bool)
    requires |ready| == |samples|
    ensures fired == Presses(samples, ready)
    ensures forall i :: 0 <= i < |samples| ==> (i in fired <==> RisingEdge(samples, i) && ready[i])
    ensures forall k :: 0 <= k < |fired| ==> fired[k] < |samples|
    ensures |publishes| == |fired|
    ensures forall k :: 0 <= k < |publishes| ==> publishes[k] == PressPublish()
    ensures lastState == LastHigh(samples)
  {
    lastState := false;
    fired, publishes := [], [];
    var i := 0;
    while i < |samples|
      invariant 0 <= i <= |samples|
      invariant lastState == LastHigh(samples[..i])
      invariant fired == Presses(samples[..i], ready[..i])
      invariant |publishes| == |fired|
      invariant forall k :: 0 <= k < |publishes| ==> publishes[k] == PressPublish()
    {
      PressesExtend(samples, ready, i);
      var level := samples[i];
      if level == 1 && !lastState {
        if ready[i] {
          publishes := publishes + [PressPublish()];
          fired := fired + [i];
        }
      }
      lastState := level == 1;
      i := i + 1;
    }
    assert samples[..i] == samples && ready[..i] == ready;
    PressesExactlyAtReadyEdges(samples, ready);
  }

  /** The trace 0,0,1,1,1,0,1 with the client always connected publishes at
      the 3rd and the 7th tick. */
  lemma ExampleTrace()
    ensures Presses([0, 0, 1, 1, 1, 0, 1], [true, true, true, true, true, true, true]) == [2, 6]
  {
    var s := [0, 0, 1, 1, 1, 0, 1];
    var t := [true, true, true, true, true, true, true];
    var fired: seq<nat> := [];
    for i := 0 to 7
      invariant Presses(s[..i], t[..i]) == fired
      invariant fired == if i <= 2 then [] else if i <= 6 then [2] else [2, 6]
    {
      PressesExtend(s, t, i);
      if s[i] == 1 && !LastHigh(s[..i]) {
        fired := fired + [i];
      }
    }
    assert s[..7] == s && t[..7] == t;
  }

  /** A held button fires once: while the level stays 1 after a tick, no later
      tick of that stretch is a rising edge, so nothing publishes again. */
  lemma {:induction false} HeldButtonFiresOnce(samples: seq<int>, ready: seq<bool>, i: nat, j: nat)
    requires |ready| == |samples|
    requires i < j < |samples|
    requires forall k :: i <= k <= j ==> samples[k] == 1
    ensures !RisingEdge(samples, j)
    ensures j !in Presses(samples, ready)
  {
    assert samples[j - 1] == 1;
    PressesExactlyAtReadyEdges(samples, ready);
  }

  /** A press seen while `mqtt_client_handle` is still NULL (`ready` false:
      the client has not been created yet) is lost: that tick does not
      publish, and neither does any following tick while the button stays
      down. */
  lemma {:induction false} PressWithoutHandleIsLost(samples: seq<int>, ready: seq<bool>, i: nat, j: nat)
    requires |ready| == |samples|
    requires i <= j < |samples|
    requires !ready[i]
    requires forall k :: i <= k <= j ==> samples[k] == 1
    ensures j !in Presses(samples, ready)
  {
    PressesExactlyAtReadyEdges(samples, ready);
    if i < j {
      HeldButtonFiresOnce(samples, ready, i, j);
    }
  }

  /** Releasing and pressing again is seen: if tick `k` reads something other
      than 1 and a later tick `l` reads 1, some tick after `k` and not after
      `l` is a rising edge. */
  lemma {:induction false} PressAfterReleaseIsSeen(samples: seq<int>, k: nat, l: nat)
    requires k < l < |samples|
    requires samples[k] != 1 && samples[l] == 1
    ensures exists m :: k < m <= l && RisingEdge(samples, m)
    decreases l
  {
    if samples[l - 1] == 1 {
      PressAfterReleaseIsSeen(samples, k, l - 1);
    } else {
      assert RisingEdge(samples, l);
    }
  }
}
