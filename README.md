# Button-to-broker relay: a Dafny model

The system has two programs that talk only through an MQTT broker.

- **Device firmware** (`main/app_main.c`, ESP32):
  - A poll task reads a button pin every tick. On each LOW-to-HIGH transition it publishes `"pressed"` to `/esp32_gpio`, but only while the MQTT client handle is set.
  - The MQTT event callback subscribes to `/esp32_commands` on every connection and only logs everything else.
  - When the broker URL is to be typed in, a loop reads it from the console into a 128-byte line buffer.
- **Host relay client** (`computerb/mqtt_client/src/main.rs`):
  - It subscribes to `/esp_gpt_out`.
  - For each message on that topic it caps the text at 500 bytes and appends it to a conversation history. It then drops the oldest entries beyond 10.
  - It sends the history to a chat-completion service and takes the text of the first choice.
  - It caps that reply, appends it to the history, trims the history again and publishes the reply to `/client_gpt`.

Modules, one concept each:

| file | module | what it holds |
|---|---|---|
| `utf8.dfy` | `Utf8` | bytes and the UTF-8 character-boundary rule of Rust's `str` |
| `mqtt.dfy` | `Mqtt` | publish and subscribe requests, recorded as values |
| `truncate.dfy` | `Truncation` | `truncate_message` as written, and the corrected cap |
| `history.dfy` | `History` | the bounded FIFO that `push_back` plus the `pop_front` loop keeps |
| `relay.dfy` | `Relay` | choice selection, the per-event step function, and the `RelayClient` class whose trimming loop is proved against that step; `IsRequest` is the topic filter (main.rs:112), `ReplyPublish` the reply publish (main.rs:180-185) |
| `gpio.dfy` | `Gpio` | the rising-edge poll loop as a method, with its specification `Presses`; `RisingEdge` is the test at app_main.c:107, `PressPublish` the publish at app_main.c:111-118 |
| `device_events.dfy` | `DeviceEvents` | the MQTT event callback of the device |
| `broker_url.dfy` | `BrokerUrl` | the console URL reader, as a method over the 128-byte array, with its specification; `Storable` is the test `c > 0 && c < 127` at app_main.c:174 |

Facts about the code that the model keeps:

- The device only publishes the fixed `"pressed"` and logs inbound data. It makes no chat-completion call.
- The relay's history is bounded at 10 entries (main.rs:9, 125-127).
- On a failed service call, the capped inbound message stays in the history and nothing is published (main.rs:194-197).

## Model

| member | source | states |
|---|---|---|
| `Truncation.CanTruncate` | computerb/mqtt_client/src/main.rs:14-17 | the Rust code returns without panicking exactly when the message fits, or `max_len >= 3` and byte `max_len - 3` is not a UTF-8 continuation byte (or is index 0) |
| `Truncation.TruncateMessage` | computerb/mqtt_client/src/main.rs:13-19 | a message of at most `max_len` bytes comes back unchanged; a longer one becomes its first `max_len - 3` bytes followed by "...", exactly `max_len` bytes long; this is defined where the Rust code does not panic (`max_len >= 3` and a char boundary at `max_len - 3`) |
| `Truncation.TruncateMessagePanicsMidCharacter` | computerb/mqtt_client/src/main.rs:17 | a 501-byte valid UTF-8 message whose cut at byte 497 falls inside "é", so the slice panics |
| `Truncation.TruncateOnBoundary` | computerb/mqtt_client/src/main.rs:13-19 | corrected cap: never longer than `max_len`; a message that fits is unchanged; a longer one is a prefix cut at the last character boundary not past `max_len - 3`, followed by "..." |
| `Truncation.TruncateOnBoundaryAgrees` | computerb/mqtt_client/src/main.rs:13-19 | wherever the original does not panic, the corrected cap returns the same bytes |
| `Truncation.TruncateOnBoundaryAtSplitCharacter` | computerb/mqtt_client/src/main.rs:17 | on the panicking message, the corrected cap keeps the 496 bytes before "é" and appends "..." |
| `Truncation.TruncateOnBoundaryIdempotent` | computerb/mqtt_client/src/main.rs:13-19 | capping a capped message changes nothing |
| `Utf8.FloorCharBoundary` | computerb/mqtt_client/src/main.rs:17 | the largest character boundary not above an index, with no boundary between it and the index |
| `History.Bounded` | computerb/mqtt_client/src/main.rs:124-127 | after trimming, the length is the smaller of the length and the cap, and the result is a suffix of the input |
| `History.BoundedAppend` | computerb/mqtt_client/src/main.rs:116-127 | append-then-trim keeps the new entry last and the older survivors in their order, dropping only the oldest; below the cap nothing is dropped |
| `History.BoundedAppendTwice` | computerb/mqtt_client/src/main.rs:116-127 | two pushes, each followed by the trim: the second entry is last, the result is a suffix of old + both, and exactly min(old length + 2, 10) entries survive |
| `History.BoundedElements` | computerb/mqtt_client/src/main.rs:124-127 | trimming never invents an entry |
| `Relay.SelectReply` | computerb/mqtt_client/src/main.rs:35-42 | the reply is the first choice's text; no choices and a first choice without text are the two errors, and there are no other errors |
| `Relay.CallService` | computerb/mqtt_client/src/main.rs:33-42 | a failed call is an error; otherwise the result is exactly the choice selection on the response |
| `Relay.Cap` | computerb/mqtt_client/src/main.rs:113 | a capped message is at most 500 bytes, and a message that fits is unchanged |
| `Relay.RequestHistory` | computerb/mqtt_client/src/main.rs:113-127 | the history sent to the service ends with the capped inbound text and has exactly min(old length + 1, 10) entries |
| `Relay.RequestHistoryKeepsNewest` | computerb/mqtt_client/src/main.rs:116-127 | the history sent to the service is a suffix of the old history with the capped inbound text appended: only the oldest entries are dropped |
| `Relay.Step` | computerb/mqtt_client/src/main.rs:106-209 | one event: history within 10 entries after a request; at most one publish, always to `/client_gpt` at QoS 0, not retained and within 500 bytes; any other event or topic changes nothing and publishes nothing |
| `Relay.StepOnFailure` | computerb/mqtt_client/src/main.rs:194-197 | on a failed call, nothing is published; the capped inbound text is the newest entry; the history is a suffix of the old one plus that text, exactly min(old length + 1, 10) entries long |
| `Relay.StepOnSuccess` | computerb/mqtt_client/src/main.rs:160-192 | on success, exactly one publish of the capped reply to `/client_gpt`; that reply is the newest entry; the history is a suffix of old + inbound + reply, exactly min(old length + 2, 10) entries long |
| `Relay.StepKeepsEntriesFit` | computerb/mqtt_client/src/main.rs:113-175 | no event stores an entry longer than 500 bytes |
| `Relay.Run` | computerb/mqtt_client/src/main.rs:104-210 | the event loop, with one service answer per event, publishes at most once per event; a run with no message on `/esp_gpt_out` leaves the history unchanged and publishes nothing |
| `Relay.RunBounded` | computerb/mqtt_client/src/main.rs:104-210 | over any sequence of events, the history stays within 10 entries, each within 500 bytes, with at most one publish per event |
| `Relay.RunPublishesReplies` | computerb/mqtt_client/src/main.rs:180-185 | every publish of the relay goes to `/client_gpt` at QoS 0, not retained, within 500 bytes |
| `Relay.OtherEventsIgnored` | computerb/mqtt_client/src/main.rs:112 | a publish on any topic other than `/esp_gpt_out`, a ConnAck, any other packet and a poll error leave the history unchanged and publish nothing |
| `Relay.HelloWorld` | computerb/mqtt_client/src/main.rs:112-192 | "hello" on `/esp_gpt_out` answered by "world" gives one publish of "world" to `/client_gpt` and the history ["hello", "world"] |
| `Relay.RelayClient.constructor` | computerb/mqtt_client/src/main.rs:101 | the history starts empty, and nothing has been published |
| `Relay.RelayClient.Remember` | computerb/mqtt_client/src/main.rs:116-127 | `push_back` and the `pop_front` loop leave the old history with the new entry appended, cut to its newest (at most 10) entries |
| `Relay.RelayClient.HandleEvent` | computerb/mqtt_client/src/main.rs:107-199 | the in-place handler keeps the bounds invariant and leaves the history and publish log that `Step` specifies |
| `Gpio.Presses` | main/app_main.c:102-127 | there are never more publishing ticks than ticks |
| `Gpio.PressesExtend` | main/app_main.c:104-126 | one more tick publishes exactly when it reads 1, `last_state` was false and the handle is set |
| `Gpio.PressesExactlyAtReadyEdges` | main/app_main.c:107-109 | a tick publishes if and only if it reads 1, the previous tick did not (none before the first), and the handle is set; the ticks come in order |
| `Gpio.PollLoop` | main/app_main.c:96-131 | the loop publishes exactly at the ticks `Presses` gives; every publish is "pressed" to `/esp32_gpio` at QoS 0, not retained; the final `last_state` is whether the last sample was 1 |
| `Gpio.ExampleTrace` | main/app_main.c:104-126 | samples 0,0,1,1,1,0,1 fire at the 3rd and 7th ticks |
| `Gpio.HeldButtonFiresOnce` | main/app_main.c:107-126 | while the level stays 1, no later tick is a rising edge or publishes |
| `Gpio.PressWithoutHandleIsLost` | main/app_main.c:109-126 | a rising edge while `mqtt_client_handle` is still NULL is not published then, nor on any following tick while the button is held |
| `Gpio.PressAfterReleaseIsSeen` | main/app_main.c:107-126 | after a sample other than 1, a later 1 is preceded by a rising edge in between |
| `DeviceEvents.HandleEvent` | main/app_main.c:54-86 | a connection makes exactly one subscribe, to `/esp32_commands` at QoS 0; any other event makes no call |
| `DeviceEvents.OneSubscribePerConnection` | main/app_main.c:55-61 | over any events there is one subscribe per connection, always to `/esp32_commands` at QoS 0 |
| `DeviceEvents.DataIsOnlyLogged` | main/app_main.c:68-74 | inbound data, on any topic, adds no client call |
| `BrokerUrl.Accepted` | main/app_main.c:174-177 | the stored characters are all in 1..126 and no more than were read |
| `BrokerUrl.ReadFrom` | main/app_main.c:169-179 | the read loop from any point only adds to the buffer, never beyond its capacity, and stops on a newline only with room left for the terminator |
| `BrokerUrl.ReadLine` | main/app_main.c:169-179 | the loop over the 128-byte buffer; every outcome is explained by the input (`Explains`): the buffer holds exactly the storable characters before the newline, or before the point where 128 were stored; a newline stops the loop with fewer than 128 stored; a full buffer means no newline was seen |
| `BrokerUrl.ReadFromExplained` | main/app_main.c:169-179 | from any point of the loop, the outcome is explained by the input (see `ReadLine`) |
| `BrokerUrl.AcceptedGrows` | main/app_main.c:174-177 | reading more input only adds characters at the end of the buffer |
| `BrokerUrl.AcceptedAllStorable` | main/app_main.c:174-177 | storable input is stored whole, character for character |
| `BrokerUrl.FullBufferIsUnterminated` | main/app_main.c:169-179 | once 128 storable characters arrive with no newline, the loop has exited with the buffer full and no terminator |
| `BrokerUrl.ReadIntoBuffer` | main/app_main.c:164-179 | the array loop ends as `ReadLine` specifies; on a newline it writes the terminator at index `count`, below 128 |
| `BrokerUrl.StartClient` | main/app_main.c:158-186 | without the console option the configured URI is used; with it, a configured URI other than "FROM_STDIN" aborts, and a started URI has fewer than 128 characters, all in 1..126. A started URI is the storable text typed before the first newline (`TypedLine`). Still polling means no newline yet and fewer than 128 stored. Unterminated means the first 128 storable characters arrived with no newline (`FullLine`) |
| `BrokerUrl.UnterminatedUrlExample` | main/app_main.c:169-181 | 128 'a' typed without a newline leave the URI buffer with no terminator |
| `BrokerUrl.StartClientTerminated` | main/app_main.c:164-181 | corrected start: never unterminated. Without the console option, or with a wrong configured URI, it behaves as `StartClient`. A started URI is the text before the first newline, if that has fewer than 127 storable characters; otherwise it is the first 127 storable characters of a line with no newline among them. Still polling means no newline yet and fewer than 127 stored |
| `BrokerUrl.TerminatedAgreesOnShortLines` | main/app_main.c:169-181 | wherever the original starts with a terminated URI, the corrected start gives the same URI |
| `BrokerUrl.TerminatedUrlExample` | main/app_main.c:169-181 | on 128 'a' the corrected start takes the first 127 as the URI |

## Left out

- `Relay.Cap`: where `truncate_message` at main.rs:113 and main.rs:161 would panic, the modelled relay goes on with a cut at the last character boundary, instead of stopping (see Findings).
- `Truncation.TruncateMessage`: its requires leaves out the inputs on which Rust panics, which aborts the relay. Those are a cut inside a character and a `max_len` below 3 on a long message. The panic is exhibited by `TruncateMessagePanicsMidCharacter`, not modelled as a result. The relay model uses `TruncateOnBoundary` (see Findings).
- `String::from_utf8_lossy` on the inbound payload is not modelled. The payload is taken as already-decoded text bytes.
- Message roles and the other `ChatCompletionMessage` fields are not modelled. All entries are "assistant" text. The copy from `VecDeque` to `Vec` is not modelled either: it is an order-preserving copy.
- The chat-completion service is a function from the history to a response: a transport failure, or a list of choices. `Relay.Run` takes one such function per event, so equal histories may be answered differently. The HTTP call, model name, temperature, client construction and environment-variable lookup are left out; they are foreign calls, configuration and a float.
- A publish that the MQTT library fails to send is still recorded. The relay only logs that error, and its history is the same either way.
- Logging, the ConnAck message and the 100 ms sleep after a poll error are left out. They are I/O and timing.
- The poll task is modelled over a finite run of ticks. The infinite loop, the 50 ms `vTaskDelay`, `gpio_get_level` and the GPIO setup are hardware and timing. The global handle shared with the MQTT task is a per-tick boolean input; the race between the two tasks is not modelled.
- `msg_id` return values and the error-event logging of the device callback are left out; they only feed logs.
- `esp_mqtt_client_init` returning NULL is not modelled. `Started` stands for a stored, non-NULL handle. The client's registration and start calls are foreign.
- Cells of `line` past `count` are uninitialised in C. The model says nothing about them.
- Wi-Fi, NVS, netif bring-up and task creation are left out: they are platform setup.

## Findings

| source | as written | input that shows it | evidently intended | confidence | as-written member | corrected member |
|---|---|---|---|---|---|---|
| computerb/mqtt_client/src/main.rs:17 | slices `&msg[..max_len - 3]` without checking that byte `max_len - 3` starts a character; Rust panics on such a slice | 496 × 'a', then "é", then "aaa" (501 bytes): byte 497 is inside "é" | cut at the last character boundary at or below `max_len - 3`, then append "..." | not executed; high | `Truncation.TruncateMessagePanicsMidCharacter` | `Truncation.TruncateOnBoundary` |
| main/app_main.c:169-181 | stores up to 128 characters in `char line[128]` and writes `'\0'` only on a newline; `line` is then printed with `%s` and used as the broker URI | 128 × 'a' with no newline: `line` has no terminator, so the string runs past the buffer | stop at 127 stored characters and always write the terminator | not executed; high | `BrokerUrl.UnterminatedUrlExample` | `BrokerUrl.StartClientTerminated` |
