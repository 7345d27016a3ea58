# HDMI CEC event worker — a Dafny model

This project models the decision logic of the background worker in
`hdmicec_event.cpp`. That file is the HDMI CEC hardware-abstraction shim: it
polls the kernel CEC device and turns what it reads into host events. The
worker (`uevent_loop`) polls the CEC device descriptor. On each readiness
report it does three things:

- it translates a received kernel frame (`struct cec_msg`) into the host's
  message event, and drops frames whose body is longer than 15 bytes
  (`validcecmessage`);
- it maps a dequeued kernel event (`struct cec_event`) to a hot-plug event,
  but only for the two hot-plug-detect pin codes;
- it hands each event to the host's callback, but only while the `enable` and
  `system_control` flags are both set.

Calling the callback is modelled as appending the event to an output
sequence. The model covers one iteration and, folded over a finite run of
iterations, the whole loop.

Files:

- `cec_types.dfy` (module `CecTypes`): the records involved. Their widths
  follow the Linux CEC interface: `cec_msg.len` and `cec_event.event` are
  unsigned 32-bit, and `cec_msg.msg` has 16 bytes. The host message body
  has 16 bytes and its `length` is a `size_t`, assumed at least 32 bits
  wide, as on the 32- and 64-bit Android ABIs this code targets. Event codes
  `CEC_EVENT_PIN_HPD_LOW` = 5 and `CEC_EVENT_PIN_HPD_HIGH` = 6. Poll bits
  `POLLIN` = 1 and `POLLPRI` = 2. `E2BIG` = 7.
- `message_translation.dfy` (module `MessageTranslation`): the frame
  translation, the length check, and a frame encoder used as the partner of
  the translation.
- `hot_plug.dfy` (module `HotPlug`): the kernel-event to hot-plug mapping.
- `uevent_loop.dfy` (module `UeventLoop`): the dispatch of one iteration, the
  loop over a run of iterations, and the worker's start.

The body length is `cecframe.len - 1`, computed in unsigned 32-bit
arithmetic. So a frame that declares length 0 wraps around to 4294967295
and is dropped. Under the `size_t` width assumption above, the host's
`length` keeps that value unchanged. `HDMI_CEC_PORT_ID` is defined in `hdmicec.h`, which is not part of
this model. Its value is a parameter (`portId`).

A control call counts as failed on any non-zero return (`if (!ret)`,
lines 82 and 111), not only on a negative one.

## Model

| member | source | states |
|---|---|---|
| `MessageTranslation.ValidCecMessage` | hdmicec_event.cpp:36-43 | returns -E2BIG exactly when the body length exceeds 15, and 0 exactly when it does not |
| `MessageTranslation.Initiator` | hdmicec_event.cpp:85 | the initiator `msg[0] >> 4` is the header byte divided by 16, so it is always below 16 |
| `MessageTranslation.Destination` | hdmicec_event.cpp:86 | the destination `msg[0] & 0x0f` is the header byte modulo 16, so it is always below 16 |
| `MessageTranslation.HeaderBlock` | hdmicec_event.cpp:85-86 | building a header block from two addresses below 16 and splitting it again gives back both addresses |
| `MessageTranslation.HeaderSplitRoundTrip` | hdmicec_event.cpp:85-86 | splitting a header byte into its nibbles loses nothing: re-joining them gives the same byte |
| `MessageTranslation.BodyLength` | hdmicec_event.cpp:87 | the body length is `len - 1` for len of at least 1, and wraps to 2^32 - 1 for len 0 |
| `MessageTranslation.CopiedBody` | hdmicec_event.cpp:88-92 | the corrected copy (see Findings): the body has 16 bytes; body[0] is frame byte 1; body[k] is frame byte k + 1 for every k below the length; every other byte stays 0 from the memset, where the source's loop also stores frame byte `len` at body[length] |
| `MessageTranslation.Decode` | hdmicec_event.cpp:83-99 | a received frame is forwarded exactly when it declares 1 to 16 bytes; every other frame, including length 0, is dropped |
| `MessageTranslation.TranslateMessage` | hdmicec_event.cpp:76-92 | filling the zeroed 16-byte body in place with the copy loop gives exactly Decode's result, and every write index stays inside the body |
| `MessageTranslation.DecodeContents` | hdmicec_event.cpp:85-92 | a forwarded message has the header nibbles as addresses and length `len - 1`, and its first `length` body bytes are the frame's bytes 1 to len - 1 |
| `MessageTranslation.DecodeReadsOnlyDeclaredBytes` | hdmicec_event.cpp:88-92 | with the corrected loop bound, two frames that agree on their declared bytes (and on byte 1) decode the same: no byte past the frame is read |
| `MessageTranslation.Encode` | hdmicec_event.cpp:85-92 | the kernel frame for a host message has length `length + 1`: the header block, then the body |
| `MessageTranslation.DecodeEncode` | hdmicec_event.cpp:83-92 | every message with addresses below 16, a body of at most 15 bytes and zeros past its length decodes back to itself from its frame |
| `MessageTranslation.EncodeDecode` | hdmicec_event.cpp:83-92 | re-encoding a forwarded message gives back the same length and the same declared bytes as the received frame |
| `MessageTranslation.CopyAsWritten` | hdmicec_event.cpp:88-92 | the source's loop (`ret < length`) on the zeroed 16-byte array fills body[0..length] from frame bytes 1..length+1, which needs length + 1 < 16 for its reads to stay inside the buffer; it matches the corrected body on the first `length` bytes and adds frame byte `length + 1`, past the declared frame, at body[length], where for len of at least 2 (body length at least 1) the corrected body has 0; for len 1 both store frame byte 1 at body[0] |
| `MessageTranslation.AsWrittenOverreadsFullFrame` | hdmicec_event.cpp:87-92 | some frame (len 16) passes the length check, yet its body length breaks CopyAsWritten's precondition: the copy as written reads frame byte 16, past the buffer |
| `HotPlug.HotPlugState` | hdmicec_event.cpp:106-116 | the state is 0 exactly for HPD_LOW, 1 exactly for HPD_HIGH, and -1 for every other code |
| `HotPlug.HotPlugFor` | hdmicec_event.cpp:113-124 | a hot-plug event exists exactly for the two pin codes; it has connected 0 or 1 and the fixed port id, and its level maps back to the kernel code that caused it |
| `HotPlug.HotPlugReportsPinLevel` | hdmicec_event.cpp:113-121 | a pin going high is reported as connected 1, and a pin going low as connected 0 |
| `UeventLoop.Dispatching` | hdmicec_event.cpp:70-74 | an iteration dispatches only when poll reported readiness (`err > 0`) and both `enable` and `system_control` are set; IterationEvents delivers nothing otherwise |
| `UeventLoop.ReceivedEvents` | hdmicec_event.cpp:77-103 | the CEC_RECEIVE branch delivers at most one event; none exactly when POLLIN is clear, the call returned non-zero, there is no callback or the length check drops the frame; otherwise the event is the decoded frame |
| `UeventLoop.DequeuedEvents` | hdmicec_event.cpp:105-128 | the CEC_DQEVENT branch delivers at most one event; none exactly when POLLPRI is clear, the call returned non-zero, there is no callback or the code is not a pin code; otherwise the event is the code's hot-plug event |
| `UeventLoop.IterationEvents` | hdmicec_event.cpp:67-133 | an iteration delivers at most two events; none on a poll timeout or failure, none while a gating flag is off, none without a callback; with two events, the message comes before the hot-plug event |
| `UeventLoop.IterationDelivers` | hdmicec_event.cpp:77-128 | the message event is delivered exactly when POLLIN is set, CEC_RECEIVE returned 0 and the frame passed the check; the hot-plug event exactly when POLLPRI is set, CEC_DQEVENT returned 0 and the code is a pin code; both only while dispatching and with a callback |
| `UeventLoop.RunIteration` | hdmicec_event.cpp:67-133 | running one iteration imperatively, with the in-place translation, delivers exactly the events of IterationEvents |
| `UeventLoop.DeliveredMessagesFit` | hdmicec_event.cpp:89-98 | every message an iteration delivers has a body of at most 15 bytes and addresses below 16 |
| `UeventLoop.Trace` | hdmicec_event.cpp:67-134 | the `while (true)` loop over a finite run: the events of each iteration in order, oldest first; characterised by TraceSnoc and TraceAppend |
| `UeventLoop.RunLoop` | hdmicec_event.cpp:67-134 | running the loop over a finite run of iterations delivers their events in order (Trace) |
| `UeventLoop.RunWorker` | hdmicec_event.cpp:57-67 | with a negative descriptor the worker delivers nothing; otherwise it runs the loop |
| `UeventLoop.TraceSnoc` | hdmicec_event.cpp:67-134 | one more iteration appends its events to the trace so far |
| `UeventLoop.TraceAppend` | hdmicec_event.cpp:67-134 | two stretches of the loop run one after the other deliver the two traces one after the other |
| `UeventLoop.PollFailureIsSkipped` | hdmicec_event.cpp:68-133 | an iteration with a poll timeout or failure delivers nothing, and the loop carries on unchanged after it |
| `UeventLoop.TraceSilentWhileGatedOff` | hdmicec_event.cpp:73-74 | while `enable` or `system_control` is off in every iteration, the whole run delivers nothing |
| `UeventLoop.TraceLengthBound` | hdmicec_event.cpp:77-128 | a run of n iterations delivers at most 2n events |
| `UeventLoop.TraceMessagesFit` | hdmicec_event.cpp:89-98 | over a whole run, no message with a body longer than 15 bytes, and no address of 16 or more, reaches the host |

## Left out

- The `poll` call and the `CEC_RECEIVE` and `CEC_DQEVENT` control calls are kernel I/O. Their results are inputs (`PollResult`): a return code plus the frame or event record.
- MessageTranslation.CopiedBody, MessageTranslation.Decode, MessageTranslation.TranslateMessage and the dispatch members (UeventLoop.ReceivedEvents, UeventLoop.IterationEvents, UeventLoop.RunIteration, UeventLoop.Trace, UeventLoop.RunLoop, UeventLoop.RunWorker) use the corrected copy loop bound: for len of at least 2 (body length at least 1), body[length] is 0 where the source stores frame byte `len`; for len 1 the model and the source both store frame byte 1 at body[0]; and the source's read past the 16-byte frame buffer for a 16-byte frame is not modelled by them (CopyAsWritten and AsWrittenOverreadsFullFrame model it).
- The thread setup is left out because it is OS plumbing: `init_uevent_thread`, `pthread_create`, `prctl`, `setpriority` (lines 54-55, 139-150), and the poll descriptor setup (lines 63-65).
- The host's `enable`, `system_control` and `event_callback` fields are read without synchronisation by the worker. They are modelled as a per-iteration snapshot (`Snapshot`), so the data race is not modelled.
- The endless `while (true)` loop is modelled as a finite run of iterations (`RunLoop`).
- The `ALOGI`/`ALOGE`/`printf` logging is left out, including the loop that logs each frame byte (lines 93-94).
- The `dev` pointer stored in every event, the callback argument and the callback's own effects are opaque host state. They are left out.
- The host event is one C struct whose message and hot-plug parts share a union. The worker reuses it for the hot-plug event after delivering the message. The model gives each event as a separate value, so this memory reuse is not modelled.
- Only the struct fields the worker uses are modelled. The kernel and host headers are not part of this model, so their widths are assumptions (listed above).

## Findings

| source | as written | input that shows it | evidently intended | confidence | as-written member | corrected member |
|---|---|---|---|---|---|---|
| hdmicec_event.cpp:90-92 | the loop runs `ret` from 0 to `length - 1` and writes `body[ret + 1] = msg[ret + 2]`. So it fills body[0..length], one byte more than the body length, and reads frame byte `len` | a 16-byte frame (len 16, body length 15): it passes `validcecmessage`, and the loop then reads `msg[16]`, past the 16-byte `msg` array. For shorter frames, body[length] receives frame byte `len`, which is outside the declared frame | copy only body[k] = msg[k + 1] for k below `length` (loop bound `ret + 1 < length`), so only the declared frame bytes are read, apart from frame byte 1, which line 88 copies even for a 1-byte frame | not executed | `MessageTranslation.AsWrittenOverreadsFullFrame` | `MessageTranslation.DecodeReadsOnlyDeclaredBytes` |

The rest of the model (`TranslateMessage`, `Decode` and the dispatch) uses
the corrected loop bound. For every frame of up to 15 bytes, the host-visible
body (its first `length` bytes) is the same under both versions
(`CopyAsWritten`'s contract).
