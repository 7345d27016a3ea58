/**
 * The records that one iteration of the CEC polling worker reads and
 * produces: the kernel's received frame and device event, the host's
 * message and hot-plug events, and the inputs of one poll iteration.
 *
 * Only the fields the worker touches are modelled. Widths follow the
 * Linux CEC interface (linux/cec.h) and the host HDMI-CEC plugin header
 * (hardware/hdmi_cec.h); neither header is part of this model.
 */
module CecTypes {

  datatype Option<T> = None | Some(value: T)

  /** An unsigned 32-bit value, the width of `cec_msg.len` and `cec_event.event`. */
  newtype U32 = x: int | 0 <= x < 0x1_0000_0000

  const U32Modulus: int := 0x1_0000_0000

  /** Size of the kernel frame buffer `cec_msg.msg` (CEC_MAX_MSG_SIZE). */
  const CecMaxMsgSize: nat := 16

  /** Size of the host message body `cec_message_t.body`. */
  const BodySize: nat := 16

  /** Largest body length the worker forwards (the bound in `validcecmessage`). */
  const MaxBodyLength: nat := 15

  /** E2BIG from errno.h; `validcecmessage` returns its negation. */
  const E2BIG: int := 7

  /** Kernel event codes for the hot-plug-detect pin (linux/cec.h). */
  const CecEventPinHpdLow: U32 := 5
  const CecEventPinHpdHigh: U32 := 6

  /** Poll readiness bits (asm-generic/poll.h); `revents` is a 16-bit short. */
  const PollIn: bv16 := 0x0001
  const PollPri: bv16 := 0x0002

  /** The 16 raw bytes of a kernel frame: header block, opcode, operands. */
  type MsgBuffer = s: seq<bv8> | |s| == CecMaxMsgSize witness seq(CecMaxMsgSize, _ => 0)

  /** `struct cec_msg` as read by CEC_RECEIVE: `len` counts the header byte. */
  datatype CecFrame = CecFrame(len: U32, msg: MsgBuffer)

  /** `struct cec_event` as read by CEC_DQEVENT: only the event code is used. */
  datatype KernelEvent = KernelEvent(event: U32)

  /**
   * The host's `cec_message_t`: logical addresses of the two ends, the
   * body length (a size_t, assumed at least 32 bits wide as on the 32-
   * and 64-bit Android ABIs, so it holds every 32-bit value unchanged)
   * and the 16-byte body.
   */
  datatype CecMessage = CecMessage(initiator: nat, destination: nat, length: nat, body: seq<bv8>)

  /**
   * The host's `hdmi_event_t`, tagged by its type. The `dev` pointer the
   * worker stores in every event is opaque host state and is left out.
   */
  datatype HdmiEvent =
    | MessageEvent(cec: CecMessage)
    | HotPlugEvent(connected: int, portId: int)

  /** The return code of a control call together with the record it filled. */
  datatype IoctlReturn<T> = IoctlReturn(ret: int, value: T)

  /**
   * The shared context fields the worker reads in one iteration, taken as
   * a snapshot: the two gating flags and whether a callback is registered.
   */
  datatype Snapshot = Snapshot(enable: bool, systemControl: bool, hasCallback: bool)

  /**
   * What the kernel answered in one iteration: the poll return value, the
   * returned event bits, and the results of the two control calls (each
   * consulted only when its branch is taken).
   */
  datatype PollResult = PollResult(
    err: int,
    revents: bv16,
    receive: IoctlReturn<CecFrame>,
    dequeue: IoctlReturn<KernelEvent>)

  /** One pass of the polling loop: the context snapshot and the kernel's answers. */
  datatype Tick = Tick(snapshot: Snapshot, poll: PollResult)
}
