/**
 * Mapping a dequeued kernel event to the host's hot-plug event
 * (hdmicec_event.cpp, the CEC_DQEVENT branch of `uevent_loop`).
 */
module HotPlug {
  import opened CecTypes

  /**
   * The `state` the worker computes for a kernel event code: 0 when the
   * hot-plug-detect pin went low, 1 when it went high, -1 (no event) for
   * any other code.
   */
  function HotPlugState(code: U32): (state: int)
    ensures state == 0 <==> code == CecEventPinHpdLow
    ensures state == 1 <==> code == CecEventPinHpdHigh
    ensures state == -1 <==> code != CecEventPinHpdLow && code != CecEventPinHpdHigh
  {
    if code == CecEventPinHpdLow then 0
    else if code == CecEventPinHpdHigh then 1
    else -1
  }

  /** The kernel event code that reports the pin at a given level. */
  function PinEventCode(connected: bool): (code: U32)
  {
    if connected then CecEventPinHpdHigh else CecEventPinHpdLow
  }

  /**
   * The hot-plug event for a kernel event, if the worker emits one: only
   * the two pin codes give an event, and it carries the pin level and the
   * fixed port identifier.
   */
  function HotPlugFor(e: KernelEvent, portId: int): (r: Option<HdmiEvent>)
    ensures r.Some? <==> e.event == CecEventPinHpdLow || e.event == CecEventPinHpdHigh
    ensures r.Some? ==> r.value.HotPlugEvent? && r.value.portId == portId
    ensures r.Some? ==> (r.value.connected == 0 || r.value.connected == 1)
    ensures r.Some? ==> PinEventCode(r.value.connected == 1) == e.event
  {
    var state := HotPlugState(e.event);
    if state >= 0 then Some(HotPlugEvent(state, portId)) else None
  }

  /** A pin change reported by the kernel reaches the host with the same level. */
  lemma HotPlugReportsPinLevel(connected: bool, portId: int)
    ensures HotPlugFor(KernelEvent(PinEventCode(connected)), portId)
         == Some(HotPlugEvent(if connected then 1 else 0, portId))
  {
  }
}
