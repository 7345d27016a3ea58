/**
 * The decision part of the polling worker `uevent_loop`
 * (hdmicec_event.cpp): which events one iteration hands to the host
 * callback, and in what order, given what poll and the two control calls
 * returned. Handing an event to the callback is modelled as appending it
 * to the iteration's output sequence.
 */
module UeventLoop {
  import opened CecTypes
  import opened MessageTranslation
  import opened HotPlug

  /** Poll reported the descriptor ready and both gating flags are set. */
  predicate Dispatching(s: Snapshot, p: PollResult)
  {
    p.err > 0 && s.enable && s.systemControl
  }

  /**
   * The message event delivered by the CEC_RECEIVE branch, if any: none
   * without the POLLIN bit, after a non-zero return, for a frame the
   * length check drops, or without a callback; otherwise the decoded frame.
   */
  function ReceivedEvents(s: Snapshot, p: PollResult): (events: seq<HdmiEvent>)
    ensures |events| <= 1
    ensures events == [] <==>
      p.revents & PollIn == 0 || p.receive.ret != 0 || !s.hasCallback || Decode(p.receive.value).None?
    ensures |events| == 1 ==> events[0].MessageEvent? && Decode(p.receive.value) == Some(events[0].cec)
  {
    if p.revents & PollIn != 0 && p.receive.ret == 0 && s.hasCallback then
      match Decode(p.receive.value)
      case Some(m) => [MessageEvent(m)]
      case None => []
    else []
  }

  /**
   * The hot-plug event delivered by the CEC_DQEVENT branch, if any: none
   * without the POLLPRI bit, after a non-zero return, for a code other
   * than the two pin codes, or without a callback; otherwise the pin event.
   */
  function DequeuedEvents(s: Snapshot, p: PollResult, portId: int): (events: seq<HdmiEvent>)
    ensures |events| <= 1
    ensures events == [] <==>
      p.revents & PollPri == 0 || p.dequeue.ret != 0 || !s.hasCallback
      || HotPlugFor(p.dequeue.value, portId).None?
    ensures |events| == 1 ==> events[0].HotPlugEvent? && HotPlugFor(p.dequeue.value, portId) == Some(events[0])
  {
    if p.revents & PollPri != 0 && p.dequeue.ret == 0 && s.hasCallback then
      match HotPlugFor(p.dequeue.value, portId)
      case Some(e) => [e]
      case None => []
    else []
  }

  /**
   * The events one iteration delivers: nothing on a poll timeout or
   * failure or while a gating flag is off; otherwise the received message
   * (if any) followed by the hot-plug event (if any).
   */
  function IterationEvents(s: Snapshot, p: PollResult, portId: int): (events: seq<HdmiEvent>)
    ensures |events| <= 2
    ensures p.err <= 0 ==> events == []
    ensures !s.enable || !s.systemControl || !s.hasCallback ==> events == []
    ensures |events| == 2 ==> events[0].MessageEvent? && events[1].HotPlugEvent?
  {
    if Dispatching(s, p) then ReceivedEvents(s, p) + DequeuedEvents(s, p, portId) else []
  }

  /**
   * Which events an iteration delivers: the message event exactly when
   * the POLLIN bit is set, CEC_RECEIVE succeeded and the frame passed the
   * length check; the hot-plug event exactly when the POLLPRI bit is set,
   * CEC_DQEVENT succeeded and the code is a pin code; both only while
   * dispatching and with a callback registered.
   */
  lemma IterationDelivers(s: Snapshot, p: PollResult, portId: int)
    ensures forall m :: MessageEvent(m) in IterationEvents(s, p, portId) <==>
      Dispatching(s, p) && s.hasCallback && p.revents & PollIn != 0 && p.receive.ret == 0
      && Decode(p.receive.value) == Some(m)
    ensures forall e :: e in IterationEvents(s, p, portId) && e.HotPlugEvent? <==>
      Dispatching(s, p) && s.hasCallback && p.revents & PollPri != 0 && p.dequeue.ret == 0
      && HotPlugFor(p.dequeue.value, portId) == Some(e)
  {
  }

  /**
   * One iteration as the worker runs it: branch on the poll result, check
   * the gating flags, then serve the POLLIN and POLLPRI bits in that
   * order, translating the frame in place.
   */
  method RunIteration(s: Snapshot, p: PollResult, portId: int) returns (events: seq<HdmiEvent>)
    ensures events == IterationEvents(s, p, portId)
  {
    events := [];
    if p.err == 0 {
      return;
    } else if p.err > 0 {
      if !s.enable || !s.systemControl {
        return;
      }
      if p.revents & PollIn != 0 {
        if p.receive.ret == 0 {
          var message := TranslateMessage(p.receive.value);
          if message.Some? && s.hasCallback {
            events := events + [MessageEvent(message.value)];
          }
        }
      }
      if p.revents & PollPri != 0 {
        if p.dequeue.ret == 0 {
          var state := HotPlugState(p.dequeue.value.event);
          if state >= 0 && s.hasCallback {
            events := events + [HotPlugEvent(state, portId)];
          }
        }
      }
    } else {
      return;
    }
  }

  /** Every message the host receives is one the length check let through. */
  lemma DeliveredMessagesFit(s: Snapshot, p: PollResult, portId: int)
    ensures forall m :: MessageEvent(m) in IterationEvents(s, p, portId) ==>
      m.length <= MaxBodyLength && m.initiator < 16 && m.destination < 16
  {
  }

  // ---- The loop folded over a finite run of iterations ----

  /** The events delivered over a run of iterations, oldest first. */
  function Trace(ticks: seq<Tick>, portId: int): (events: seq<HdmiEvent>)
  {
    if ticks == [] then []
    else
      var last := ticks[|ticks| - 1];
      Trace(ticks[..|ticks| - 1], portId) + IterationEvents(last.snapshot, last.poll, portId)
  }

  /** The worker's endless loop, run for as many iterations as `ticks` holds. */
  method RunLoop(ticks: seq<Tick>, portId: int) returns (events: seq<HdmiEvent>)
    ensures events == Trace(ticks, portId)
  {
    events := [];
    var i := 0;
    while i < |ticks|
      invariant 0 <= i <= |ticks|
      invariant events == Trace(ticks[..i], portId)
    {
      var delivered := RunIteration(ticks[i].snapshot, ticks[i].poll, portId);
      events := events + delivered;
      assert ticks[..i + 1][..i] == ticks[..i];
      i := i + 1;
    }
    assert ticks[..i] == ticks;
  }

  /**
   * The worker from its start: with an invalid descriptor it returns at
   * once without polling; otherwise it runs the loop.
   */
  method RunWorker(fd: int, ticks: seq<Tick>, portId: int) returns (events: seq<HdmiEvent>)
    ensures fd < 0 ==> events == []
    ensures fd >= 0 ==> events == Trace(ticks, portId)
  {
    if fd < 0 {
      return [];
    }
    events := RunLoop(ticks, portId);
  }

  /** Running two stretches of the loop one after the other delivers both traces in order. */
  lemma {:induction false} TraceAppend(a: seq<Tick>, b: seq<Tick>, portId: int)
    ensures Trace(a + b, portId) == Trace(a, portId) + Trace(b, portId)
    decreases |b|
  {
    if b == [] {
      assert a + b == a;
    } else {
      var b', last := b[..|b| - 1], b[|b| - 1];
      var tail := IterationEvents(last.snapshot, last.poll, portId);
      assert (a + b)[..|a + b| - 1] == a + b';
      assert (a + b)[|a + b| - 1] == last;
      calc {
        Trace(a + b, portId);
        Trace(a + b', portId) + tail;
        { TraceAppend(a, b', portId); }
        Trace(a, portId) + Trace(b', portId) + tail;
        Trace(a, portId) + Trace(b, portId);
      }
    }
  }

  /** One more iteration appends what it delivers to the trace. */
  lemma TraceSnoc(ticks: seq<Tick>, t: Tick, portId: int)
    ensures Trace(ticks + [t], portId) == Trace(ticks, portId) + IterationEvents(t.snapshot, t.poll, portId)
  {
  }

  /**
   * A poll timeout or failure delivers nothing and the loop carries on:
   * the iterations after it deliver what they would have delivered anyway.
   */
  lemma PollFailureIsSkipped(before: seq<Tick>, t: Tick, after: seq<Tick>, portId: int)
    requires t.poll.err <= 0
    ensures Trace(before + [t] + after, portId) == Trace(before, portId) + Trace(after, portId)
  {
    var upTo := before + [t];
    TraceSnoc(before, t, portId);
    TraceAppend(upTo, after, portId);
  }

  /** While a gating flag stays off, no iteration delivers anything. */
  lemma {:induction false} TraceSilentWhileGatedOff(ticks: seq<Tick>, portId: int)
    requires forall i :: 0 <= i < |ticks| ==> !ticks[i].snapshot.enable || !ticks[i].snapshot.systemControl
    ensures Trace(ticks, portId) == []
  {
    if ticks != [] {
      TraceSilentWhileGatedOff(ticks[..|ticks| - 1], portId);
    }
  }

  /** Each iteration delivers at most two events. */
  lemma {:induction false} TraceLengthBound(ticks: seq<Tick>, portId: int)
    ensures |Trace(ticks, portId)| <= 2 * |ticks|
  {
    if ticks != [] {
      TraceLengthBound(ticks[..|ticks| - 1], portId);
    }
  }

  /** No oversized frame ever reaches the host over a whole run. */
  lemma {:induction false} TraceMessagesFit(ticks: seq<Tick>, portId: int)
    ensures forall m :: MessageEvent(m) in Trace(ticks, portId) ==>
      m.length <= MaxBodyLength && m.initiator < 16 && m.destination < 16
  {
    if ticks != [] {
      var last := ticks[|ticks| - 1];
      TraceMessagesFit(ticks[..|ticks| - 1], portId);
      DeliveredMessagesFit(last.snapshot, last.poll, portId);
    }
  }
}
