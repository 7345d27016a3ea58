/**
 * Turning a received kernel CEC frame into the host's message event
 * (hdmicec_event.cpp, `validcecmessage` and the CEC_RECEIVE branch of
 * `uevent_loop`).
 *
 * A kernel frame holds `len` bytes: the header block, whose high nibble
 * is the initiator's logical address and whose low nibble is the
 * destination's (the header block of the frame description in section
 * CEC 6 of the HDMI 1.4 CEC supplement), followed by the opcode and the
 * operands. The host message carries the two addresses separately and a
 * body of `len - 1` bytes: body[k] is frame byte k + 1.
 */
module MessageTranslation {
  import opened CecTypes

  /** `validcecmessage`: 0 for a body that fits the limit, -E2BIG otherwise. */
  function ValidCecMessage(m: CecMessage): (ret: int)
    ensures ret == -E2BIG <==> m.length > MaxBodyLength
    ensures ret == 0 <==> m.length <= MaxBodyLength
  {
    if m.length > MaxBodyLength then -E2BIG else 0
  }

  /** The initiator field, `msg[0] >> 4`: the high nibble of the header block. */
  function Initiator(header: bv8): (a: nat)
    ensures a < 16 && a == header as int / 16
  {
    (header >> 4) as int
  }

  /** The destination field, `msg[0] & 0x0f`: the low nibble of the header block. */
  function Destination(header: bv8): (a: nat)
    ensures a < 16 && a == header as int % 16
  {
    (header & 0x0F) as int
  }

  /** The header block for two logical addresses: the inverse of the split above. */
  function HeaderBlock(initiator: nat, destination: nat): (header: bv8)
    requires initiator < 16 && destination < 16
    ensures Initiator(header) == initiator && Destination(header) == destination
  {
    ((initiator as bv8) << 4) | (destination as bv8)
  }

  lemma HeaderSplitRoundTrip(header: bv8)
    ensures HeaderBlock(Initiator(header), Destination(header)) == header
  {
  }

  /**
   * The body length `cecframe.len - 1`, computed in 32-bit unsigned
   * arithmetic: a frame that declares no bytes at all wraps around to the
   * largest 32-bit value.
   */
  function BodyLength(len: U32): (n: nat)
    ensures len >= 1 ==> n == len as int - 1
    ensures len == 0 ==> n == U32Modulus - 1
  {
    (len as int - 1) % U32Modulus
  }

  /**
   * The body after the corrected copy for a body length `length`: body[0]
   * is frame byte 1 (copied before the length is checked), body[k] is
   * frame byte k + 1 for every other k below `length`, and the rest keeps
   * the zero the event was cleared to. For a length of at least 1 the
   * source's own loop also stores frame byte `length + 1` at body[length]
   * (see CopyAsWritten); for length 0 both keep frame byte 1 at body[0].
   */
  function CopiedBody(msg: MsgBuffer, length: nat): (body: seq<bv8>)
    requires length <= MaxBodyLength
    ensures |body| == BodySize && body[0] == msg[1]
    ensures forall k :: 0 <= k < length ==> body[k] == msg[k + 1]
    ensures forall k :: length <= k < BodySize && k != 0 ==> body[k] == 0
  {
    seq(BodySize, k requires 0 <= k < BodySize =>
      if k == 0 || k < length then msg[k + 1] else 0)
  }

  /**
   * The message event for a received frame, or None when it is dropped as
   * too long: a frame is forwarded exactly when it declares between 1 and
   * 16 bytes (a frame that declares no bytes at all wraps around and
   * is dropped). The length check sees the event as it stands before the
   * copy: addresses, length and body[0] filled in.
   */
  function Decode(f: CecFrame): (r: Option<CecMessage>)
    ensures r.Some? <==> 1 <= f.len as int <= CecMaxMsgSize
  {
    var checked := CecMessage(Initiator(f.msg[0]), Destination(f.msg[0]),
                              BodyLength(f.len), CopiedBody(f.msg, 0));
    if ValidCecMessage(checked) == 0 then Some(checked.(body := CopiedBody(f.msg, checked.length)))
    else None
  }

  /**
   * The translation step, filling the zeroed 16-byte body in place. The
   * copy loop stops one byte earlier than the source's (see
   * CopyAsWritten below), so it reads only the bytes the frame declares,
   * apart from frame byte 1.
   */
  method TranslateMessage(f: CecFrame) returns (r: Option<CecMessage>)
    ensures r == Decode(f)
  {
    var body := new bv8[BodySize](_ => 0);
    var initiator := (f.msg[0] >> 4) as int;
    var destination := (f.msg[0] & 0x0F) as int;
    var length := (f.len as int - 1) % U32Modulus;
    body[0] := f.msg[1];
    if ValidCecMessage(CecMessage(initiator, destination, length, body[..])) == 0 {
      var k := 0;
      while k + 1 < length
        invariant 0 <= k && (k == 0 || k < length)
        invariant forall j :: 0 <= j < BodySize ==>
          body[j] == (if j == 0 || j <= k then f.msg[j + 1] else 0)
      {
        body[k + 1] := f.msg[k + 2];
        k := k + 1;
      }
      assert body[..] == CopiedBody(f.msg, length);
      r := Some(CecMessage(initiator, destination, length, body[..]));
    } else {
      r := None;
    }
  }

  /**
   * What a forwarded message says about its frame: the two addresses are
   * the header nibbles, the length is one less than the frame's, and the
   * first `length` body bytes are the frame's bytes after the header.
   */
  lemma DecodeContents(f: CecFrame)
    requires Decode(f).Some?
    ensures Decode(f).value.initiator == f.msg[0] as int / 16
    ensures Decode(f).value.destination == f.msg[0] as int % 16
    ensures Decode(f).value.length == f.len as int - 1
    ensures Decode(f).value.body[..f.len - 1] == f.msg[1..f.len]
  {
  }

  /**
   * Decode reads no frame byte past the declared length (apart from frame
   * byte 1, which the source copies even for a header-only frame).
   */
  lemma DecodeReadsOnlyDeclaredBytes(f: CecFrame, g: CecFrame)
    requires f.len == g.len
    requires forall i :: 0 <= i < CecMaxMsgSize && (i < 2 || i < f.len as int) ==> f.msg[i] == g.msg[i]
    ensures Decode(f) == Decode(g)
  {
    var length := BodyLength(f.len);
    if length <= MaxBodyLength {
      assert CopiedBody(f.msg, length) == CopiedBody(g.msg, length);
      assert CopiedBody(f.msg, 0) == CopiedBody(g.msg, 0);
    }
  }

  // ---- The frame a message came from: the partner of Decode ----

  /** A host message that a frame can carry: addresses are nibbles and the body fits. */
  predicate Sendable(m: CecMessage)
  {
    m.initiator < 16 && m.destination < 16 && m.length <= MaxBodyLength && |m.body| == BodySize
  }

  /** A sendable message whose body is zero past its length, as Decode leaves it. */
  predicate Canonical(m: CecMessage)
  {
    Sendable(m) && forall k :: m.length <= k < BodySize ==> m.body[k] == 0
  }

  /** The kernel frame carrying a message: header block, then the body, zero-padded. */
  function Encode(m: CecMessage): (f: CecFrame)
    requires Sendable(m)
    ensures f.len as int == m.length + 1
  {
    var msg := seq(CecMaxMsgSize, i requires 0 <= i < CecMaxMsgSize =>
      if i == 0 then HeaderBlock(m.initiator, m.destination)
      else if i <= m.length then m.body[i - 1]
      else 0);
    CecFrame((m.length + 1) as U32, msg)
  }

  /** Every canonical message survives a trip through a kernel frame. */
  lemma DecodeEncode(m: CecMessage)
    requires Canonical(m)
    ensures Decode(Encode(m)) == Some(m)
  {
    var f := Encode(m);
    var b := CopiedBody(f.msg, BodyLength(f.len));
    assert b == m.body by {
      forall k | 0 <= k < BodySize
        ensures b[k] == m.body[k]
      {
      }
    }
    assert HeaderBlock(m.initiator, m.destination) == f.msg[0];
  }

  /** Re-encoding a forwarded message gives back the frame's declared bytes. */
  lemma EncodeDecode(f: CecFrame)
    requires Decode(f).Some?
    ensures Sendable(Decode(f).value)
    ensures Encode(Decode(f).value).len == f.len
    ensures Encode(Decode(f).value).msg[..f.len] == f.msg[..f.len]
  {
    var m := Decode(f).value;
    var g := Encode(m);
    forall i | 0 <= i < f.len as int
      ensures g.msg[i] == f.msg[i]
    {
      if i == 0 {
        HeaderSplitRoundTrip(f.msg[0]);
      }
    }
  }

  // ---- The copy loop of lines 88-92 as written ----

  /**
   * The copy as the source writes it, on the zeroed 16-byte body: body[0]
   * from frame byte 1, then body[ret + 1] from frame byte ret + 2 for
   * every ret below `length`. The last read is frame byte `length + 1`,
   * so the reads stay inside the 16-byte frame buffer only under the
   * precondition. Against the corrected copy it agrees on the `length`
   * bytes the host reads and adds frame byte `length + 1`, one past the
   * declared frame, at body index `length`.
   */
  method CopyAsWritten(msg: MsgBuffer, length: nat) returns (body: seq<bv8>)
    requires length + 1 < CecMaxMsgSize
    ensures |body| == BodySize
    ensures forall k :: 0 <= k <= length ==> body[k] == msg[k + 1]
    ensures forall k :: length < k < BodySize ==> body[k] == 0
    ensures body[..length] == CopiedBody(msg, length)[..length]
    ensures length > 0 ==> CopiedBody(msg, length)[length] == 0
  {
    var b := new bv8[BodySize](_ => 0);
    b[0] := msg[1];
    var ret := 0;
    while ret < length
      invariant 0 <= ret <= length
      invariant forall j :: 0 <= j < BodySize ==> b[j] == (if j <= ret then msg[j + 1] else 0)
    {
      b[ret + 1] := msg[ret + 2];
      ret := ret + 1;
    }
    body := b[..];
  }

  /**
   * A full-size frame of 16 bytes passes the length check, yet its body
   * length breaks the precondition of CopyAsWritten: the copy as written
   * reads frame byte 16, one past the end of the buffer.
   */
  lemma AsWrittenOverreadsFullFrame()
    ensures exists f: CecFrame :: Decode(f).Some? && BodyLength(f.len) + 1 == CecMaxMsgSize
  {
    var f := CecFrame(16, seq(CecMaxMsgSize, _ => 0));
    assert Decode(f).Some? && BodyLength(f.len) + 1 == CecMaxMsgSize;
  }
}
