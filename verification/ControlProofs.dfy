/** Round-trip theorems for the control-frame codec. */
module ControlProofs {
  import opened Prelude
  import opened Control
  import Utf8

  // ----- Reading back one field -----

  lemma ReadsBytes(x: Bytes, rest: Bytes)
    ensures ReadBytes(x + rest, |x|) == Ok((x, rest))
  {
    assert (x + rest)[..|x|] == x && (x + rest)[|x|..] == rest;
  }

  lemma ReadsAll(x: Bytes)
    ensures ReadBytes(x, |x|) == Ok((x, []))
  {
    assert x[..|x|] == x && x[|x|..] == [];
  }

  lemma ReadsU8(v: U8, rest: Bytes)
    ensures ReadU8([v] + rest) == Ok((v, rest))
  {
    ReadsBytes([v], rest);
  }

  lemma ReadsU16(v: U16, rest: Bytes)
    ensures ReadU16(U16Be(v) + rest) == Ok((v, rest))
  {
    ReadsBytes(U16Be(v), rest);
  }

  lemma ReadsLastU8(v: U8)
    ensures ReadU8([v]) == Ok((v, []))
  {
    ReadsU8(v, []);
    assert [v] + [] == [v];
  }

  lemma ReadsLastU16(v: U16)
    ensures ReadU16(U16Be(v)) == Ok((v, []))
  {
    ReadsU16(v, []);
    assert U16Be(v) + [] == U16Be(v);
  }

  lemma ReadsI16(v: I16, rest: Bytes)
    ensures ReadI16(U16Be(Unsigned(v)) + rest) == Ok((v, rest))
  {
    ReadsU16(Unsigned(v), rest);
  }

  lemma ReadsU32(v: U32, rest: Bytes)
    ensures ReadU32(U32Be(v) + rest) == Ok((v, rest))
  {
    ReadsBytes(U32Be(v), rest);
    var hi, lo := v / 0x1_0000, v % 0x1_0000;
    assert hi == hi / 256 * 256 + hi % 256 && lo == lo / 256 * 256 + lo % 256;
  }

  lemma {:induction false} ReadsUsages(keys: seq<U16>)
    requires forall u <- keys :: ValidUsage(USAGE_PAGE_KEYBOARD, u)
    ensures ReadUsages(EncodeUsages(keys), |keys|) == Ok((keys, []))
  {
    if keys != [] {
      assert ValidUsage(USAGE_PAGE_KEYBOARD, keys[0]);
      ReadsU16(keys[0], EncodeUsages(keys[1..]));
      ReadsUsages(keys[1..]);
      assert [keys[0]] + keys[1..] == keys;
    }
  }

  // ----- Reading back one body -----

  predicate Returns(p: Payload) {
    DecodePayload(TypeCode(p), EncodePayload(p)) == Ok(p)
  }

  lemma PingReturns(token: U32)
    ensures Returns(Ping(token))
  {
    ReadsU32(token, []);
    assert U32Be(token) + [] == U32Be(token);
  }

  lemma PongReturns(token: U32, delay: U16)
    ensures Returns(Pong(token, delay))
  {
    ReadsU32(token, U16Be(delay) + [0, 0]);
    ReadsU16(delay, [0, 0]);
  }

  lemma ErrorBodyReads(code: U16, bytes: Bytes, t: string)
    requires |bytes| <= MAX_ERROR_MESSAGE && Utf8.Decode(bytes) == Some(t)
    ensures DecodeErrorBody(U16Be(code) + (U16Be(|bytes|) + bytes)) == Ok(Error(code, t))
  {
    ReadsU16(code, U16Be(|bytes|) + bytes);
    ReadsU16(|bytes|, bytes);
    ReadsAll(bytes);
  }

  lemma ErrorBodyReturns(code: U16, message: string)
    ensures DecodeErrorBody(EncodeError(code, message)) == Ok(Error(code, Utf8.Truncated(message, MAX_ERROR_MESSAGE)))
  {
    var t := Utf8.Truncated(message, MAX_ERROR_MESSAGE);
    Utf8.TruncatedIsLongest(message, MAX_ERROR_MESSAGE);
    Utf8.DecodeEncode(t);
    ErrorBodyReads(code, Utf8.Encode(t), t);
  }

  lemma ErrorReturns(code: U16, message: string)
    ensures DecodePayload(T_ERROR, EncodePayload(Error(code, message)))
         == Ok(Error(code, Utf8.Truncated(message, MAX_ERROR_MESSAGE)))
  {
    ErrorBodyReturns(code, message);
  }

  lemma MouseMoveReturns(display: U8, flags: U8, x: U16, y: U16, mods: U16)
    ensures Returns(MouseMove(display, flags, x, y, mods))
  {
    ReadsLastU16(mods);
    ReadsU16(y, U16Be(mods));
    ReadsU16(x, U16Be(y) + U16Be(mods));
    ReadsU8(flags, U16Be(x) + (U16Be(y) + U16Be(mods)));
    ReadsU8(display, [flags] + (U16Be(x) + (U16Be(y) + U16Be(mods))));
  }

  lemma MouseMoveRelativeReturns(dx: I16, dy: I16, mods: U16, display: U8)
    ensures Returns(MouseMoveRelative(dx, dy, mods, display))
  {
    var b3 := [display] + [0];
    var b2 := U16Be(mods) + b3;
    var b1 := U16Be(Unsigned(dy)) + b2;
    ReadsU8(display, [0]);
    ReadsU16(mods, b3);
    ReadsI16(dy, b2);
    ReadsI16(dx, b1);
  }

  lemma MouseButtonReturns(p: Payload)
    requires p.MouseButton? && PayloadOk(p)
    ensures Returns(p)
  {
    var b6: Bytes := [p.clickCount];
    var b5 := [p.displayId] + b6;
    var b4 := U16Be(p.modifiers) + b5;
    var b3 := U16Be(p.yNorm) + b4;
    var b2 := U16Be(p.xNorm) + b3;
    var b1 := [ActionCode(p.action)] + b2;
    ReadsLastU8(p.clickCount);
    ReadsU8(p.displayId, b6);
    ReadsU16(p.modifiers, b5);
    ReadsU16(p.yNorm, b4);
    ReadsU16(p.xNorm, b3);
    ReadsU8(ActionCode(p.action), b2);
    ReadsU8(ButtonCode(p.button), b1);
  }

  lemma MouseWheelReturns(p: Payload)
    requires p.MouseWheel?
    ensures Returns(p)
  {
    var b4: Bytes := [p.flags];
    var b3 := [p.displayId] + b4;
    var b2 := U16Be(p.modifiers) + b3;
    var b1 := U16Be(Unsigned(p.deltaH)) + b2;
    ReadsLastU8(p.flags);
    ReadsU8(p.displayId, b4);
    ReadsU16(p.modifiers, b3);
    ReadsI16(p.deltaH, b2);
    ReadsI16(p.deltaV, b1);
  }

  lemma KeyEventReturns(p: Payload)
    requires p.KeyEvent? && PayloadOk(p)
    ensures Returns(p)
  {
    var b4 := U16Be(p.modifiers);
    var b3 := [p.flags] + b4;
    var b2 := [ActionCode(p.action)] + b3;
    var b1 := U16Be(p.usageId) + b2;
    ReadsLastU16(p.modifiers);
    ReadsU8(p.flags, b4);
    ReadsU8(ActionCode(p.action), b3);
    ReadsU16(p.usageId, b2);
    ReadsU16(p.usagePage, b1);
  }

  lemma SyncBodyReturns(modifiers: U16, authoritative: bool, pressed: seq<U16>)
    requires PayloadOk(KeyStateSync(modifiers, authoritative, pressed))
    ensures DecodeSync(EncodeSync(modifiers, authoritative, pressed)) == Ok(KeyStateSync(modifiers, authoritative, pressed))
  {
    var n := |pressed|;
    var b3 := EncodeUsages(pressed);
    var b2 := [BoolBit(authoritative)] + b3;
    var b1 := [n] + b2;
    assert pressed[..n] == pressed;
    ReadsUsages(pressed);
    ReadsU8(BoolBit(authoritative), b3);
    ReadsU8(n, b2);
    ReadsU16(modifiers, b1);
  }

  lemma SyncReturns(p: Payload)
    requires p.KeyStateSync? && PayloadOk(p)
    ensures Returns(p)
  {
    SyncBodyReturns(p.modifiers, p.authoritative, p.pressed);
  }

  lemma TruncatedIsLegal(text: string)
    requires text != [] && LegalText(text)
    ensures var t := Utf8.Truncated(text, MAX_TEXT_INPUT);
            LegalText(t) && 1 <= |Utf8.Encode(t)| <= MAX_TEXT_INPUT
  {
    var t := Utf8.Truncated(text, MAX_TEXT_INPUT);
    Utf8.TruncatedIsLongest(text, MAX_TEXT_INPUT);
    assert forall i :: 0 <= i < |t| ==> t[i] == text[i];
    assert Utf8.Encode(t) == Utf8.EncodeChar(t[0]) + Utf8.Encode(t[1..]);
  }

  lemma TextBodyReads(flags: U8, bytes: Bytes)
    requires 1 <= |bytes| <= MAX_TEXT_INPUT
    ensures DecodeText(U16Be(|bytes|) + ([flags] + ([0] + bytes))) == TextFrom(bytes, flags)
  {
    ReadsAll(bytes);
    ReadsBytes([0], bytes);
    ReadsU8(flags, [0] + bytes);
    ReadsU16(|bytes|, [flags] + ([0] + bytes));
  }

  lemma TextFromReturns(commit: bool, preedit: bool, t: string)
    requires LegalText(t) && 1 <= |Utf8.Encode(t)| <= MAX_TEXT_INPUT
    ensures TextFrom(Utf8.Encode(t), TextFlags(commit, preedit)) == Ok(TextInput(commit, preedit, t))
  {
    Utf8.DecodeEncode(t);
  }

  lemma TextBodyReturns(commit: bool, preedit: bool, text: string)
    requires text != [] && LegalText(text)
    ensures DecodeText(EncodeText(commit, preedit, text))
         == Ok(TextInput(commit, preedit, Utf8.Truncated(text, MAX_TEXT_INPUT)))
  {
    var t := Utf8.Truncated(text, MAX_TEXT_INPUT);
    TruncatedIsLegal(text);
    TextFromReturns(commit, preedit, t);
    TextBodyReads(TextFlags(commit, preedit), Utf8.Encode(t));
  }

  /** Over-long legal text arrives as its longest prefix of whole codepoints within the cap. */
  lemma TextReturns(commit: bool, preedit: bool, text: string)
    requires text != [] && LegalText(text)
    ensures DecodePayload(T_TEXT_INPUT, EncodePayload(TextInput(commit, preedit, text)))
         == Ok(TextInput(commit, preedit, Utf8.Truncated(text, MAX_TEXT_INPUT)))
  {
    DispatchText(EncodeText(commit, preedit, text));
    TextBodyReturns(commit, preedit, text);
  }

  lemma DispatchText(b: Bytes)
    ensures DecodePayload(T_TEXT_INPUT, b) == DecodeText(b)
  {
  }

  lemma RequestKeyframeReturns(p: Payload)
    requires p.RequestKeyframe?
    ensures Returns(p)
  {
    ReadsLastU16(p.reason);
    ReadsU8(p.ltrIndex, U16Be(p.reason));
    ReadsU8(ModeCode(p.mode), [p.ltrIndex] + U16Be(p.reason));
  }

  lemma LtrAckReturns(p: Payload)
    requires p.LtrAck?
    ensures Returns(p)
  {
    ReadsLastU16(p.ackedFrame);
    ReadsBytes([0], U16Be(p.ackedFrame));
    ReadsU8(p.ltrIndex, [0] + U16Be(p.ackedFrame));
  }

  lemma CursorUpdateReturns(p: Payload)
    requires p.CursorUpdate?
    ensures Returns(p)
  {
    var b4: Bytes := [BoolBit(p.visible)];
    var b3 := [p.displayId] + b4;
    var b2 := U16Be(p.yNorm) + b3;
    var b1 := U16Be(p.xNorm) + b2;
    ReadsLastU8(BoolBit(p.visible));
    ReadsU8(p.displayId, b4);
    ReadsU16(p.yNorm, b3);
    ReadsU16(p.xNorm, b2);
    ReadsU32(p.shapeId, b1);
  }

  lemma CursorShapeReturns(p: Payload)
    requires p.CursorShape? && PayloadOk(p)
    ensures Returns(p)
  {
    var b7 := U32Be(|p.data|) + p.data;
    var b6 := [0] + b7;
    var b5 := [p.format] + b6;
    var b4 := U16Be(p.hotspotY) + b5;
    var b3 := U16Be(p.hotspotX) + b4;
    var b2 := U16Be(p.height) + b3;
    var b1 := U16Be(p.width) + b2;
    ReadsAll(p.data);
    ReadsU32(|p.data|, p.data);
    ReadsBytes([0], b7);
    ReadsU8(p.format, b6);
    ReadsU16(p.hotspotY, b5);
    ReadsU16(p.hotspotX, b4);
    ReadsU16(p.height, b3);
    ReadsU16(p.width, b2);
    ReadsU32(p.shapeId, b1);
  }

  lemma VideoBodyReturns(id: U32, index: U16, count: U16, kind: U8, layer: U8, hi: U32, lo: U32, data: Bytes)
    requires VideoOk(index, count, kind, |data|)
    ensures DecodeVideo(EncodeVideo(id, index, count, kind, layer, hi, lo, data))
         == Ok(VideoFrame(id, index, count, kind, layer, FromU64Be(hi, lo), data))
  {
    var b7 := U32Be(|data|) + data;
    var b6 := U32Be(lo) + b7;
    var b5 := U32Be(hi) + b6;
    var b4 := [layer] + b5;
    var b3 := [kind] + b4;
    var b2 := U16Be(count) + b3;
    var b1 := U16Be(index) + b2;
    ReadsAll(data);
    ReadsU32(|data|, data);
    ReadsU32(lo, b7);
    ReadsU32(hi, b6);
    ReadsU8(layer, b5);
    ReadsU8(kind, b4);
    ReadsU16(count, b3);
    ReadsU16(index, b2);
    ReadsU32(id, b1);
  }

  /** A timestamp is its two words. */
  lemma WordsReturn(v: U64)
    ensures FromU64Be(v / 0x1_0000_0000, v % 0x1_0000_0000) == v
  {
  }

  lemma DispatchVideo(b: Bytes)
    ensures DecodePayload(T_VIDEO_FRAME, b) == DecodeVideo(b)
  {
  }

  lemma EncodesVideo(p: Payload)
    requires p.VideoFrame?
    ensures TypeCode(p) == T_VIDEO_FRAME
    ensures EncodePayload(p) == EncodeVideo(p.frameId, p.fragmentIndex, p.fragmentCount, p.kind, p.temporalLayer,
                                            p.ptsUs / 0x1_0000_0000, p.ptsUs % 0x1_0000_0000, p.data)
  {
  }

  lemma VideoReturns(p: Payload)
    requires p.VideoFrame? && PayloadOk(p)
    ensures Returns(p)
  {
    EncodesVideo(p);
    DispatchVideo(EncodePayload(p));
    WordsReturn(p.ptsUs);
    VideoBodyReturns(p.frameId, p.fragmentIndex, p.fragmentCount, p.kind, p.temporalLayer,
                     p.ptsUs / 0x1_0000_0000, p.ptsUs % 0x1_0000_0000, p.data);
  }

  lemma QosBodyReturns(q: QosReport)
    ensures DecodeQos(EncodeQos(q)) == Ok(Qos(q))
  {
    var b7 := U16Be(q.decodeTimeUs);
    var b6 := U16Be(q.playoutDelayMs) + b7;
    var b5 := U16Be(q.renderFpsQ8) + b6;
    var b4 := U16Be(q.framesDropped) + b5;
    var b3 := U16Be(q.framesDecoded) + b4;
    var b2 := U16Be(q.lossPermille) + b3;
    var b1 := U16Be(q.jitterMs) + b2;
    ReadsLastU16(q.decodeTimeUs);
    ReadsU16(q.playoutDelayMs, b7);
    ReadsU16(q.renderFpsQ8, b6);
    ReadsU16(q.framesDropped, b5);
    ReadsU16(q.framesDecoded, b4);
    ReadsU16(q.lossPermille, b3);
    ReadsU16(q.jitterMs, b2);
    ReadsU16(q.rttMs, b1);
  }

  lemma QosReturns(q: QosReport)
    ensures Returns(Qos(q))
  {
    QosBodyReturns(q);
  }

  lemma TruncatedFits(s: string, max: nat)
    requires |Utf8.Encode(s)| <= max
    ensures Utf8.Truncated(s, max) == s
  {
  }

  lemma PayloadReturns(p: Payload)
    requires PayloadOk(p)
    ensures Returns(p)
  {
    match p
    case Ping(token) => PingReturns(token);
    case Pong(token, delay) => PongReturns(token, delay);
    case EndSession(code) => ReadsLastU16(code);
    case Error(code, message) =>
      TruncatedFits(message, MAX_ERROR_MESSAGE);
      ErrorReturns(code, message);
    case MouseMove(display, flags, x, y, mods) => MouseMoveReturns(display, flags, x, y, mods);
    case MouseMoveRelative(dx, dy, mods, display) => MouseMoveRelativeReturns(dx, dy, mods, display);
    case MouseButton(_, _, _, _, _, _, _) => MouseButtonReturns(p);
    case MouseWheel(_, _, _, _, _) => MouseWheelReturns(p);
    case KeyEvent(_, _, _, _, _) => KeyEventReturns(p);
    case KeyStateSync(_, _, _) => SyncReturns(p);
    case TextInput(commit, preedit, text) =>
      TruncatedFits(text, MAX_TEXT_INPUT);
      TextReturns(commit, preedit, text);
    case RequestKeyframe(_, _, _) => RequestKeyframeReturns(p);
    case LtrAck(_, _) => LtrAckReturns(p);
    case CursorUpdate(_, _, _, _, _) => CursorUpdateReturns(p);
    case CursorShape(_, _, _, _, _, _, _) => CursorShapeReturns(p);
    case VideoFrame(_, _, _, _, _, _, _) => VideoReturns(p);
    case Qos(q) => QosReturns(q);
    case Unknown(_, _) =>
  }

  // ----- Whole frames -----

  lemma HeaderList(h: Header)
    requires h.version == PROTO_VERSION && h.flags < 16
    ensures var hi, lo := h.timestampMs / 0x1_0000, h.timestampMs % 0x1_0000;
            EncodeHeader(h) == [16 + h.flags, h.msgType, h.sequence / 256, h.sequence % 256,
                                hi / 256, hi % 256, lo / 256, lo % 256]
  {
  }

  lemma HeaderReturns(h: Header, body: Bytes)
    requires h.version == PROTO_VERSION && h.flags < 16
    ensures DecodeHeader(EncodeHeader(h) + body) == Ok(h)
    ensures (EncodeHeader(h) + body)[HEADER_LEN..] == body
  {
    var b := EncodeHeader(h) + body;
    HeaderList(h);
    assert forall i :: 0 <= i < HEADER_LEN ==> b[i] == EncodeHeader(h)[i];
    assert b[0] / 16 == 1 && b[0] % 16 == h.flags;
  }

  /** The frames that survive the wire unchanged are exactly the well-formed ones. */
  lemma RoundTripExactly(f: ControlFrame)
    ensures DecodeFrame(EncodeFrame(f)) == Ok(f) <==> WellFormed(f)
  {
    if WellFormed(f) {
      HeaderReturns(f.header, EncodePayload(f.payload));
      PayloadReturns(f.payload);
    }
  }

  /** Re-encoding anything the decoder accepted decodes to the same frame. */
  lemma AcceptedIsStable(b: Bytes)
    requires DecodeFrame(b).Ok?
    ensures DecodeFrame(EncodeFrame(DecodeFrame(b).value)) == DecodeFrame(b)
  {
    RoundTripExactly(DecodeFrame(b).value);
  }

  /**
   Text longer than the cap is not lost: the receiver sees the longest whole-codepoint prefix that
   fits, whatever the text, as long as it is nonempty and free of forbidden control characters.
   */
  lemma OverlongTextArrives(commit: bool, preedit: bool, text: string, sequence: U16, timestampMs: U32)
    requires text != [] && LegalText(text)
    ensures exists t: string ::
              && DecodeFrame(EncodeFrame(NewFrame(TextInput(commit, preedit, text), sequence, timestampMs)))
                 == Ok(NewFrame(TextInput(commit, preedit, t), sequence, timestampMs))
              && t <= text && 0 < |Utf8.Encode(t)| <= MAX_TEXT_INPUT
              && forall k :: |t| < k <= |text| ==> |Utf8.Encode(text[..k])| > MAX_TEXT_INPUT
  {
    var f := NewFrame(TextInput(commit, preedit, text), sequence, timestampMs);
    var t := Utf8.Truncated(text, MAX_TEXT_INPUT);
    HeaderReturns(f.header, EncodePayload(f.payload));
    TextReturns(commit, preedit, text);
    Utf8.TruncatedIsLongest(text, MAX_TEXT_INPUT);
    assert Utf8.Encode(t) == Utf8.EncodeChar(t[0]) + Utf8.Encode(t[1..]);
  }

  /** The same for the message of an error report, which may also be empty. */
  lemma OverlongErrorArrives(code: U16, message: string, sequence: U16, timestampMs: U32)
    ensures exists t: string ::
              && DecodeFrame(EncodeFrame(NewFrame(Error(code, message), sequence, timestampMs)))
                 == Ok(NewFrame(Error(code, t), sequence, timestampMs))
              && t <= message && |Utf8.Encode(t)| <= MAX_ERROR_MESSAGE
              && forall k :: |t| < k <= |message| ==> |Utf8.Encode(message[..k])| > MAX_ERROR_MESSAGE
  {
    var f := NewFrame(Error(code, message), sequence, timestampMs);
    HeaderReturns(f.header, EncodePayload(f.payload));
    ErrorReturns(code, message);
    Utf8.TruncatedIsLongest(message, MAX_ERROR_MESSAGE);
  }
}
