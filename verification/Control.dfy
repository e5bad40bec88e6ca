/**
 The binary control-frame codec: an 8-byte header, then a body whose layout the type byte selects.

 Parsers take the unread bytes and return the value with what is left; every parser fails on the
 first short read or rejected field, in the order in which the fields are laid out.
 */
module Control {
  import opened Prelude
  import Utf8

  const PROTO_VERSION: U8 := 1
  const HEADER_LEN := 8
  const MAX_PRESSED_KEYS := 32
  const MAX_TEXT_INPUT := 1024
  const MAX_ERROR_MESSAGE := 256
  const MAX_CURSOR_DATA := 256 * 1024
  const MAX_CURSOR_DIM := 256
  const MAX_VIDEO_FRAME := 2 * 1024 * 1024
  const MAX_VIDEO_FRAGMENT := 16 * 1024
  const MAX_VIDEO_FRAGMENTS := MAX_VIDEO_FRAME / MAX_VIDEO_FRAGMENT
  const USAGE_PAGE_KEYBOARD: U16 := 0x0007
  const USAGE_PAGE_CONSUMER: U16 := 0x000C

  datatype DecodeError =
    | Truncated(need: nat, got: nat)
    | BadVersion(version: U8)
    | InvalidField(field: string, invalid: nat)
    | LengthCap(field: string, len: nat, max: nat)
    | InvalidText(reason: string)

  datatype MouseButtonId = Left | Right | Middle | X1 | X2
  datatype KeyAction = Up | Down | Repeat
  datatype KeyframeMode = Idr | Ltr

  datatype QosReport = QosReport(
    rttMs: U16, jitterMs: U16, lossPermille: U16, framesDecoded: U16,
    framesDropped: U16, renderFpsQ8: U16, playoutDelayMs: U16, decodeTimeUs: U16)

  datatype Payload =
    | Ping(token: U32)
    | Pong(token: U32, hostDelayUs: U16)
    | EndSession(code: U16)
    | Error(code: U16, message: string)
    | MouseMove(displayId: U8, flags: U8, xNorm: U16, yNorm: U16, modifiers: U16)
    | MouseMoveRelative(dx: I16, dy: I16, modifiers: U16, displayId: U8)
    | MouseButton(button: MouseButtonId, action: KeyAction, xNorm: U16, yNorm: U16,
                  modifiers: U16, displayId: U8, clickCount: U8)
    | MouseWheel(deltaV: I16, deltaH: I16, modifiers: U16, displayId: U8, flags: U8)
    | KeyEvent(usagePage: U16, usageId: U16, action: KeyAction, flags: U8, modifiers: U16)
    | KeyStateSync(modifiers: U16, authoritative: bool, pressed: seq<U16>)
    | TextInput(commit: bool, preedit: bool, text: string)
    | RequestKeyframe(mode: KeyframeMode, ltrIndex: U8, reason: U16)
    | LtrAck(ltrIndex: U8, ackedFrame: U16)
    | CursorUpdate(shapeId: U32, xNorm: U16, yNorm: U16, displayId: U8, visible: bool)
    | CursorShape(shapeId: U32, width: U16, height: U16, hotspotX: U16, hotspotY: U16,
                  format: U8, data: Bytes)
    | VideoFrame(frameId: U32, fragmentIndex: U16, fragmentCount: U16, kind: U8,
                 temporalLayer: U8, ptsUs: U64, data: Bytes)
    | Qos(report: QosReport)
    | Unknown(msgType: U8, body: Bytes)

  datatype Header = Header(version: U8, flags: U8, msgType: U8, sequence: U16, timestampMs: U32)

  datatype ControlFrame = ControlFrame(header: Header, payload: Payload)

  // ----- Type codes -----

  const T_PING: U8 := 0x06
  const T_PONG: U8 := 0x07
  const T_END_SESSION: U8 := 0x0A
  const T_ERROR: U8 := 0x0B
  const T_MOUSE_MOVE: U8 := 0x10
  const T_MOUSE_MOVE_RELATIVE: U8 := 0x11
  const T_MOUSE_BUTTON: U8 := 0x12
  const T_MOUSE_WHEEL: U8 := 0x13
  const T_KEY_EVENT: U8 := 0x14
  const T_KEY_STATE_SYNC: U8 := 0x15
  const T_TEXT_INPUT: U8 := 0x16
  const T_REQUEST_KEYFRAME: U8 := 0x33
  const T_LTR_ACK: U8 := 0x34
  const T_CURSOR_UPDATE: U8 := 0x35
  const T_CURSOR_SHAPE: U8 := 0x36
  const T_VIDEO_FRAME: U8 := 0x37
  const T_QOS_REPORT: U8 := 0x50

  /** The codes whose bodies are parsed here; every other code keeps its body as opaque bytes. */
  predicate IsParsed(code: U8) {
    || code == T_PING || code == T_PONG || code == T_END_SESSION || code == T_ERROR
    || T_MOUSE_MOVE <= code <= T_TEXT_INPUT
    || T_REQUEST_KEYFRAME <= code <= T_VIDEO_FRAME
    || code == T_QOS_REPORT
  }

  function TypeCode(p: Payload): U8 {
    match p
    case Ping(_) => T_PING
    case Pong(_, _) => T_PONG
    case EndSession(_) => T_END_SESSION
    case Error(_, _) => T_ERROR
    case MouseMove(_, _, _, _, _) => T_MOUSE_MOVE
    case MouseMoveRelative(_, _, _, _) => T_MOUSE_MOVE_RELATIVE
    case MouseButton(_, _, _, _, _, _, _) => T_MOUSE_BUTTON
    case MouseWheel(_, _, _, _, _) => T_MOUSE_WHEEL
    case KeyEvent(_, _, _, _, _) => T_KEY_EVENT
    case KeyStateSync(_, _, _) => T_KEY_STATE_SYNC
    case TextInput(_, _, _) => T_TEXT_INPUT
    case RequestKeyframe(_, _, _) => T_REQUEST_KEYFRAME
    case LtrAck(_, _) => T_LTR_ACK
    case CursorUpdate(_, _, _, _, _) => T_CURSOR_UPDATE
    case CursorShape(_, _, _, _, _, _, _) => T_CURSOR_SHAPE
    case VideoFrame(_, _, _, _, _, _, _) => T_VIDEO_FRAME
    case Qos(_) => T_QOS_REPORT
    case Unknown(code, _) => code
  }

  // ----- Field validation -----

  predicate ValidUsage(page: U16, usage: U16) {
    (page == USAGE_PAGE_KEYBOARD && 0x01 <= usage <= 0xE7) ||
    (page == USAGE_PAGE_CONSUMER && 0 < usage <= 0x029C)
  }

  /** `validate_usage`: one range test per page, and an error that names the field at fault. */
  function ValidateUsage(page: U16, usage: U16): (r: Result<(), DecodeError>)
    ensures r.Ok? <==> ValidUsage(page, usage)
    ensures r.Err? ==>
              r.error == if page in {USAGE_PAGE_KEYBOARD, USAGE_PAGE_CONSUMER}
                         then InvalidField("usage_id", usage) else InvalidField("usage_page", page)
  {
    match page
    case 0x0007 => if usage < 0x01 || usage > 0xE7 then Err(InvalidField("usage_id", usage)) else Ok(())
    case 0x000C => if usage == 0 || usage > 0x029C then Err(InvalidField("usage_id", usage)) else Ok(())
    case other => Err(InvalidField("usage_page", other))
  }

  /** A control character other than tab and newline. */
  predicate Forbidden(c: char) {
    (c as int < 0x20 || 0x7F <= c as int < 0xA0) && c != '\t' && c != '\n'
  }

  predicate LegalText(s: string) {
    forall i :: 0 <= i < |s| ==> !Forbidden(s[i])
  }

  predicate CursorOk(width: U16, height: U16, hotspotX: U16, hotspotY: U16, format: U8, len: nat) {
    && 0 < width <= MAX_CURSOR_DIM && 0 < height <= MAX_CURSOR_DIM
    && hotspotX < width && hotspotY < height
    && len <= MAX_CURSOR_DATA
    && (format == 0 ==> len == width as int * height as int * 4)
  }

  predicate VideoOk(index: U16, count: U16, kind: U8, len: nat) {
    kind <= 2 && 1 <= count <= MAX_VIDEO_FRAGMENTS && index < count && len <= MAX_VIDEO_FRAGMENT
  }

  /** What a payload must satisfy for the receiver to accept it unchanged. */
  predicate PayloadOk(p: Payload) {
    match p
    case Error(_, message) => |Utf8.Encode(message)| <= MAX_ERROR_MESSAGE
    case MouseButton(_, action, _, _, _, _, clicks) => !action.Repeat? && 1 <= clicks <= 3
    case KeyEvent(page, usage, _, _, _) => ValidUsage(page, usage)
    case KeyStateSync(_, _, pressed) =>
      |pressed| <= MAX_PRESSED_KEYS && forall u <- pressed :: ValidUsage(USAGE_PAGE_KEYBOARD, u)
    case TextInput(_, _, text) => 1 <= |Utf8.Encode(text)| <= MAX_TEXT_INPUT && LegalText(text)
    case CursorShape(_, w, h, hx, hy, format, data) => CursorOk(w, h, hx, hy, format, |data|)
    case VideoFrame(_, index, count, kind, _, _, data) => VideoOk(index, count, kind, |data|)
    case Unknown(code, _) => !IsParsed(code)
    case _ => true
  }

  predicate WellFormed(f: ControlFrame) {
    && f.header.version == PROTO_VERSION
    && f.header.flags < 16
    && f.header.msgType == TypeCode(f.payload)
    && PayloadOk(f.payload)
  }

  // ----- Big-endian integers -----

  function U16Be(v: U16): (b: Bytes)
    ensures |b| == 2
  {
    [v / 256, v % 256]
  }

  function Unsigned(v: I16): U16 {
    if v < 0 then v + 0x1_0000 else v
  }

  function Signed(v: U16): I16 {
    if v < 0x8000 then v else v - 0x1_0000
  }

  function U32Be(v: U32): (b: Bytes)
    ensures |b| == 4
  {
    var hi, lo := v / 0x1_0000, v % 0x1_0000;
    [hi / 256, hi % 256, lo / 256, lo % 256]
  }

  function FromU16Be(a: int, b: int): U16
    requires 0 <= a < 256 && 0 <= b < 256
  {
    a * 256 + b
  }

  function FromU32Be(a: int, b: int): U32
    requires 0 <= a < 0x1_0000 && 0 <= b < 0x1_0000
  {
    a * 0x1_0000 + b
  }

  function FromU64Be(a: int, b: int): U64
    requires 0 <= a < 0x1_0000_0000 && 0 <= b < 0x1_0000_0000
  {
    a * 0x1_0000_0000 + b
  }

  // ----- The bounds-checked reader, on the unread bytes -----

  type Parsed<T> = Result<(T, Bytes), DecodeError>

  function ReadBytes(b: Bytes, n: nat): Parsed<Bytes> {
    if |b| < n then Err(Truncated(n, |b|)) else Ok((b[..n], b[n..]))
  }

  function ReadU8(b: Bytes): Parsed<U8> {
    var (x, rest) :- ReadBytes(b, 1);
    Ok((x[0], rest))
  }

  function ReadU16(b: Bytes): Parsed<U16> {
    var (x, rest) :- ReadBytes(b, 2);
    Ok((FromU16Be(x[0], x[1]), rest))
  }

  function ReadI16(b: Bytes): Parsed<I16> {
    var (x, rest) :- ReadU16(b);
    Ok((Signed(x), rest))
  }

  function ReadU32(b: Bytes): Parsed<U32> {
    var (x, rest) :- ReadBytes(b, 4);
    Ok((FromU32Be(FromU16Be(x[0], x[1]), FromU16Be(x[2], x[3])), rest))
  }

  /** The body of a `KeyStateSync`: `count` usages, each checked as soon as it is read. */
  function ReadUsages(b: Bytes, count: nat): (r: Parsed<seq<U16>>)
    ensures r.Ok? ==> |r.value.0| == count && forall u <- r.value.0 :: ValidUsage(USAGE_PAGE_KEYBOARD, u)
  {
    if count == 0 then Ok(([], b))
    else
      var (usage, b1) :- ReadU16(b);
      var _ :- ValidateUsage(USAGE_PAGE_KEYBOARD, usage);
      var (more, b2) :- ReadUsages(b1, count - 1);
      Ok(([usage] + more, b2))
  }

  // ----- Encoding -----

  function BoolBit(b: bool): U8 {
    if b then 1 else 0
  }

  function TextFlags(commit: bool, preedit: bool): U8 {
    if commit then (if preedit then 3 else 1) else if preedit then 2 else 0
  }

  function ButtonCode(b: MouseButtonId): U8 {
    match b case Left => 1 case Right => 2 case Middle => 3 case X1 => 4 case X2 => 5
  }

  function ActionCode(a: KeyAction): U8 {
    match a case Up => 0 case Down => 1 case Repeat => 2
  }

  function ModeCode(m: KeyframeMode): U8 {
    match m case Idr => 0 case Ltr => 1
  }

  // `as u16` and `as u32` on a length.
  function LenU16(n: nat): U16 {
    if n < 0x1_0000 then n else n % 0x1_0000
  }

  function LenU32(n: nat): U32 {
    if n < 0x1_0000_0000 then n else n % 0x1_0000_0000
  }

  function EncodeUsages(keys: seq<U16>): Bytes {
    if keys == [] then [] else U16Be(keys[0]) + EncodeUsages(keys[1..])
  }

  function EncodeQos(q: QosReport): Bytes {
    U16Be(q.rttMs) + (U16Be(q.jitterMs) + (U16Be(q.lossPermille) + (U16Be(q.framesDecoded) +
    (U16Be(q.framesDropped) + (U16Be(q.renderFpsQ8) + (U16Be(q.playoutDelayMs) + U16Be(q.decodeTimeUs)))))))
  }

  function EncodeError(code: U16, message: string): Bytes {
    var bytes := Utf8.Encode(Utf8.Truncated(message, MAX_ERROR_MESSAGE));
    U16Be(code) + (U16Be(LenU16(|bytes|)) + bytes)
  }

  function EncodeText(commit: bool, preedit: bool, text: string): Bytes {
    var bytes := Utf8.Encode(Utf8.Truncated(text, MAX_TEXT_INPUT));
    U16Be(LenU16(|bytes|)) + ([TextFlags(commit, preedit)] + ([0] + bytes))
  }

  function EncodeSync(modifiers: U16, authoritative: bool, pressed: seq<U16>): Bytes {
    var n := Min(|pressed|, MAX_PRESSED_KEYS);
    U16Be(modifiers) + ([n] + ([BoolBit(authoritative)] + EncodeUsages(pressed[..n])))
  }

  /** A video fragment; the timestamp goes out as two words, the high one first. */
  function EncodeVideo(id: U32, index: U16, count: U16, kind: U8, layer: U8, hi: U32, lo: U32, data: Bytes): Bytes {
    U32Be(id) + (U16Be(index) + (U16Be(count) + ([kind] + ([layer] +
    (U32Be(hi) + (U32Be(lo) + (U32Be(LenU32(|data|)) + data)))))))
  }

  /** `encode_payload`: the bytes appended to the buffer after the header. */
  function EncodePayload(p: Payload): Bytes {
    match p
    case Ping(token) => U32Be(token)
    case Pong(token, delay) => U32Be(token) + (U16Be(delay) + [0, 0])
    case EndSession(code) => U16Be(code)
    case Error(code, message) => EncodeError(code, message)
    case MouseMove(display, flags, x, y, mods) =>
      [display] + ([flags] + (U16Be(x) + (U16Be(y) + U16Be(mods))))
    case MouseMoveRelative(dx, dy, mods, display) =>
      U16Be(Unsigned(dx)) + (U16Be(Unsigned(dy)) + (U16Be(mods) + ([display] + [0])))
    case MouseButton(button, action, x, y, mods, display, clicks) =>
      [ButtonCode(button)] + ([ActionCode(action)] +
      (U16Be(x) + (U16Be(y) + (U16Be(mods) + ([display] + [clicks])))))
    case MouseWheel(v, h, mods, display, flags) =>
      U16Be(Unsigned(v)) + (U16Be(Unsigned(h)) + (U16Be(mods) + ([display] + [flags])))
    case KeyEvent(page, usage, action, flags, mods) =>
      U16Be(page) + (U16Be(usage) + ([ActionCode(action)] + ([flags] + U16Be(mods))))
    case KeyStateSync(mods, authoritative, pressed) => EncodeSync(mods, authoritative, pressed)
    case TextInput(commit, preedit, text) => EncodeText(commit, preedit, text)
    case RequestKeyframe(mode, ltr, reason) => [ModeCode(mode)] + ([ltr] + U16Be(reason))
    case LtrAck(ltr, frame) => [ltr] + ([0] + U16Be(frame))
    case CursorUpdate(shape, x, y, display, visible) =>
      U32Be(shape) + (U16Be(x) + (U16Be(y) + ([display] + [BoolBit(visible)])))
    case CursorShape(shape, w, h, hx, hy, format, data) =>
      U32Be(shape) + (U16Be(w) + (U16Be(h) + (U16Be(hx) + (U16Be(hy) + ([format] + ([0] +
      (U32Be(LenU32(|data|)) + data)))))))
    case VideoFrame(id, index, count, kind, layer, pts, data) =>
      EncodeVideo(id, index, count, kind, layer, pts / 0x1_0000_0000, pts % 0x1_0000_0000, data)
    case Qos(q) => EncodeQos(q)
    case Unknown(_, body) => body
  }

  function EncodeHeader(h: Header): (b: Bytes)
    ensures |b| == HEADER_LEN
  {
    [h.version % 16 * 16 + h.flags % 16, h.msgType] + U16Be(h.sequence) + U32Be(h.timestampMs)
  }

  function EncodeFrame(f: ControlFrame): Bytes {
    EncodeHeader(f.header) + EncodePayload(f.payload)
  }

  // ----- Decoding -----

  function ButtonFrom(v: U8): (r: Result<MouseButtonId, DecodeError>)
    ensures r.Ok? ==> ButtonCode(r.value) == v
  {
    match v
    case 1 => Ok(Left)
    case 2 => Ok(Right)
    case 3 => Ok(Middle)
    case 4 => Ok(X1)
    case 5 => Ok(X2)
    case _ => Err(InvalidField("button", v))
  }

  function ActionFrom(v: U8, allowRepeat: bool): (r: Result<KeyAction, DecodeError>)
    ensures r.Ok? ==> ActionCode(r.value) == v && (r.value.Repeat? ==> allowRepeat)
  {
    if v == 0 then Ok(Up)
    else if v == 1 then Ok(Down)
    else if v == 2 && allowRepeat then Ok(Repeat)
    else Err(InvalidField("action", v))
  }

  type Decoded = Result<Payload, DecodeError>

  /** The result is a payload of type `code` that the encoder can reproduce. */
  ghost predicate Sound(code: U8, r: Decoded) {
    r.Ok? ==> PayloadOk(r.value) && TypeCode(r.value) == code
  }

  function DecodePong(b: Bytes): (r: Decoded)
    ensures Sound(T_PONG, r)
  {
    var (token, b1) :- ReadU32(b);
    var (delay, b2) :- ReadU16(b1);
    Ok(Pong(token, delay))
  }

  function DecodeErrorBody(b: Bytes): (r: Decoded)
    ensures Sound(T_ERROR, r)
  {
    var (code, b1) :- ReadU16(b);
    var (len, b2) :- ReadU16(b1);
    if len > MAX_ERROR_MESSAGE then Err(LengthCap("message", len, MAX_ERROR_MESSAGE))
    else
      var (raw, b3) :- ReadBytes(b2, len);
      match Utf8.Decode(raw)
      case None => Err(InvalidText("error message is not valid UTF-8"))
      case Some(message) =>
        Utf8.EncodeDecode(raw);
        Ok(Error(code, message))
  }

  function DecodeMouseMove(b: Bytes): (r: Decoded)
    ensures Sound(T_MOUSE_MOVE, r)
  {
    var (display, b1) :- ReadU8(b);
    var (flags, b2) :- ReadU8(b1);
    var (x, b3) :- ReadU16(b2);
    var (y, b4) :- ReadU16(b3);
    var (mods, b5) :- ReadU16(b4);
    Ok(MouseMove(display, flags, x, y, mods))
  }

  function DecodeMouseMoveRelative(b: Bytes): (r: Decoded)
    ensures Sound(T_MOUSE_MOVE_RELATIVE, r)
  {
    var (dx, b1) :- ReadI16(b);
    var (dy, b2) :- ReadI16(b1);
    var (mods, b3) :- ReadU16(b2);
    var (display, b4) :- ReadU8(b3);
    var _ :- ReadBytes(b4, 1);
    Ok(MouseMoveRelative(dx, dy, mods, display))
  }

  function DecodeMouseButton(b: Bytes): (r: Decoded)
    ensures Sound(T_MOUSE_BUTTON, r)
  {
    var (buttonCode, b1) :- ReadU8(b);
    var button :- ButtonFrom(buttonCode);
    var (actionCode, b2) :- ReadU8(b1);
    var action :- ActionFrom(actionCode, false);
    var (x, b3) :- ReadU16(b2);
    var (y, b4) :- ReadU16(b3);
    var (mods, b5) :- ReadU16(b4);
    var (display, b6) :- ReadU8(b5);
    var (clicks, b7) :- ReadU8(b6);
    if !(1 <= clicks <= 3) then Err(InvalidField("click_count", clicks))
    else Ok(MouseButton(button, action, x, y, mods, display, clicks))
  }

  function DecodeMouseWheel(b: Bytes): (r: Decoded)
    ensures Sound(T_MOUSE_WHEEL, r)
  {
    var (v, b1) :- ReadI16(b);
    var (h, b2) :- ReadI16(b1);
    var (mods, b3) :- ReadU16(b2);
    var (display, b4) :- ReadU8(b3);
    var (flags, b5) :- ReadU8(b4);
    Ok(MouseWheel(v, h, mods, display, flags))
  }

  function DecodeKeyEvent(b: Bytes): (r: Decoded)
    ensures Sound(T_KEY_EVENT, r)
  {
    var (page, b1) :- ReadU16(b);
    var (usage, b2) :- ReadU16(b1);
    var (actionCode, b3) :- ReadU8(b2);
    var action :- ActionFrom(actionCode, true);
    var (flags, b4) :- ReadU8(b3);
    var (mods, b5) :- ReadU16(b4);
    var _ :- ValidateUsage(page, usage);
    Ok(KeyEvent(page, usage, action, flags, mods))
  }

  function DecodeSync(b: Bytes): (r: Decoded)
    ensures Sound(T_KEY_STATE_SYNC, r)
  {
    var (mods, b1) :- ReadU16(b);
    var (count, b2) :- ReadU8(b1);
    var (flags, b3) :- ReadU8(b2);
    if count > MAX_PRESSED_KEYS then Err(LengthCap("count", count, MAX_PRESSED_KEYS))
    else
      var (pressed, b4) :- ReadUsages(b3, count);
      Ok(KeyStateSync(mods, flags % 2 == 1, pressed))
  }

  function TextFrom(raw: Bytes, flags: U8): (r: Decoded)
    requires 1 <= |raw| <= MAX_TEXT_INPUT
    ensures Sound(T_TEXT_INPUT, r)
  {
    match Utf8.Decode(raw)
    case None => Err(InvalidText("text is not valid UTF-8"))
    case Some(text) =>
      Utf8.EncodeDecode(raw);
      if !LegalText(text) then Err(InvalidText("text contains forbidden control characters"))
      else Ok(TextInput(flags % 2 == 1, flags % 4 >= 2, text))
  }

  function DecodeText(b: Bytes): (r: Decoded)
    ensures Sound(T_TEXT_INPUT, r)
  {
    var (len, b1) :- ReadU16(b);
    var (flags, b2) :- ReadU8(b1);
    var (_, b3) :- ReadBytes(b2, 1);
    if len == 0 || len > MAX_TEXT_INPUT then Err(LengthCap("byte_len", len, MAX_TEXT_INPUT))
    else
      var (raw, b4) :- ReadBytes(b3, len);
      TextFrom(raw, flags)
  }

  function DecodeRequestKeyframe(b: Bytes): (r: Decoded)
    ensures Sound(T_REQUEST_KEYFRAME, r)
  {
    var (modeCode, b1) :- ReadU8(b);
    if modeCode > 1 then Err(InvalidField("mode", modeCode))
    else
      var (ltr, b2) :- ReadU8(b1);
      var (reason, b3) :- ReadU16(b2);
      Ok(RequestKeyframe(if modeCode == 0 then Idr else Ltr, ltr, reason))
  }

  function DecodeLtrAck(b: Bytes): (r: Decoded)
    ensures Sound(T_LTR_ACK, r)
  {
    var (ltr, b1) :- ReadU8(b);
    var (_, b2) :- ReadBytes(b1, 1);
    var (frame, b3) :- ReadU16(b2);
    Ok(LtrAck(ltr, frame))
  }

  function DecodeCursorUpdate(b: Bytes): (r: Decoded)
    ensures Sound(T_CURSOR_UPDATE, r)
  {
    var (shape, b1) :- ReadU32(b);
    var (x, b2) :- ReadU16(b1);
    var (y, b3) :- ReadU16(b2);
    var (display, b4) :- ReadU8(b3);
    var (flags, b5) :- ReadU8(b4);
    Ok(CursorUpdate(shape, x, y, display, flags % 2 == 1))
  }

  function CheckCursor(w: U16, h: U16, hx: U16, hy: U16, format: U8, len: nat): (r: Result<(), DecodeError>)
    ensures r.Ok? <==> CursorOk(w, h, hx, hy, format, len)
  {
    if w == 0 || w > MAX_CURSOR_DIM then Err(InvalidField("width", w))
    else if h == 0 || h > MAX_CURSOR_DIM then Err(InvalidField("height", h))
    else if hx >= w then Err(InvalidField("hotspot_x", hx))
    else if hy >= h then Err(InvalidField("hotspot_y", hy))
    else if len > MAX_CURSOR_DATA then Err(LengthCap("data_len", len, MAX_CURSOR_DATA))
    else if format == 0 && len != w as int * h as int * 4
    then Err(LengthCap("data_len", len, w as int * h as int * 4))
    else Ok(())
  }

  function DecodeCursorShape(b: Bytes): (r: Decoded)
    ensures Sound(T_CURSOR_SHAPE, r)
  {
    var (shape, b1) :- ReadU32(b);
    var (w, b2) :- ReadU16(b1);
    var (h, b3) :- ReadU16(b2);
    var (hx, b4) :- ReadU16(b3);
    var (hy, b5) :- ReadU16(b4);
    var (format, b6) :- ReadU8(b5);
    var (_, b7) :- ReadBytes(b6, 1);
    var (len, b8) :- ReadU32(b7);
    var _ :- CheckCursor(w, h, hx, hy, format, len);
    var (data, b9) :- ReadBytes(b8, len);
    Ok(CursorShape(shape, w, h, hx, hy, format, data))
  }

  function CheckVideo(index: U16, count: U16, kind: U8, len: nat): (r: Result<(), DecodeError>)
    ensures r.Ok? <==> VideoOk(index, count, kind, len)
  {
    if kind > 2 then Err(InvalidField("kind", kind))
    else if count == 0 || count > MAX_VIDEO_FRAGMENTS then Err(InvalidField("fragment_count", count))
    else if index >= count then Err(InvalidField("fragment_index", index))
    else if len > MAX_VIDEO_FRAGMENT then Err(LengthCap("data_len", len, MAX_VIDEO_FRAGMENT))
    else Ok(())
  }

  function DecodeVideo(b: Bytes): (r: Decoded)
    ensures Sound(T_VIDEO_FRAME, r)
  {
    var (id, b1) :- ReadU32(b);
    var (index, b2) :- ReadU16(b1);
    var (count, b3) :- ReadU16(b2);
    var (kind, b4) :- ReadU8(b3);
    var (layer, b5) :- ReadU8(b4);
    var (hi, b6) :- ReadU32(b5);
    var (lo, b7) :- ReadU32(b6);
    var (len, b8) :- ReadU32(b7);
    var _ :- CheckVideo(index, count, kind, len);
    var (data, b9) :- ReadBytes(b8, len);
    Ok(VideoFrame(id, index, count, kind, layer, FromU64Be(hi, lo), data))
  }

  function DecodeQos(b: Bytes): (r: Decoded)
    ensures Sound(T_QOS_REPORT, r)
  {
    var (q1, b1) :- ReadU16(b);
    var (q2, b2) :- ReadU16(b1);
    var (q3, b3) :- ReadU16(b2);
    var (q4, b4) :- ReadU16(b3);
    var (q5, b5) :- ReadU16(b4);
    var (q6, b6) :- ReadU16(b5);
    var (q7, b7) :- ReadU16(b6);
    var (q8, b8) :- ReadU16(b7);
    Ok(Qos(QosReport(q1, q2, q3, q4, q5, q6, q7, q8)))
  }

  /** `decode_payload`. Trailing bytes after the last field are ignored, as reserved bytes are. */
  function DecodePayload(code: U8, b: Bytes): (r: Decoded)
    ensures Sound(code, r)
  {
    if code == T_PING then
      var (token, b1) :- ReadU32(b);
      Ok(Ping(token))
    else if code == T_PONG then DecodePong(b)
    else if code == T_END_SESSION then
      var (reason, b1) :- ReadU16(b);
      Ok(EndSession(reason))
    else if code == T_ERROR then DecodeErrorBody(b)
    else if code == T_MOUSE_MOVE then DecodeMouseMove(b)
    else if code == T_MOUSE_MOVE_RELATIVE then DecodeMouseMoveRelative(b)
    else if code == T_MOUSE_BUTTON then DecodeMouseButton(b)
    else if code == T_MOUSE_WHEEL then DecodeMouseWheel(b)
    else if code == T_KEY_EVENT then DecodeKeyEvent(b)
    else if code == T_KEY_STATE_SYNC then DecodeSync(b)
    else if code == T_TEXT_INPUT then DecodeText(b)
    else if code == T_REQUEST_KEYFRAME then DecodeRequestKeyframe(b)
    else if code == T_LTR_ACK then DecodeLtrAck(b)
    else if code == T_CURSOR_UPDATE then DecodeCursorUpdate(b)
    else if code == T_CURSOR_SHAPE then DecodeCursorShape(b)
    else if code == T_VIDEO_FRAME then DecodeVideo(b)
    else if code == T_QOS_REPORT then DecodeQos(b)
    else Ok(Unknown(code, b))
  }

  function DecodeHeader(b: Bytes): (r: Result<Header, DecodeError>)
    ensures r.Ok? ==> |b| >= HEADER_LEN && r.value.version == PROTO_VERSION && r.value.flags < 16
    ensures r.Err? ==> if |b| < 8 then r.error == Truncated(8, |b|)
                       else b[0] / 16 != PROTO_VERSION && r.error == BadVersion(b[0] / 16)
  {
    if |b| < HEADER_LEN then Err(Truncated(HEADER_LEN, |b|))
    else if b[0] / 16 != PROTO_VERSION then Err(BadVersion(b[0] / 16))
    else Ok(Header(b[0] / 16, b[0] % 16, b[1], FromU16Be(b[2], b[3]),
                   FromU32Be(FromU16Be(b[4], b[5]), FromU16Be(b[6], b[7]))))
  }

  /** `ControlFrame::decode`: whatever is accepted is well formed. */
  function DecodeFrame(b: Bytes): (r: Result<ControlFrame, DecodeError>)
    ensures r.Ok? ==> WellFormed(r.value)
  {
    var header :- DecodeHeader(b);
    var payload :- DecodePayload(header.msgType, b[HEADER_LEN..]);
    Ok(ControlFrame(header, payload))
  }

  /** `ControlFrame::new`. */
  function NewFrame(p: Payload, sequence: U16, timestampMs: U32): ControlFrame {
    ControlFrame(Header(PROTO_VERSION, 0, TypeCode(p), sequence, timestampMs), p)
  }
}
