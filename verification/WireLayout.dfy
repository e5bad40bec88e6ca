/**
 The wire format, field by field: which numbers stand where, how wide, and under which code. Numbers are big-endian.
 Encoding and decoding are inverse to each other whatever the format; this pins the format itself.
 */
module WireLayout {
  import opened Prelude
  import opened Control
  import Utf8

  /** A number in this many bytes. */
  datatype Field = Field(width: nat, value: nat)

  function BigEndian(b: Bytes): nat {
    if b == [] then 0 else 256 * BigEndian(b[..|b| - 1]) + b[|b| - 1]
  }

  /** `b` is these fields one after the other, and then `tail`. */
  ghost predicate Laid(b: Bytes, fields: seq<Field>, tail: Bytes)
    decreases |fields|
  {
    if fields == [] then b == tail
    else
      var w := fields[0].width;
      w <= |b| && BigEndian(b[..w]) == fields[0].value && Laid(b[w..], fields[1..], tail)
  }

  /** Two's complement in sixteen bits. */
  function Wrapped(v: I16): nat {
    if v < 0 then 65536 + v else v
  }

  function Bit(b: bool): nat {
    if b then 1 else 0
  }

  function ButtonNumber(b: MouseButtonId): nat {
    if b == Left then 1 else if b == Right then 2 else if b == Middle then 3 else if b == X1 then 4 else 5
  }

  function ActionNumber(a: KeyAction): nat {
    if a == Up then 0 else if a == Down then 1 else 2
  }

  function UsageFields(keys: seq<U16>): seq<Field> {
    if keys == [] then [] else [Field(2, keys[0])] + UsageFields(keys[1..])
  }

  /** The numbers of an acceptable payload, in wire order. */
  function Fields(p: Payload): seq<Field> {
    match p
    case Ping(token) => [Field(4, token)]
    case Pong(token, delay) => [Field(4, token), Field(2, delay), Field(2, 0)]
    case EndSession(code) => [Field(2, code)]
    case Error(code, message) => [Field(2, code), Field(2, |Utf8.Encode(message)|)]
    case MouseMove(display, flags, x, y, mods) =>
      [Field(1, display), Field(1, flags), Field(2, x), Field(2, y), Field(2, mods)]
    case MouseMoveRelative(dx, dy, mods, display) =>
      [Field(2, Wrapped(dx)), Field(2, Wrapped(dy)), Field(2, mods), Field(1, display), Field(1, 0)]
    case MouseButton(button, action, x, y, mods, display, clicks) =>
      [Field(1, ButtonNumber(button)), Field(1, ActionNumber(action))]
      + [Field(2, x), Field(2, y), Field(2, mods), Field(1, display), Field(1, clicks)]
    case MouseWheel(v, h, mods, display, flags) =>
      [Field(2, Wrapped(v)), Field(2, Wrapped(h)), Field(2, mods), Field(1, display), Field(1, flags)]
    case KeyEvent(page, usage, action, flags, mods) =>
      [Field(2, page), Field(2, usage), Field(1, ActionNumber(action)), Field(1, flags), Field(2, mods)]
    case KeyStateSync(mods, authoritative, pressed) =>
      [Field(2, mods), Field(1, |pressed|), Field(1, Bit(authoritative))] + UsageFields(pressed)
    case TextInput(commit, preedit, text) =>
      [Field(2, |Utf8.Encode(text)|), Field(1, Bit(commit) + 2 * Bit(preedit)), Field(1, 0)]
    case RequestKeyframe(mode, ltr, reason) => [Field(1, Bit(mode == Ltr)), Field(1, ltr), Field(2, reason)]
    case LtrAck(ltr, frame) => [Field(1, ltr), Field(1, 0), Field(2, frame)]
    case CursorUpdate(shape, x, y, display, visible) =>
      [Field(4, shape), Field(2, x), Field(2, y), Field(1, display), Field(1, Bit(visible))]
    case CursorShape(shape, w, h, hx, hy, format, data) =>
      [Field(4, shape), Field(2, w), Field(2, h), Field(2, hx)]
      + [Field(2, hy), Field(1, format), Field(1, 0), Field(4, |data|)]
    case VideoFrame(id, index, count, kind, layer, pts, data) =>
      [Field(4, id), Field(2, index), Field(2, count), Field(1, kind), Field(1, layer)]
      + [Field(8, pts), Field(4, |data|)]
    case Qos(q) =>
      [Field(2, q.rttMs), Field(2, q.jitterMs), Field(2, q.lossPermille), Field(2, q.framesDecoded)]
      + [Field(2, q.framesDropped), Field(2, q.renderFpsQ8), Field(2, q.playoutDelayMs), Field(2, q.decodeTimeUs)]
    case Unknown(_, _) => []
  }

  /** The bytes after the numbers. */
  function Tail(p: Payload): Bytes {
    match p
    case Error(_, message) => Utf8.Encode(message)
    case TextInput(_, _, text) => Utf8.Encode(text)
    case CursorShape(_, _, _, _, _, _, data) => data
    case VideoFrame(_, _, _, _, _, _, data) => data
    case Unknown(_, body) => body
    case _ => []
  }

  /** The type byte of each payload. */
  function TypeByte(p: Payload): nat {
    match p
    case Ping(_) => 0x06
    case Pong(_, _) => 0x07
    case EndSession(_) => 0x0A
    case Error(_, _) => 0x0B
    case MouseMove(_, _, _, _, _) => 0x10
    case MouseMoveRelative(_, _, _, _) => 0x11
    case MouseButton(_, _, _, _, _, _, _) => 0x12
    case MouseWheel(_, _, _, _, _) => 0x13
    case KeyEvent(_, _, _, _, _) => 0x14
    case KeyStateSync(_, _, _) => 0x15
    case TextInput(_, _, _) => 0x16
    case RequestKeyframe(_, _, _) => 0x33
    case LtrAck(_, _) => 0x34
    case CursorUpdate(_, _, _, _, _) => 0x35
    case CursorShape(_, _, _, _, _, _, _) => 0x36
    case VideoFrame(_, _, _, _, _, _, _) => 0x37
    case Qos(_) => 0x50
    case Unknown(code, _) => code
  }

  // ----- Numbers -----

  lemma OneByte(v: U8)
    ensures BigEndian([v]) == v
  {
    assert [v][..0] == [];
  }

  lemma TwoBytes(v: U16)
    ensures BigEndian(U16Be(v)) == v
  {
    var b := U16Be(v);
    assert b[..1] == [v / 256];
    OneByte(v / 256);
  }

  lemma {:induction false} BigEndianOfBoth(a: Bytes, b: Bytes)
    ensures BigEndian(a + b) == BigEndian(a) * Weight(|b|) + BigEndian(b)
    decreases |b|
  {
    if b == [] {
      assert a + b == a;
    } else {
      var n := |b| - 1;
      BigEndianOfBoth(a, b[..n]);
      assert (a + b)[..|a + b| - 1] == a + b[..n];
      assert 256 * (BigEndian(a) * Weight(n)) == BigEndian(a) * Weight(|b|);
    }
  }

  function Weight(n: nat): nat {
    if n == 0 then 1 else 256 * Weight(n - 1)
  }

  lemma FourBytes(v: U32)
    ensures BigEndian(U32Be(v)) == v
  {
    var hi, lo := U16Be(v / 0x1_0000), U16Be(v % 0x1_0000);
    assert U32Be(v) == hi + lo;
    BigEndianOfBoth(hi, lo);
    TwoBytes(v / 0x1_0000);
    TwoBytes(v % 0x1_0000);
    assert Weight(2) == 0x1_0000;
  }

  lemma EightBytes(v: U64)
    ensures BigEndian(U32Be(v / 0x1_0000_0000) + U32Be(v % 0x1_0000_0000)) == v
  {
    BigEndianOfBoth(U32Be(v / 0x1_0000_0000), U32Be(v % 0x1_0000_0000));
    FourBytes(v / 0x1_0000_0000);
    FourBytes(v % 0x1_0000_0000);
    assert Weight(4) == 0x1_0000_0000;
  }

  // ----- Laying out -----

  /** Bytes with the fields and the tail they are made of. */
  datatype Layout = Layout(b: Bytes, fields: seq<Field>, tail: Bytes)

  type Fitted = l: Layout | Laid(l.b, l.fields, l.tail) ghost witness Layout([], [], [])

  /** One more number in front. */
  lemma LaidCons(x: Bytes, v: nat, l: Fitted)
    requires BigEndian(x) == v
    ensures Laid(x + l.b, [Field(|x|, v)] + l.fields, l.tail)
  {
    var all := [Field(|x|, v)] + l.fields;
    assert (x + l.b)[..|x|] == x && (x + l.b)[|x|..] == l.b;
    assert all[1..] == l.fields;
  }

  ghost function End(tail: Bytes): Fitted {
    Layout(tail, [], tail)
  }

  ghost function Put1(v: U8, l: Fitted): Fitted {
    OneByte(v);
    LaidCons([v], v, l);
    Layout([v] + l.b, [Field(1, v)] + l.fields, l.tail)
  }

  ghost function Put2(v: U16, l: Fitted): Fitted {
    TwoBytes(v);
    LaidCons(U16Be(v), v, l);
    Layout(U16Be(v) + l.b, [Field(2, v)] + l.fields, l.tail)
  }

  ghost function Put4(v: U32, l: Fitted): Fitted {
    FourBytes(v);
    LaidCons(U32Be(v), v, l);
    Layout(U32Be(v) + l.b, [Field(4, v)] + l.fields, l.tail)
  }

  ghost function Put8(v: U64, l: Fitted): Fitted {
    var x := U32Be(v / 0x1_0000_0000) + U32Be(v % 0x1_0000_0000);
    EightBytes(v);
    LaidCons(x, v, l);
    Layout(x + l.b, [Field(8, v)] + l.fields, l.tail)
  }

  /** The layout of a list of usages. */
  ghost function PutUsages(keys: seq<U16>): (r: Fitted)
    ensures r.tail == [] && r.b == EncodeUsages(keys) && r.fields == UsageFields(keys)
  {
    if keys == [] then End([]) else Put2(keys[0], PutUsages(keys[1..]))
  }

  lemma LastOf(b: Bytes)
    ensures b + [] == b
  {
  }

  /** The payload's bytes are its fields and its tail. */
  ghost predicate LaidOut(p: Payload) {
    Laid(EncodePayload(p), Fields(p), Tail(p))
  }

  lemma Match(p: Payload, l: Fitted)
    requires l.b == EncodePayload(p) && l.fields == Fields(p) && l.tail == Tail(p)
    ensures LaidOut(p)
  {
  }

  lemma SessionLaid(p: Payload)
    requires p.Ping? || p.Pong? || p.EndSession?
    ensures LaidOut(p)
  {
    match p
    case Ping(token) =>
      LastOf(U32Be(token));
      Match(p, Put4(token, End([])));
    case Pong(token, delay) =>
      var l := Put4(token, Put2(delay, Put2(0, End([]))));
      assert U16Be(0) + [] == [0, 0];
      Match(p, l);
    case EndSession(code) =>
      LastOf(U16Be(code));
      Match(p, Put2(code, End([])));
  }

  lemma MoveLaid(p: Payload)
    requires p.MouseMove?
    ensures LaidOut(p)
  {
    LastOf(U16Be(p.modifiers));
    Match(p, Put1(p.displayId, Put1(p.flags, Put2(p.xNorm, Put2(p.yNorm, Put2(p.modifiers, End([])))))));
  }

  lemma RelativeLaid(p: Payload)
    requires p.MouseMoveRelative?
    ensures LaidOut(p)
  {
    LastOf([0]);
    Match(p, Put2(Unsigned(p.dx), Put2(Unsigned(p.dy), Put2(p.modifiers, Put1(p.displayId, Put1(0, End([])))))));
  }

  lemma WheelLaid(p: Payload)
    requires p.MouseWheel?
    ensures LaidOut(p)
  {
    LastOf([p.flags]);
    Match(p, Put2(Unsigned(p.deltaV), Put2(Unsigned(p.deltaH), Put2(p.modifiers, Put1(p.displayId, Put1(p.flags, End([])))))));
  }

  /** The part of a button event from its position on. */
  ghost function ButtonEnd(x: U16, y: U16, mods: U16, display: U8, clicks: U8): (l: Fitted)
    ensures l.tail == []
    ensures l.b == U16Be(x) + (U16Be(y) + (U16Be(mods) + ([display] + [clicks])))
    ensures l.fields == [Field(2, x), Field(2, y), Field(2, mods), Field(1, display), Field(1, clicks)]
  {
    LastOf([clicks]);
    Put2(x, Put2(y, Put2(mods, Put1(display, Put1(clicks, End([]))))))
  }

  ghost function ButtonStart(button: MouseButtonId, action: KeyAction, rest: Fitted): (l: Fitted)
    ensures l.tail == rest.tail
    ensures l.b == [ButtonCode(button)] + ([ActionCode(action)] + rest.b)
    ensures l.fields == [Field(1, ButtonNumber(button)), Field(1, ActionNumber(action))] + rest.fields
  {
    Put1(ButtonCode(button), Put1(ActionCode(action), rest))
  }

  lemma ButtonLaid(p: Payload)
    requires p.MouseButton?
    ensures LaidOut(p)
  {
    var end := ButtonEnd(p.xNorm, p.yNorm, p.modifiers, p.displayId, p.clickCount);
    Match(p, ButtonStart(p.button, p.action, end));
  }

  lemma KeyLaid(p: Payload)
    requires p.KeyEvent?
    ensures LaidOut(p)
  {
    LastOf(U16Be(p.modifiers));
    Match(p, Put2(p.usagePage, Put2(p.usageId, Put1(ActionCode(p.action), Put1(p.flags, Put2(p.modifiers, End([])))))));
  }

  lemma SyncLaid(p: Payload)
    requires p.KeyStateSync? && PayloadOk(p)
    ensures LaidOut(p)
  {
    assert p.pressed[..|p.pressed|] == p.pressed;
    Match(p, Put2(p.modifiers, Put1(|p.pressed|, Put1(BoolBit(p.authoritative), PutUsages(p.pressed)))));
  }

  lemma TextLaid(p: Payload)
    requires (p.Error? || p.TextInput?) && PayloadOk(p)
    ensures LaidOut(p)
  {
    match p
    case Error(code, message) =>
      var bytes := Utf8.Encode(message);
      Match(p, Put2(code, Put2(|bytes|, End(bytes))));
    case TextInput(commit, preedit, text) =>
      var bytes := Utf8.Encode(text);
      Match(p, Put2(|bytes|, Put1(TextFlags(commit, preedit), Put1(0, End(bytes)))));
  }

  lemma FeedbackLaid(p: Payload)
    requires p.RequestKeyframe? || p.LtrAck?
    ensures LaidOut(p)
  {
    match p
    case RequestKeyframe(mode, ltr, reason) =>
      LastOf(U16Be(reason));
      Match(p, Put1(ModeCode(mode), Put1(ltr, Put2(reason, End([])))));
    case LtrAck(ltr, frame) =>
      LastOf(U16Be(frame));
      Match(p, Put1(ltr, Put1(0, Put2(frame, End([])))));
  }

  lemma CursorLaid(p: Payload)
    requires p.CursorUpdate?
    ensures LaidOut(p)
  {
    LastOf([BoolBit(p.visible)]);
    Match(p, Put4(p.shapeId, Put2(p.xNorm, Put2(p.yNorm, Put1(p.displayId, Put1(BoolBit(p.visible), End([])))))));
  }

  /** The second half of a cursor shape. */
  ghost function ShapeEnd(hotspotY: U16, format: U8, data: Bytes): (l: Fitted)
    requires |data| < 0x1_0000_0000
    ensures l.tail == data
    ensures l.b == U16Be(hotspotY) + ([format] + ([0] + (U32Be(|data|) + data)))
    ensures l.fields == [Field(2, hotspotY), Field(1, format), Field(1, 0), Field(4, |data|)]
  {
    Put2(hotspotY, Put1(format, Put1(0, Put4(|data|, End(data)))))
  }

  /** The first half, before whatever follows. */
  ghost function ShapeStart(shape: U32, w: U16, h: U16, hotspotX: U16, rest: Fitted): (l: Fitted)
    ensures l.tail == rest.tail
    ensures l.b == U32Be(shape) + (U16Be(w) + (U16Be(h) + (U16Be(hotspotX) + rest.b)))
    ensures l.fields == [Field(4, shape), Field(2, w), Field(2, h), Field(2, hotspotX)] + rest.fields
  {
    Put4(shape, Put2(w, Put2(h, Put2(hotspotX, rest))))
  }

  lemma ShapeLaid(p: Payload)
    requires p.CursorShape? && PayloadOk(p)
    ensures LaidOut(p)
  {
    Match(p, ShapeStart(p.shapeId, p.width, p.height, p.hotspotX, ShapeEnd(p.hotspotY, p.format, p.data)));
  }

  /** The timestamp and the data of a video fragment. */
  ghost function VideoEnd(pts: U64, data: Bytes): (l: Fitted)
    requires |data| < 0x1_0000_0000
    ensures l.tail == data && l.fields == [Field(8, pts), Field(4, |data|)]
    ensures l.b == U32Be(pts / 0x1_0000_0000) + (U32Be(pts % 0x1_0000_0000) + (U32Be(|data|) + data))
  {
    var end := Put4(|data|, End(data));
    Regroup(U32Be(pts / 0x1_0000_0000), U32Be(pts % 0x1_0000_0000), end.b);
    Put8(pts, end)
  }

  lemma Regroup(a: Bytes, b: Bytes, c: Bytes)
    ensures a + b + c == a + (b + c)
  {
  }

  ghost function VideoStart(id: U32, index: U16, count: U16, kind: U8, layer: U8, rest: Fitted): (l: Fitted)
    ensures l.tail == rest.tail
    ensures l.b == U32Be(id) + (U16Be(index) + (U16Be(count) + ([kind] + ([layer] + rest.b))))
    ensures l.fields == [Field(4, id), Field(2, index), Field(2, count), Field(1, kind), Field(1, layer)] + rest.fields
  {
    Put4(id, Put2(index, Put2(count, Put1(kind, Put1(layer, rest)))))
  }

  lemma VideoLaid(p: Payload)
    requires p.VideoFrame? && PayloadOk(p)
    ensures LaidOut(p)
  {
    Match(p, VideoStart(p.frameId, p.fragmentIndex, p.fragmentCount, p.kind, p.temporalLayer, VideoEnd(p.ptsUs, p.data)));
  }

  /** The second half of a quality report. */
  ghost function QosEnd(q: QosReport): (l: Fitted)
    ensures l.tail == []
    ensures l.b == U16Be(q.framesDropped) + (U16Be(q.renderFpsQ8) + (U16Be(q.playoutDelayMs) + U16Be(q.decodeTimeUs)))
    ensures l.fields == [Field(2, q.framesDropped), Field(2, q.renderFpsQ8), Field(2, q.playoutDelayMs), Field(2, q.decodeTimeUs)]
  {
    LastOf(U16Be(q.decodeTimeUs));
    Put2(q.framesDropped, Put2(q.renderFpsQ8, Put2(q.playoutDelayMs, Put2(q.decodeTimeUs, End([])))))
  }

  /** The first half, before whatever follows. */
  ghost function QosStart(q: QosReport, rest: Fitted): (l: Fitted)
    ensures l.tail == rest.tail
    ensures l.b == U16Be(q.rttMs) + (U16Be(q.jitterMs) + (U16Be(q.lossPermille) + (U16Be(q.framesDecoded) + rest.b)))
    ensures l.fields == [Field(2, q.rttMs), Field(2, q.jitterMs), Field(2, q.lossPermille), Field(2, q.framesDecoded)] + rest.fields
  {
    Put2(q.rttMs, Put2(q.jitterMs, Put2(q.lossPermille, Put2(q.framesDecoded, rest))))
  }

  lemma QosLaid(p: Payload)
    requires p.Qos?
    ensures LaidOut(p)
  {
    Match(p, QosStart(p.report, QosEnd(p.report)));
  }

  lemma BodyLaid(p: Payload)
    requires PayloadOk(p)
    ensures LaidOut(p)
  {
    match p
    case Ping(_) => SessionLaid(p);
    case Pong(_, _) => SessionLaid(p);
    case EndSession(_) => SessionLaid(p);
    case Error(_, _) => TextLaid(p);
    case MouseMove(_, _, _, _, _) => MoveLaid(p);
    case MouseMoveRelative(_, _, _, _) => RelativeLaid(p);
    case MouseButton(_, _, _, _, _, _, _) => ButtonLaid(p);
    case MouseWheel(_, _, _, _, _) => WheelLaid(p);
    case KeyEvent(_, _, _, _, _) => KeyLaid(p);
    case KeyStateSync(_, _, _) => SyncLaid(p);
    case TextInput(_, _, _) => TextLaid(p);
    case RequestKeyframe(_, _, _) => FeedbackLaid(p);
    case LtrAck(_, _) => FeedbackLaid(p);
    case CursorUpdate(_, _, _, _, _) => CursorLaid(p);
    case CursorShape(_, _, _, _, _, _, _) => ShapeLaid(p);
    case VideoFrame(_, _, _, _, _, _, _) => VideoLaid(p);
    case Qos(_) => QosLaid(p);
    case Unknown(_, body) => Match(p, End(body));
  }

  /** The eight bytes of a header. */
  function HeaderFields(h: Header): seq<Field> {
    [Field(1, 16 + h.flags), Field(1, h.msgType), Field(2, h.sequence), Field(4, h.timestampMs)]
  }

  lemma HeaderBytes(h: Header)
    requires h.version == 1 && h.flags < 16
    ensures EncodeHeader(h) == [16 + h.flags] + ([h.msgType] + (U16Be(h.sequence) + (U32Be(h.timestampMs) + [])))
  {
    var first := [16 + h.flags, h.msgType];
    Regroup(first, U16Be(h.sequence), U32Be(h.timestampMs));
    assert first == [16 + h.flags] + [h.msgType];
    Regroup([16 + h.flags], [h.msgType], U16Be(h.sequence) + U32Be(h.timestampMs));
    LastOf(U32Be(h.timestampMs));
  }

  ghost function PutHeader(flags: U8, msgType: U8, sequence: U16, timestampMs: U32): (l: Fitted)
    ensures l.b == [flags] + ([msgType] + (U16Be(sequence) + (U32Be(timestampMs) + []))) && l.tail == []
    ensures l.fields == [Field(1, flags), Field(1, msgType), Field(2, sequence), Field(4, timestampMs)]
  {
    Put1(flags, Put1(msgType, Put2(sequence, Put4(timestampMs, End([])))))
  }

  lemma HeaderLaid(h: Header)
    requires h.version == 1 && h.flags < 16
    ensures Laid(EncodeHeader(h), HeaderFields(h), [])
  {
    HeaderBytes(h);
    var l := PutHeader(16 + h.flags, h.msgType, h.sequence, h.timestampMs);
    assert l.b == EncodeHeader(h) && l.fields == HeaderFields(h);
  }

  /**
   The bytes of every well-formed frame: version and flags in one byte, the type byte, sequence and timestamp, then
   the payload's numbers in their order and widths, then its data or text.
   */
  lemma FrameLaidOut(f: ControlFrame)
    requires WellFormed(f)
    ensures f.header.msgType == TypeByte(f.payload)
    ensures |EncodeFrame(f)| >= 8 && Laid(EncodeFrame(f)[..8], HeaderFields(f.header), [])
    ensures Laid(EncodeFrame(f)[8..], Fields(f.payload), Tail(f.payload))
  {
    HeaderLaid(f.header);
    BodyLaid(f.payload);
    assert EncodeFrame(f)[..8] == EncodeHeader(f.header) && EncodeFrame(f)[8..] == EncodePayload(f.payload);
  }
}
