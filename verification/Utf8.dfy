/**
 UTF-8 as section 3 of RFC 3629 defines it. A Dafny `char` is a Unicode scalar value, so `string`
 stands for a Rust `String`, whose bytes are `Encode(s)`.
 */
module Utf8 {
  import opened Prelude

  function EncodeChar(c: char): (b: Bytes)
    ensures 1 <= |b| <= 4
  {
    var v := c as int;
    if v < 0x80 then [v]
    else if v < 0x800 then [0xC0 + v / 64, 0x80 + v % 64]
    else if v < 0x1_0000 then [0xE0 + v / 4096, 0x80 + v / 64 % 64, 0x80 + v % 64]
    else [0xF0 + v / 262144, 0x80 + v / 4096 % 64, 0x80 + v / 64 % 64, 0x80 + v % 64]
  }

  function Encode(s: string): Bytes {
    if s == [] then [] else EncodeChar(s[0]) + Encode(s[1..])
  }

  predicate IsContinuation(b: U8) {
    0x80 <= b < 0xC0
  }

  // The scalar value carried by the payload bits of a two-, three- or four-byte sequence.
  function Value2(a: int, b: int): int {
    (a - 0xC0) * 64 + (b - 0x80)
  }

  function Value3(a: int, b: int, c: int): int {
    (a - 0xE0) * 4096 + (b - 0x80) * 64 + (c - 0x80)
  }

  function Value4(a: int, b: int, c: int, d: int): int {
    (a - 0xF0) * 262144 + (b - 0x80) * 4096 + (c - 0x80) * 64 + (d - 0x80)
  }

  /** The first codepoint of `b`, or `None` when `b` does not start with a well-formed sequence. */
  function DecodeChar(b: Bytes): (r: Option<(char, nat)>)
    ensures r.Some? ==> 1 <= r.value.1 <= |b|
  {
    if b == [] then None
    else if b[0] < 0x80 then Some((b[0] as char, 1))
    else if 0xC2 <= b[0] < 0xE0 then
      if |b| >= 2 && IsContinuation(b[1])
      then Some((Value2(b[0], b[1]) as char, 2))
      else None
    else if 0xE0 <= b[0] < 0xF0 then
      if |b| >= 3 && IsContinuation(b[1]) && IsContinuation(b[2])
         && (b[0] == 0xE0 ==> 0xA0 <= b[1]) && (b[0] == 0xED ==> b[1] < 0xA0)
      then Some((Value3(b[0], b[1], b[2]) as char, 3))
      else None
    else if 0xF0 <= b[0] < 0xF5 then
      if |b| >= 4 && IsContinuation(b[1]) && IsContinuation(b[2]) && IsContinuation(b[3])
         && (b[0] == 0xF0 ==> 0x90 <= b[1]) && (b[0] == 0xF4 ==> b[1] < 0x90)
      then Some((Value4(b[0], b[1], b[2], b[3]) as char, 4))
      else None
    else None
  }

  /** `std::str::from_utf8`: the text, or `None` when any sequence is ill-formed. */
  function Decode(b: Bytes): (r: Option<string>)
    decreases |b|
  {
    if b == [] then Some([])
    else
      match DecodeChar(b)
      case None => None
      case Some((c, n)) =>
        match Decode(b[n..])
        case None => None
        case Some(rest) => Some([c] + rest)
  }

  lemma Split3(v: int)
    requires 0 <= v < 0x1_0000
    ensures v == v / 4096 * 4096 + v / 64 % 64 * 64 + v % 64
    ensures 0 <= v / 4096 < 16
  {
  }

  lemma Split4(v: int)
    requires 0 <= v < 0x11_0000
    ensures v == v / 262144 * 262144 + v / 4096 % 64 * 4096 + v / 64 % 64 * 64 + v % 64
    ensures 0 <= v / 262144 < 5
  {
    var a := v / 64;
    var b := a / 64;
    assert v / 4096 == b && v / 262144 == b / 64;
    assert v == a * 64 + v % 64 && a == b * 64 + a % 64 && b == b / 64 * 64 + b % 64;
  }

  lemma DecodeCharOfEncoded(c: char, rest: Bytes)
    ensures DecodeChar(EncodeChar(c) + rest) == Some((c, |EncodeChar(c)|))
  {
    var v := c as int;
    var e := EncodeChar(c);
    var b := e + rest;
    assert forall i :: 0 <= i < |e| ==> b[i] == e[i];
    if 0x800 <= v < 0x1_0000 {
      Split3(v);
    } else if 0x1_0000 <= v {
      Split4(v);
    }
  }

  lemma Unsplit3(x: int, y: int, z: int)
    requires 0 <= x < 16 && 0 <= y < 64 && 0 <= z < 64
    ensures var v := x * 4096 + y * 64 + z; v / 4096 == x && v / 64 % 64 == y && v % 64 == z
  {
    var v := x * 4096 + y * 64 + z;
    assert v / 64 == x * 64 + y;
  }

  lemma Unsplit4(w: int, x: int, y: int, z: int)
    requires 0 <= w < 5 && 0 <= x < 64 && 0 <= y < 64 && 0 <= z < 64
    ensures var v := w * 262144 + x * 4096 + y * 64 + z;
            v / 262144 == w && v / 4096 % 64 == x && v / 64 % 64 == y && v % 64 == z
  {
    var v := w * 262144 + x * 4096 + y * 64 + z;
    assert v / 64 == w * 4096 + x * 64 + y;
    assert v / 4096 == w * 64 + x;
  }

  lemma EncodeCharOfDecoded(b: Bytes)
    requires DecodeChar(b).Some?
    ensures var (c, n) := DecodeChar(b).value; EncodeChar(c) == b[..n]
  {
    var (c, n) := DecodeChar(b).value;
    if 0xE0 <= b[0] < 0xF0 {
      var x: int, y: int, z: int := b[0], b[1], b[2];
      Unsplit3(x - 0xE0, y - 0x80, z - 0x80);
    } else if 0xF0 <= b[0] {
      var w: int, x: int, y: int, z: int := b[0], b[1], b[2], b[3];
      Unsplit4(w - 0xF0, x - 0x80, y - 0x80, z - 0x80);
    }
  }

  /** Decoding inverts encoding: every text is recovered from its bytes. */
  lemma {:induction false} DecodeEncode(s: string)
    ensures Decode(Encode(s)) == Some(s)
  {
    if s != [] {
      DecodeEncode(s[1..]);
      DecodeCharOfEncoded(s[0], Encode(s[1..]));
      assert Encode(s)[|EncodeChar(s[0])|..] == Encode(s[1..]);
      assert [s[0]] + s[1..] == s;
    }
  }

  lemma EncodeCons(c: char, s: string)
    ensures Encode([c] + s) == EncodeChar(c) + Encode(s)
  {
    assert ([c] + s)[1..] == s;
  }

  /** Encoding inverts decoding: the accepted byte strings are exactly the encodings. */
  lemma {:induction false} EncodeDecode(b: Bytes)
    requires Decode(b).Some?
    ensures Encode(Decode(b).value) == b
    decreases |b|
  {
    if b != [] {
      var (c, n) := DecodeChar(b).value;
      EncodeCharOfDecoded(b);
      EncodeDecode(b[n..]);
      EncodeCons(c, Decode(b[n..]).value);
      assert b[..n] + b[n..] == b;
    }
  }

  lemma Associate(a: Bytes, b: Bytes, c: Bytes)
    ensures a + (b + c) == a + b + c
  {
  }

  lemma Uncons(s: string, t: string)
    requires s != []
    ensures s == [s[0]] + s[1..] && s + t == [s[0]] + (s[1..] + t)
  {
  }

  lemma {:induction false} EncodeConcat(s: string, t: string)
    ensures Encode(s + t) == Encode(s) + Encode(t)
  {
    if s == [] {
      assert s + t == t;
    } else {
      var c, rest := s[0], s[1..];
      EncodeConcat(rest, t);
      Uncons(s, t);
      EncodeCons(c, rest + t);
      Associate(EncodeChar(c), Encode(rest), Encode(t));
    }
  }

  /** The longest prefix of `s` whose encoding fits in `max` bytes. */
  function Truncated(s: string, max: nat): (t: string)
    decreases |s|
  {
    if |Encode(s)| <= max then s else Truncated(s[..|s| - 1], max)
  }

  lemma {:induction false} PrefixShorter(s: string, k: nat)
    requires k <= |s|
    ensures |Encode(s[..k])| <= |Encode(s)|
    ensures k < |s| ==> |Encode(s[..k])| < |Encode(s)|
  {
    EncodeConcat(s[..k], s[k..]);
    assert s[..k] + s[k..] == s;
  }

  /** What truncation means: a prefix that fits, and no longer prefix does. */
  lemma {:induction false} TruncatedIsLongest(s: string, max: nat)
    ensures Truncated(s, max) <= s
    ensures |Encode(Truncated(s, max))| <= max
    ensures forall k :: |Truncated(s, max)| < k <= |s| ==> |Encode(s[..k])| > max
    ensures s != [] && max >= 4 ==> Truncated(s, max) != []
    decreases |s|
  {
    if |Encode(s)| > max {
      var p := s[..|s| - 1];
      TruncatedIsLongest(p, max);
      forall k | |Truncated(s, max)| < k <= |s|
        ensures |Encode(s[..k])| > max
      {
        if k == |s| {
          assert s[..k] == s;
        } else {
          assert s[..k] == p[..k];
        }
      }
      assert p == [] ==> Encode(s) == EncodeChar(s[0]) + Encode([]);
    }
  }

  /** `str::is_char_boundary`. */
  predicate IsCharBoundary(b: Bytes, i: nat) {
    i == 0 || i == |b| || (i < |b| && !IsContinuation(b[i]))
  }

  /** The value a multi-byte sequence carries: what the lead byte holds above `base`, then six bits from each further byte. */
  function Carried(b: Bytes, base: int): int {
    if b == [] then 0
    else if |b| == 1 then b[0] - base
    else 64 * Carried(b[..|b| - 1], base) + b[|b| - 1] - 0x80
  }

  /** The table of section 3 of RFC 3629: how many bytes a codepoint takes, how they are marked and what they carry. */
  lemma CharLaidOut(c: char)
    ensures var v, b := c as int, EncodeChar(c);
            && |b| == (if v < 0x80 then 1 else if v < 0x800 then 2 else if v < 0x1_0000 then 3 else 4)
            && (forall i :: 0 < i < |b| ==> 0x80 <= b[i] < 0xC0)
            && (if |b| == 1 then b[0] < 0x80 && Carried(b, 0) == v
                else if |b| == 2 then 0xC0 <= b[0] < 0xE0 && Carried(b, 0xC0) == v
                else if |b| == 3 then 0xE0 <= b[0] < 0xF0 && Carried(b, 0xE0) == v
                else 0xF0 <= b[0] < 0xF8 && Carried(b, 0xF0) == v)
  {
    var v, b := c as int, EncodeChar(c);
    if |b| == 3 {
      Split3(v);
      CarriedBy(b, 0xE0);
    } else if |b| == 4 {
      Split4(v);
      CarriedBy(b, 0xF0);
    } else if |b| == 2 {
      CarriedBy(b, 0xC0);
    }
  }

  lemma CarriedBy(b: Bytes, base: int)
    requires 2 <= |b| <= 4
    ensures var two := 64 * (b[0] - base) + b[1] - 0x80;
            Carried(b, base) == if |b| == 2 then two
                                else if |b| == 3 then 64 * two + b[2] - 0x80
                                else 64 * (64 * two + b[2] - 0x80) + b[3] - 0x80
  {
    assert Carried(b[..1], base) == b[0] - base;
    assert b[..2][..1] == b[..1];
    assert Carried(b[..2], base) == 64 * (b[0] - base) + b[1] - 0x80;
    if |b| > 2 {
      assert b[..3][..2] == b[..2];
      assert b[..|b|] == b;
    }
  }

  lemma EncodeCharShape(c: char)
    ensures !IsContinuation(EncodeChar(c)[0])
    ensures forall i :: 0 < i < |EncodeChar(c)| ==> IsContinuation(EncodeChar(c)[i])
  {
  }

  /** A byte offset is a boundary exactly when it ends the encoding of some prefix. */
  lemma {:induction false} BoundaryIsPrefixEnd(s: string, i: nat)
    requires i <= |Encode(s)|
    ensures IsCharBoundary(Encode(s), i) <==> exists k :: 0 <= k <= |s| && |Encode(s[..k])| == i
    decreases |s|
  {
    if i == 0 {
      assert |Encode(s[..0])| == i;
    } else {
      var n := |EncodeChar(s[0])|;
      var t := s[1..];
      EncodeCharShape(s[0]);
      forall k | 1 <= k <= |s|
        ensures |Encode(s[..k])| == n + |Encode(t[..k - 1])|
      {
        assert s[..k][1..] == t[..k - 1];
      }
      if i < n {
        assert Encode(s)[i] == EncodeChar(s[0])[i];
      } else {
        BoundaryIsPrefixEnd(t, i - n);
        assert i < |Encode(s)| ==> Encode(s)[i] == Encode(t)[i - n];
        if i == n && t != [] {
          EncodeCharShape(t[0]);
        }
        if k :| 0 <= k <= |t| && |Encode(t[..k])| == i - n {
          assert |Encode(s[..k + 1])| == i;
        }
        if k :| 0 <= k <= |s| && |Encode(s[..k])| == i {
          assert k >= 1;
          assert |Encode(t[..k - 1])| == i - n;
        }
      }
    }
  }

  /** The bytes of a prefix are a prefix of the bytes. */
  lemma {:induction false} EncodePrefix(s: string, k: nat)
    requires k <= |s|
    ensures Encode(s[..k]) <= Encode(s)
  {
    EncodeConcat(s[..k], s[k..]);
    assert s[..k] + s[k..] == s;
  }

  /**
   `truncate_utf8`: backs up from the cap to the nearest boundary. The result is the encoding of the
   longest prefix that fits, so it is never a split codepoint.
   */
  method TruncateUtf8(s: string, max: nat) returns (out: Bytes)
    ensures out == Encode(Truncated(s, max))
  {
    var bytes := Encode(s);
    if |bytes| <= max {
      return bytes;
    }
    var end := max;
    while end > 0 && !IsCharBoundary(bytes, end)
      invariant 0 <= end <= max
      invariant forall i :: end < i <= max ==> !IsCharBoundary(bytes, i)
    {
      end := end - 1;
    }
    out := bytes[..end];
    ghost var t := Truncated(s, max);
    TruncatedIsLongest(s, max);
    EncodePrefix(s, |t|);
    assert s[..|t|] == t;
    BoundaryIsPrefixEnd(s, |Encode(t)|);
    BoundaryIsPrefixEnd(s, end);
    ghost var k :| 0 <= k <= |s| && |Encode(s[..k])| == end;
    assert k <= |t|;
    assert t[..k] == s[..k];
    PrefixShorter(t, k);
  }
}
