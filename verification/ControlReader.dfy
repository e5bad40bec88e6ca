/**
 The bounds-checked cursor as the program runs it: a buffer and a position that only moves forward.
 Each read agrees with the value-level parser on the unread bytes, and a failed read moves nothing.
 */
module ControlReader {
  import opened Prelude
  import opened Control

  /** `r` and the bytes left are what the value-level parser `spec` says. */
  ghost predicate Follows<T>(spec: Parsed<T>, r: Result<T, DecodeError>, before: Bytes, after: Bytes) {
    match spec
    case Ok(p) => r == Ok(p.0) && after == p.1
    case Err(e) => r == Err(e) && after == before
  }

  /** With `done` already read, parsing the remainder as `rest` gives `whole`. */
  ghost predicate Resumes(done: seq<U16>, rest: Parsed<seq<U16>>, whole: Parsed<seq<U16>>) {
    match rest
    case Ok(p) => whole == Ok((done + p.0, p.1))
    case Err(e) => whole == Err(e)
  }

  lemma OneMore(pressed: seq<U16>, usage: U16, left: seq<U16>)
    requires left != [] && left[0] == usage
    ensures pressed + left == pressed + [usage] + left[1..]
  {
  }

  class Reader {
    const buf: Bytes
    var pos: nat

    ghost predicate Valid()
      reads this
    {
      pos <= |buf|
    }

    ghost function Rest(): Bytes
      requires Valid()
      reads this
    {
      buf[pos..]
    }

    constructor (b: Bytes)
      ensures Valid() && Rest() == b
    {
      buf := b;
      pos := 0;
    }

    method Take(n: nat) returns (r: Result<Bytes, DecodeError>)
      requires Valid()
      modifies this
      ensures Valid() && Follows(ReadBytes(old(Rest()), n), r, old(Rest()), Rest())
    {
      if |buf| - pos < n {
        return Err(Truncated(n, |buf| - pos));
      }
      var out := buf[pos..pos + n];
      assert out == Rest()[..n] && buf[pos + n..] == Rest()[n..];
      pos := pos + n;
      return Ok(out);
    }

    method TakeU8() returns (r: Result<U8, DecodeError>)
      requires Valid()
      modifies this
      ensures Valid() && Follows(ReadU8(old(Rest())), r, old(Rest()), Rest())
    {
      var b :- Take(1);
      return Ok(b[0]);
    }

    method TakeU16() returns (r: Result<U16, DecodeError>)
      requires Valid()
      modifies this
      ensures Valid() && Follows(ReadU16(old(Rest())), r, old(Rest()), Rest())
    {
      var b :- Take(2);
      return Ok(FromU16Be(b[0], b[1]));
    }

    method TakeU32() returns (r: Result<U32, DecodeError>)
      requires Valid()
      modifies this
      ensures Valid() && Follows(ReadU32(old(Rest())), r, old(Rest()), Rest())
    {
      var b :- Take(4);
      return Ok(FromU32Be(FromU16Be(b[0], b[1]), FromU16Be(b[2], b[3])));
    }

    /** The key list of a `KeyStateSync`, read and checked one usage at a time. */
    method TakeUsages(count: nat) returns (r: Result<seq<U16>, DecodeError>)
      requires Valid()
      modifies this
      ensures Valid()
      ensures match ReadUsages(old(Rest()), count)
              case Ok(p) => r == Ok(p.0) && Rest() == p.1
              case Err(e) => r == Err(e)
    {
      var pressed: seq<U16> := [];
      ghost var whole := ReadUsages(Rest(), count);
      assert whole.Ok? ==> pressed + whole.value.0 == whole.value.0;
      for i := 0 to count
        invariant Valid() && |pressed| == i
        invariant Resumes(pressed, ReadUsages(Rest(), count - i), ReadUsages(old(Rest()), count))
      {
        ghost var spec := ReadUsages(Rest(), count - i);
        var usage :- TakeU16();
        var _ :- ValidateUsage(USAGE_PAGE_KEYBOARD, usage);
        if spec.Ok? {
          OneMore(pressed, usage, spec.value.0);
        }
        pressed := pressed + [usage];
      }
      assert pressed + [] == pressed;
      return Ok(pressed);
    }

    method TakeSync() returns (r: Decoded)
      requires Valid()
      modifies this
      ensures r == DecodeSync(old(Rest()))
    {
      var mods :- TakeU16();
      var count :- TakeU8();
      var flags :- TakeU8();
      if count > MAX_PRESSED_KEYS {
        return Err(LengthCap("count", count, MAX_PRESSED_KEYS));
      }
      var pressed :- TakeUsages(count);
      return Ok(KeyStateSync(mods, flags % 2 == 1, pressed));
    }

    method TakeVideo() returns (r: Decoded)
      requires Valid()
      modifies this
      ensures r == DecodeVideo(old(Rest()))
    {
      var id :- TakeU32();
      var index :- TakeU16();
      var count :- TakeU16();
      var kind :- TakeU8();
      var layer :- TakeU8();
      var hi :- TakeU32();
      var lo :- TakeU32();
      var len :- TakeU32();
      var _ :- CheckVideo(index, count, kind, len);
      var data :- Take(len);
      return Ok(VideoFrame(id, index, count, kind, layer, FromU64Be(hi, lo), data));
    }
  }
}
