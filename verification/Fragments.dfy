/** Splitting a compressed frame into wire-sized fragments. */
module Fragments {
  import opened Prelude
  import opened Control

  /** A compressed frame as the sender hands it over. */
  datatype Source = Source(frameId: U32, kind: FrameKind, temporalLayer: U8, ptsUs: U64, data: Bytes)

  /** What a sender may transmit: a frame within the size cap. */
  predicate Sendable(f: Source) {
    |f.data| <= MAX_VIDEO_FRAME
  }

  /** The code the sender puts on the wire for a kind. */
  function WireCode(kind: FrameKind): U8 {
    match kind case Delta => 0 case Keyframe => 1 case LtrRecovery => 2
  }

  /** `slice::chunks(MAX_VIDEO_FRAGMENT)`. */
  function Chunks(data: Bytes): seq<Bytes>
    decreases |data|
  {
    if data == [] then []
    else if |data| <= MAX_VIDEO_FRAGMENT then [data]
    else [data[..MAX_VIDEO_FRAGMENT]] + Chunks(data[MAX_VIDEO_FRAGMENT..])
  }

  /** An empty frame still yields one, empty, piece. */
  function Pieces(data: Bytes): seq<Bytes> {
    if data == [] then [[]] else Chunks(data)
  }

  /** `Payload::fragment_video`; the index and count are narrowed to 16 bits. */
  function FragmentVideo(f: Source): (r: seq<Payload>)
    ensures |r| == |Pieces(f.data)|
  {
    var pieces := Pieces(f.data);
    seq(|pieces|, i requires 0 <= i < |pieces| =>
      VideoFrame(f.frameId, i % 0x1_0000, |pieces| % 0x1_0000, WireCode(f.kind), f.temporalLayer, f.ptsUs, pieces[i]))
  }

  lemma {:induction false} ChunksCover(data: Bytes)
    ensures Concat(Chunks(data)) == data
    decreases |data|
  {
    if data == [] {
    } else if |data| <= MAX_VIDEO_FRAGMENT {
      assert Chunks(data) == [data] && Chunks(data)[1..] == [];
      assert data + [] == data;
    } else {
      var head, tail := data[..MAX_VIDEO_FRAGMENT], data[MAX_VIDEO_FRAGMENT..];
      ChunksCover(tail);
      assert Chunks(data)[1..] == Chunks(tail);
      assert head + tail == data;
    }
  }

  lemma {:induction false} ChunksSized(data: Bytes)
    ensures forall i :: 0 <= i < |Chunks(data)| ==> 0 < |Chunks(data)[i]| <= MAX_VIDEO_FRAGMENT
    decreases |data|
  {
    if |data| > MAX_VIDEO_FRAGMENT {
      ChunksSized(data[MAX_VIDEO_FRAGMENT..]);
    }
  }

  lemma {:induction false} ChunksCount(data: Bytes)
    ensures |Chunks(data)| == (|data| + MAX_VIDEO_FRAGMENT - 1) / MAX_VIDEO_FRAGMENT
    decreases |data|
  {
    if |data| > MAX_VIDEO_FRAGMENT {
      ChunksCount(data[MAX_VIDEO_FRAGMENT..]);
    }
  }

  lemma PiecesCover(data: Bytes)
    ensures Concat(Pieces(data)) == data
    ensures 1 <= |Pieces(data)|
    ensures |data| <= MAX_VIDEO_FRAME ==> |Pieces(data)| <= MAX_VIDEO_FRAGMENTS
    ensures forall i :: 0 <= i < |Pieces(data)| ==> |Pieces(data)[i]| <= MAX_VIDEO_FRAGMENT
  {
    ChunksCover(data);
    ChunksSized(data);
    ChunksCount(data);
    if data == [] {
      assert Pieces(data)[1..] == [];
    }
  }

  /** The fragment at position `k` of a sendable frame, with no narrowing left. */
  function Fragment(f: Source, k: nat): Payload
    requires k < |Pieces(f.data)| <= MAX_VIDEO_FRAGMENTS
  {
    VideoFrame(f.frameId, k, |Pieces(f.data)|, WireCode(f.kind), f.temporalLayer, f.ptsUs, Pieces(f.data)[k])
  }

  lemma FragmentAt(f: Source, k: nat)
    requires Sendable(f) && k < |Pieces(f.data)|
    ensures |Pieces(f.data)| <= MAX_VIDEO_FRAGMENTS
    ensures FragmentVideo(f)[k] == Fragment(f, k) && PayloadOk(Fragment(f, k))
  {
    PiecesCover(f.data);
  }

  /**
   The fragments of a sendable frame are accepted by the decoder, carry their position, and
   concatenate in index order to the original bytes.
   */
  lemma FragmentsCover(f: Source)
    requires Sendable(f)
    ensures 1 <= |FragmentVideo(f)| <= MAX_VIDEO_FRAGMENTS
    ensures Concat(Pieces(f.data)) == f.data
    ensures forall k :: 0 <= k < |FragmentVideo(f)| ==>
              && PayloadOk(FragmentVideo(f)[k])
              && FragmentVideo(f)[k] == VideoFrame(f.frameId, k, |FragmentVideo(f)|, WireCode(f.kind),
                                                   f.temporalLayer, f.ptsUs, Pieces(f.data)[k])
  {
    PiecesCover(f.data);
    forall k | 0 <= k < |FragmentVideo(f)|
      ensures FragmentVideo(f)[k] == Fragment(f, k) && PayloadOk(FragmentVideo(f)[k])
    {
      FragmentAt(f, k);
    }
  }
}
