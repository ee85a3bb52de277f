/**
 The byte layout of one direction of the shared-memory channel: how a frame is placed
 in the circular data area, what the producer marks when the tail is too short, and
 what a reader finds at a given index.

 Indices are absolute byte positions; the byte for position x lives at offset x % ds.
 */
module RingLayout {
  import opened Arith
  import opened Bytes

  datatype Frame = Frame(kind: int32, body: seq<byte>)

  const HEADER: nat := 8

  function FrameLen(f: Frame): nat { HEADER + |f.body| }

  /** The body-size test at the top of write_to: the length field is 32 bits wide. */
  predicate Sendable(f: Frame) { FrameLen(f) < TWO32 }

  /** 4-byte length (header included), 4-byte type, body. */
  function Encode(f: Frame): (r: seq<byte>)
    requires Sendable(f)
    ensures |r| == FrameLen(f)
  {
    LE32(FrameLen(f)) + LE32(ToU32(f.kind)) + f.body
  }

  /** img is the wire image of f, read field by field as the reader reads it. */
  ghost predicate IsImage(img: seq<byte>, f: Frame) {
    && Sendable(f)
    && |img| == FrameLen(f)
    && FromLE32(img[0..4]) == FrameLen(f)
    && FromLE32(img[4..8]) == ToU32(f.kind)
    && img[HEADER..FrameLen(f)] == f.body
  }

  lemma {:induction false} EncodeIsImage(f: Frame)
    requires Sendable(f)
    ensures IsImage(Encode(f), f)
  {
    var d := Encode(f);
    assert d[0..4] == LE32(FrameLen(f));
    assert d[4..8] == LE32(ToU32(f.kind));
    RoundTripLE32(FrameLen(f));
    RoundTripLE32(ToU32(f.kind));
  }

  /** A frame has one image only. */
  lemma {:induction false} ImageIsEncode(img: seq<byte>, f: Frame)
    requires IsImage(img, f)
    ensures img == Encode(f)
  {
    BytesOfLE32(img[0..4]);
    BytesOfLE32(img[4..8]);
    assert img == img[0..4] + img[4..8] + img[HEADER..FrameLen(f)];
  }

  /** The byte k places after absolute position x. */
  function ByteAt(data: seq<byte>, ds: nat, x: nat, k: nat): byte
    requires ds > 0 && |data| == ds
  {
    data[Off(x + k, ds)]
  }

  /** Contiguous bytes from position x to the end of the data area. */
  function Contig(x: nat, ds: nat): (c: nat)
    requires ds > 0
    ensures 1 <= c <= ds
  {
    ds - Off(x, ds)
  }

  /** Where a frame of length len begins when the next free position is w. */
  function Start(ds: nat, w: nat, len: nat): (s: nat)
    requires ds > 0
    ensures w <= s <= w + ds
  {
    if Contig(w, ds) < len then w + Contig(w, ds) else w
  }

  // ----- producer side -----

  /** Outcome of the two space checks of write_to. */
  datatype Placement =
    | Full          // first check failed, nothing written
    | Direct        // the frame goes at w
    | AfterSkip     // skip marker at w, the frame goes at the start of the data area
    | SkipThenFull  // skip marker written, but the second check failed

  function Place(ds: nat, w: nat, seen: nat, len: nat): Placement
    requires ds > 0 && seen <= w <= seen + ds
  {
    if ds - (w - seen) < len then Full
    else if Contig(w, ds) >= len then Direct
    else if ds - (w + Contig(w, ds) - seen) < len then SkipThenFull
    else AfterSkip
  }

  predicate Accepts(p: Placement) { p.Direct? || p.AfterSkip? }

  /** Usable body bytes of the span that *_write_ptr returns; 0 stands for the empty span. */
  function SpanCap(ds: nat, w: nat, seen: nat): nat
    requires ds > 0 && seen <= w <= seen + ds
  {
    var avail := ds - (w - seen);
    var room := if avail < Contig(w, ds) then avail else Contig(w, ds);
    if avail < HEADER || room <= HEADER then 0 else room - HEADER
  }

  /** Bytes of the skip marker: four zeros, or what is left of the tail. */
  function MarkerLen(ds: nat, w: nat): nat
    requires ds > 0
  {
    if Contig(w, ds) >= 4 then 4 else Contig(w, ds)
  }

  // ----- what the data area holds -----

  /** Absolute positions lo..hi carry the same bytes in both data areas. */
  ghost predicate AgreeOn(a: seq<byte>, b: seq<byte>, ds: nat, lo: nat, hi: nat)
    requires ds > 0 && |a| == |b| == ds
  {
    forall x: nat :: lo <= x < hi ==> a[Off(x, ds)] == b[Off(x, ds)]
  }

  ghost predicate FrameAt(data: seq<byte>, ds: nat, s: nat, f: Frame)
    requires ds > 0 && |data| == ds
  {
    && Sendable(f) && FrameLen(f) <= Contig(s, ds)
    && forall k: nat :: k < FrameLen(f) ==> ByteAt(data, ds, s, k) == Encode(f)[k]
  }

  ghost predicate MarkerAt(data: seq<byte>, ds: nat, w: nat)
    requires ds > 0 && |data| == ds
  {
    forall k: nat :: k < MarkerLen(ds, w) ==> ByteAt(data, ds, w, k) == 0
  }

  /** The position after frame f, when the ring is read or written from r. */
  function Next(ds: nat, r: nat, f: Frame): (n: nat)
    requires ds > 0
    ensures n > r
  {
    Start(ds, r, FrameLen(f)) + FrameLen(f)
  }

  /** Where the writer stands after publishing these frames, from the start. */
  function EndOf(ds: nat, q: seq<Frame>): nat
    requires ds > 0
  {
    if q == [] then 0 else Next(ds, EndOf(ds, q[..|q| - 1]), q[|q| - 1])
  }

  /** Frame f is what a reader at r comes to first, before w. */
  ghost predicate HeadAt(data: seq<byte>, ds: nat, r: nat, w: nat, f: Frame)
    requires ds > 0 && |data| == ds
  {
    var s := Start(ds, r, FrameLen(f));
    && (s != r ==> MarkerAt(data, ds, r))
    && FrameAt(data, ds, s, f)
    && Next(ds, r, f) <= w
  }

  /** Positions r..w hold exactly the frames q, in order, each with its skip marker if it needed one. */
  ghost predicate Queued(data: seq<byte>, ds: nat, r: nat, w: nat, q: seq<Frame>)
    requires ds > 0 && |data| == ds
    decreases |q|
  {
    if q == [] then r == w
    else HeadAt(data, ds, r, w, q[0]) && Queued(data, ds, Next(ds, r, q[0]), w, q[1..])
  }

  // ----- reader side -----

  datatype Header =
    | Skip
    | Corrupt
    | Whole(len: nat, kind: int32)

  /** One pass of the read loop over the bytes at offset off. */
  function ReadHeader(data: seq<byte>, off: nat): (h: Header)
    requires off < |data|
    ensures h.Whole? ==> HEADER <= h.len <= |data| - off
  {
    if |data| - off < 4 then Skip
    else
      var len := FromLE32(data[off..off + 4]);
      if len == 0 then Skip
      else if len < HEADER || len > |data| - off then Corrupt
      else Whole(len, FromU32(FromLE32(data[off + 4..off + 8])))
  }

  /** What a reader makes of any bytes: a marker exactly if fewer than four are left or four zeros come first; a frame exactly if its header's encoding comes first and it ends in the data area. */
  lemma {:induction false} HeaderReadsExactly(data: seq<byte>, off: nat)
    requires off < |data|
    ensures ReadHeader(data, off).Skip? <==> |data| - off < 4 || forall i :: off <= i < off + 4 ==> data[i] == 0
    ensures forall n: nat, kind: int32 :: n < TWO32 ==>
              (ReadHeader(data, off) == Whole(n, kind) <==>
                 && HEADER <= n <= |data| - off && off + HEADER <= |data|
                 && data[off..off + 4] == LE32(n) && data[off + 4..off + 8] == LE32(ToU32(kind)))
  {
    if |data| - off >= 4 {
      var a := data[off..off + 4];
      ZeroLE32(a);
      assert (forall i :: 0 <= i < 4 ==> a[i] == 0) <==> forall i :: off <= i < off + 4 ==> data[i] == 0 by {
        assert forall i :: off <= i < off + 4 ==> data[i] == a[i - off];
        assert forall i :: 0 <= i < 4 ==> a[i] == data[off + i];
      }
      BytesOfLE32(a);
      forall n: nat, kind: int32 | n < TWO32
        ensures ReadHeader(data, off) == Whole(n, kind) <==>
                 && HEADER <= n <= |data| - off && off + HEADER <= |data|
                 && a == LE32(n) && data[off + 4..off + 8] == LE32(ToU32(kind))
      {
        RoundTripLE32(n);
        if off + HEADER <= |data| {
          RoundTripLE32(ToU32(kind));
          BytesOfLE32(data[off + 4..off + 8]);
        }
      }
    }
  }

  // ----- positions -----

  /** A frame starts where it fits without wrapping. */
  lemma {:induction false} StartFits(ds: nat, w: nat, len: nat)
    requires ds > 0 && len <= ds
    ensures len <= Contig(Start(ds, w, len), ds)
    ensures Start(ds, w, len) != w ==> Off(Start(ds, w, len), ds) == 0
  {
    if Contig(w, ds) < len { OffWrap(w, ds); }
  }

  /** The two space checks accept a frame exactly when it ends within one lap of the read index used; a tail is marked only if it is free. */
  lemma {:induction false} PlaceRoom(ds: nat, w: nat, seen: nat, len: nat)
    requires ds > 0 && seen <= w <= seen + ds
    ensures var p := Place(ds, w, seen, len);
            && (Accepts(p) <==> Start(ds, w, len) + len <= seen + ds)
            && (p.Direct? <==> Accepts(p) && Start(ds, w, len) == w)
            && (p.AfterSkip? || p.SkipThenFull? <==> Contig(w, ds) < len && w + len <= seen + ds)
  {
  }

  /** A span offers n bytes exactly when a header and n bytes fit before the end of the data area and within one lap of the read index used. */
  lemma {:induction false} SpanExact(ds: nat, w: nat, seen: nat, n: nat)
    requires ds > 0 && seen <= w <= seen + ds && n > 0
    ensures n <= SpanCap(ds, w, seen) <==> HEADER + n <= ds - w % ds && w + HEADER + n <= seen + ds
  {
    OffIsMod(w, ds);
  }

  /** Writing one byte at a free position leaves every published byte alone. */
  lemma {:induction false} WriteFree(data: seq<byte>, ds: nat, lo: nat, hi: nat, x: nat, b: byte)
    requires ds > 0 && |data| == ds && hi <= x < lo + ds
    ensures AgreeOn(data, data[Off(x, ds) := b], ds, lo, hi)
  {
    forall y: nat | lo <= y < hi ensures data[Off(y, ds)] == data[Off(x, ds) := b][Off(y, ds)] {
      OffDistinct(y, x, ds);
    }
  }

  lemma {:induction false} EndOfAppend(ds: nat, q: seq<Frame>, f: Frame)
    requires ds > 0
    ensures EndOf(ds, q + [f]) == Next(ds, EndOf(ds, q), f)
  {
    assert (q + [f])[..|q|] == q;
  }

  lemma {:induction false} EndOfStep(ds: nat, q: seq<Frame>, n: nat)
    requires ds > 0 && n < |q|
    ensures EndOf(ds, q[..n + 1]) == Next(ds, EndOf(ds, q[..n]), q[n])
  {
    assert q[..n + 1] == q[..n] + [q[n]];
    EndOfAppend(ds, q[..n], q[n]);
  }

  /** Each publication stores a larger value. */
  lemma {:induction false} EndOfGrows(ds: nat, q: seq<Frame>, n: nat, m: nat)
    requires ds > 0 && n <= m <= |q|
    ensures EndOf(ds, q[..n]) <= EndOf(ds, q[..m])
    decreases m
  {
    if n < m {
      EndOfGrows(ds, q, n, m - 1);
      EndOfStep(ds, q, m - 1);
    }
  }

  // ----- the queue in the data area -----

  lemma {:induction false} QueuedOrder(data: seq<byte>, ds: nat, r: nat, w: nat, q: seq<Frame>)
    requires ds > 0 && |data| == ds && Queued(data, ds, r, w, q)
    ensures r <= w && (q == [] <==> r == w)
    decreases |q|
  {
    if q != [] { QueuedOrder(data, ds, Next(ds, r, q[0]), w, q[1..]); }
  }

  lemma {:induction false} HeadAgree(a: seq<byte>, b: seq<byte>, ds: nat, r: nat, w: nat, f: Frame)
    requires ds > 0 && |a| == |b| == ds && AgreeOn(a, b, ds, r, w) && HeadAt(a, ds, r, w, f)
    ensures HeadAt(b, ds, r, w, f)
  {
    var s := Start(ds, r, FrameLen(f));
    if s != r {
      forall k: nat | k < MarkerLen(ds, r) ensures ByteAt(b, ds, r, k) == 0 {
        assert ByteAt(a, ds, r, k) == 0;
      }
    }
    forall k: nat | k < FrameLen(f) ensures ByteAt(b, ds, s, k) == Encode(f)[k] {
      assert ByteAt(a, ds, s, k) == Encode(f)[k];
    }
  }

  lemma {:induction false} QueuedAgree(a: seq<byte>, b: seq<byte>, ds: nat, r: nat, w: nat, q: seq<Frame>)
    requires ds > 0 && |a| == |b| == ds
    requires Queued(a, ds, r, w, q) && AgreeOn(a, b, ds, r, w)
    ensures Queued(b, ds, r, w, q)
    decreases |q|
  {
    if q != [] {
      var n := Next(ds, r, q[0]);
      HeadAgree(a, b, ds, r, w, q[0]);
      assert AgreeOn(a, b, ds, n, w);
      QueuedAgree(a, b, ds, n, w, q[1..]);
    }
  }

  /** Publishing one more frame after w extends the queue by that frame. */
  lemma {:induction false} QueuedAppend(data: seq<byte>, ds: nat, r: nat, w: nat, q: seq<Frame>, f: Frame)
    requires ds > 0 && |data| == ds && Queued(data, ds, r, w, q)
    requires HeadAt(data, ds, w, Next(ds, w, f), f)
    ensures Queued(data, ds, r, Next(ds, w, f), q + [f])
    decreases |q|
  {
    if q == [] {
      assert (q + [f])[1..] == [];
    } else {
      QueuedOrder(data, ds, r, w, q);
      QueuedAppend(data, ds, Next(ds, r, q[0]), w, q[1..], f);
      assert (q + [f])[1..] == q[1..] + [f];
    }
  }

  /** Bytes stored one by one from position s onwards, seen as a slice. */
  lemma {:induction false} BytesAsSlice(data: seq<byte>, ds: nat, s: nat, img: seq<byte>)
    requires ds > 0 && |data| == ds && |img| <= Contig(s, ds)
    requires forall k: nat :: k < |img| ==> ByteAt(data, ds, s, k) == img[k]
    ensures data[Off(s, ds)..Off(s, ds) + |img|] == img
  {
    var o := Off(s, ds);
    forall j | o <= j < o + |img| ensures data[j] == img[j - o] {
      OffNext(s, j - o, ds);
      assert ByteAt(data, ds, s, j - o) == img[j - o];
    }
  }

  /** And the other way round. */
  lemma {:induction false} SliceAsBytes(data: seq<byte>, ds: nat, s: nat, img: seq<byte>)
    requires ds > 0 && |data| == ds && |img| <= Contig(s, ds)
    requires data[Off(s, ds)..Off(s, ds) + |img|] == img
    ensures forall k: nat :: k < |img| ==> ByteAt(data, ds, s, k) == img[k]
  {
    var o := Off(s, ds);
    forall k: nat | k < |img| ensures ByteAt(data, ds, s, k) == img[k] {
      OffNext(s, k, ds);
      assert data[o + k] == data[o..o + |img|][k];
    }
  }

  /** An image in the data area, read as the reader reads it. */
  lemma {:induction false} ReadImage(data: seq<byte>, off: nat, img: seq<byte>, f: Frame)
    requires IsImage(img, f) && off + |img| <= |data| && data[off..off + |img|] == img
    ensures ReadHeader(data, off) == Whole(FrameLen(f), f.kind) && data[off + HEADER..off + FrameLen(f)] == f.body
  {
    SliceOfSlice(data, off, FrameLen(f), 0, 4);
    SliceOfSlice(data, off, FrameLen(f), 4, 8);
    SliceOfSlice(data, off, FrameLen(f), HEADER, FrameLen(f));
  }

  /** Reading the header of a frame and slicing its body gives the frame back. */
  lemma {:induction false} ReadWhole(data: seq<byte>, ds: nat, s: nat, f: Frame)
    requires ds > 0 && |data| == ds && FrameAt(data, ds, s, f)
    ensures ReadHeader(data, Off(s, ds)) == Whole(FrameLen(f), f.kind)
    ensures data[Off(s, ds) + HEADER..Off(s, ds) + FrameLen(f)] == f.body
  {
    EncodeIsImage(f);
    BytesAsSlice(data, ds, s, Encode(f));
    ReadImage(data, Off(s, ds), Encode(f), f);
  }

  lemma {:induction false} ReadSkip(data: seq<byte>, ds: nat, r: nat)
    requires ds > 0 && |data| == ds && MarkerAt(data, ds, r)
    ensures ReadHeader(data, Off(r, ds)) == Skip
  {
    var o := Off(r, ds);
    if ds - o >= 4 {
      forall j | o <= j < o + 4 ensures data[j] == 0 {
        OffNext(r, j - o, ds);
        assert ByteAt(data, ds, r, j - o) == 0;
      }
      ValueZeros(data[o..o + 4]);
    }
  }

  /** The reader never meets a corrupt header, and skips exactly when the head frame was pushed to the front. */
  lemma {:induction false} ReadQueued(data: seq<byte>, ds: nat, r: nat, w: nat, q: seq<Frame>)
    requires ds > 0 && |data| == ds && Queued(data, ds, r, w, q) && q != []
    ensures var s := Start(ds, r, FrameLen(q[0]));
            if s == r then
              && ReadHeader(data, Off(r, ds)) == Whole(FrameLen(q[0]), q[0].kind)
              && data[Off(r, ds) + HEADER..Off(r, ds) + FrameLen(q[0])] == q[0].body
            else
              && ReadHeader(data, Off(r, ds)) == Skip
              && s == r + Contig(r, ds)
              && Off(s, ds) == 0
              && Queued(data, ds, s, w, q)
              && Start(ds, s, FrameLen(q[0])) == s
  {
    var s := Start(ds, r, FrameLen(q[0]));
    if s == r {
      ReadWhole(data, ds, r, q[0]);
    } else {
      ReadSkip(data, ds, r);
      OffWrap(r, ds);
    }
  }

  /** Where the marker in front of the oldest frame leads. */
  lemma {:induction false} SkipTarget(data: seq<byte>, ds: nat, r: nat, w: nat, q: seq<Frame>)
    requires ds > 0 && |data| == ds && Queued(data, ds, r, w, q) && q != [] && Start(ds, r, FrameLen(q[0])) != r
    ensures var t := Start(ds, r, FrameLen(q[0]));
            && ReadHeader(data, Off(r, ds)) == Skip && t == r + Contig(r, ds) && t <= w
            && Off(t, ds) == 0 && Queued(data, ds, t, w, q) && Start(ds, t, FrameLen(q[0])) == t
  {
    ReadQueued(data, ds, r, w, q);
    QueuedOrder(data, ds, Start(ds, r, FrameLen(q[0])), w, q);
  }
}
