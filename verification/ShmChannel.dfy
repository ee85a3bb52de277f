/**
 One direction of the shared-memory channel as the code runs it: an array of bytes, two
 indices and the pin, changed in place by the two write forms, the two read forms and the
 client's send. The other side's progress enters through the index values a call loads.
 */
module ShmChannel {
  import opened Arith
  import opened Bytes
  import opened Options
  import opened RingLayout

  datatype SendError = Ok | ServiceError | ConnClosed | Backoff

  /** The data area after bytes were copied over it at offset off. */
  function Patch(d: seq<byte>, off: nat, bytes: seq<byte>): (r: seq<byte>)
    requires off + |bytes| <= |d|
    ensures |r| == |d|
  {
    d[..off] + bytes + d[off + |bytes|..]
  }

  /** Copying to positions x.. leaves the published positions lo..hi alone. */
  lemma {:induction false} PatchKeeps(d: seq<byte>, ds: nat, x: nat, bytes: seq<byte>, lo: nat, hi: nat)
    requires ds > 0 && |d| == ds && hi <= x && x + |bytes| <= lo + ds && |bytes| <= Contig(x, ds)
    ensures AgreeOn(d, Patch(d, Off(x, ds), bytes), ds, lo, hi)
  {
    var o := Off(x, ds);
    forall y: nat | lo <= y < hi ensures d[Off(y, ds)] == Patch(d, o, bytes)[Off(y, ds)] {
      if o <= Off(y, ds) < o + |bytes| {
        OffNext(x, Off(y, ds) - o, ds);
        OffDistinct(y, x + (Off(y, ds) - o), ds);
      }
    }
  }

  lemma {:induction false} PatchSlice(d: seq<byte>, off: nat, bytes: seq<byte>)
    requires off + |bytes| <= |d|
    ensures Patch(d, off, bytes)[off..off + |bytes|] == bytes
  {
  }

  lemma {:induction false} MarkerPatched(d: seq<byte>, ds: nat, w: nat, zeros: seq<byte>)
    requires ds > 0 && |d| == ds && |zeros| == MarkerLen(ds, w) && forall i :: 0 <= i < |zeros| ==> zeros[i] == 0
    ensures MarkerAt(Patch(d, Off(w, ds), zeros), ds, w)
  {
    var p := Patch(d, Off(w, ds), zeros);
    forall k: nat | k < MarkerLen(ds, w) ensures ByteAt(p, ds, w, k) == 0 {
      OffNext(w, k, ds);
    }
  }

  /** A marker at w survives a copy to later positions less than one lap away. */
  lemma {:induction false} MarkerKept(d: seq<byte>, ds: nat, w: nat, x: nat, bytes: seq<byte>)
    requires ds > 0 && |d| == ds && MarkerAt(d, ds, w) && w + MarkerLen(ds, w) <= x
    requires x + |bytes| <= w + ds && |bytes| <= Contig(x, ds)
    ensures MarkerAt(Patch(d, Off(x, ds), bytes), ds, w)
  {
    var p := Patch(d, Off(x, ds), bytes);
    PatchKeeps(d, ds, x, bytes, w, w + MarkerLen(ds, w));
    forall k: nat | k < MarkerLen(ds, w) ensures ByteAt(p, ds, w, k) == 0 {
      assert ByteAt(d, ds, w, k) == 0;
    }
  }

  /** A frame copied to its place, after its marker if it needs one, is what a reader at w comes to. */
  lemma {:induction false} FrameLands(d: seq<byte>, ds: nat, w: nat, f: Frame)
    requires ds > 0 && |d| == ds && Sendable(f) && FrameLen(f) <= ds
    requires var s := Start(ds, w, FrameLen(f)); s + FrameLen(f) <= w + ds && (s != w ==> MarkerAt(d, ds, w))
    requires FrameLen(f) <= Contig(Start(ds, w, FrameLen(f)), ds)
    ensures HeadAt(Patch(d, Off(Start(ds, w, FrameLen(f)), ds), Encode(f)), ds, w, Next(ds, w, f), f)
  {
    var s, img := Start(ds, w, FrameLen(f)), Encode(f);
    PatchSlice(d, Off(s, ds), img);
    SliceAsBytes(Patch(d, Off(s, ds), img), ds, s, img);
    if s != w { MarkerKept(d, ds, w, s, img); }
  }

  /** A frame that fits where the writer stands is where a reader there looks first. */
  lemma {:induction false} PlacedIsHead(d: seq<byte>, ds: nat, w: nat, f: Frame)
    requires ds > 0 && |d| == ds && FrameAt(d, ds, w, f)
    ensures Next(ds, w, f) == w + FrameLen(f) && HeadAt(d, ds, w, Next(ds, w, f), f)
  {
  }

  /**
   One attempt of a waiting write: the frames the reader has released since the attempt before,
   whether it has also stepped over a marker, and the value of read_idx loaded, which may be older.
   */
  datatype Attempt = Attempt(released: nat, skipped: bool, seen: nat)

  /** Some attempt finds room for len bytes. */
  ghost predicate SomeAccepts(ds: nat, w: nat, attempts: seq<Attempt>, len: nat)
    requires ds > 0
  {
    exists i :: 0 <= i < |attempts| && AttemptAccepts(ds, w, attempts[i], len)
  }

  /** None of the first n attempts finds room. */
  ghost predicate NoneAccepts(ds: nat, w: nat, attempts: seq<Attempt>, n: nat, len: nat)
    requires ds > 0 && n <= |attempts|
  {
    forall i :: 0 <= i < n ==> !AttemptAccepts(ds, w, attempts[i], len)
  }

  lemma {:induction false} NoneNext(ds: nat, w: nat, attempts: seq<Attempt>, n: nat, len: nat)
    requires ds > 0 && n < |attempts| && NoneAccepts(ds, w, attempts, n, len)
    ensures !AttemptAccepts(ds, w, attempts[n], len) ==> NoneAccepts(ds, w, attempts, n + 1, len)
  {
  }

  lemma {:induction false} SomeOrNone(ds: nat, w: nat, attempts: seq<Attempt>, len: nat)
    requires ds > 0
    ensures SomeAccepts(ds, w, attempts, len) <==> !NoneAccepts(ds, w, attempts, |attempts|, len)
  {
  }

  predicate AttemptAccepts(ds: nat, w: nat, a: Attempt, len: nat)
    requires ds > 0
  {
    a.seen <= w <= a.seen + ds && Accepts(Place(ds, w, a.seen, len))
  }

  /** Where a reader at r stands after n frames of the queue. */
  function After(ds: nat, r: nat, q: seq<Frame>, n: nat): nat
    requires ds > 0 && n <= |q|
  {
    if n == 0 then r else Next(ds, After(ds, r, q, n - 1), q[n - 1])
  }

  function ReaderAt(ds: nat, r: nat, q: seq<Frame>, a: Attempt): nat
    requires ds > 0 && a.released <= |q|
  {
    var p := After(ds, r, q, a.released);
    if a.skipped && a.released < |q| then Start(ds, p, FrameLen(q[a.released])) else p
  }

  /** From the n-th on, attempts a writer at w can come to make while a reader at r works on the queue. */
  ghost predicate Feasible(ds: nat, w: nat, r: nat, q: seq<Frame>, attempts: seq<Attempt>, n: nat)
    requires ds > 0 && n <= |attempts|
    decreases |attempts| - n
  {
    n == |attempts| ||
    var a := attempts[n];
    && a.released <= |q| && a.seen <= ReaderAt(ds, r, q, a) && a.seen <= w <= a.seen + ds
    && Feasible(ds, w, ReaderAt(ds, r, q, a), q[a.released..], attempts, n + 1)
  }

  /** Frames released up to the n-th attempt. */
  function Taken(attempts: seq<Attempt>, n: nat): nat
    requires n <= |attempts|
  {
    if n == 0 then 0 else Taken(attempts, n - 1) + attempts[n - 1].released
  }

  lemma {:induction false} DropTwice<T>(s: seq<T>, m: nat, n: nat)
    requires m <= |s| && n <= |s[m..]|
    ensures m + n <= |s| && s[m..][n..] == s[m + n..] && s[m..][n..] + [] == s[m + n..]
  {
  }

  lemma {:induction false} AgreeThrough(a: seq<byte>, b: seq<byte>, c: seq<byte>, ds: nat, r: nat, r': nat, w: nat)
    requires ds > 0 && |a| == |b| == |c| == ds && r <= r'
    requires AgreeOn(a, b, ds, r, w) && AgreeOn(b, c, ds, r', w)
    ensures AgreeOn(a, c, ds, r', w)
  {
    forall x: nat | r' <= x < w ensures a[Off(x, ds)] == c[Off(x, ds)] {
      assert a[Off(x, ds)] == b[Off(x, ds)];
    }
  }

  class Ring {
    const data: array<byte>
    var writeIdx: nat
    var readIdx: nat
    var pinnedEnd: nat        // end of the view not yet released; 0 = none
    ghost var queue: seq<Frame>

    ghost predicate Valid()
      reads this, data
    {
      && data.Length > 0
      && readIdx <= writeIdx <= readIdx + data.Length
      && Queued(data[..], data.Length, readIdx, writeIdx, queue)
      && (pinnedEnd != 0 ==>
            queue != [] && Start(data.Length, readIdx, FrameLen(queue[0])) == readIdx
            && pinnedEnd == Next(data.Length, readIdx, queue[0]))
    }

    constructor (size: nat)
      requires size > 0
      ensures Valid() && fresh(data) && data.Length == size
      ensures queue == [] && writeIdx == readIdx == pinnedEnd == 0
    {
      data := new byte[size];
      writeIdx, readIdx, pinnedEnd, queue := 0, 0, 0, [];
    }

    /** A value of read_idx the producer may load: possibly old, never older than its own publications relied on. */
    ghost predicate Loadable(seen: nat)
      reads this
    {
      seen <= readIdx && seen <= writeIdx <= seen + data.Length
    }

    /** memcpy into the data area. */
    method Copy(off: nat, bytes: seq<byte>)
      requires off + |bytes| <= data.Length
      modifies data
      ensures data[..] == Patch(old(data[..]), off, bytes)
    {
      forall i | 0 <= i < |bytes| { data[off + i] := bytes[i]; }
    }

    /** Copy to free positions: every published byte, and so the queue and a pinned view, stays as it was. */
    method CopyFree(ghost x: nat, off: nat, bytes: seq<byte>)
      requires Valid() && off == Off(x, data.Length) && off + |bytes| <= data.Length
      requires writeIdx <= x && x + |bytes| <= readIdx + data.Length
      modifies data
      ensures Valid() && data[..] == Patch(old(data[..]), off, bytes)
      ensures AgreeOn(old(data[..]), data[..], data.Length, readIdx, writeIdx)
    {
      ghost var before := data[..];
      Copy(off, bytes);
      PatchKeeps(before, data.Length, x, bytes, readIdx, writeIdx);
      QueuedAgree(before, data[..], data.Length, readIdx, writeIdx, queue);
    }

    /** The store of write_idx that makes a finished frame visible. */
    method Publish(ghost f: Frame, end: nat)
      requires Valid() && HeadAt(data[..], data.Length, writeIdx, end, f)
      requires end == Next(data.Length, writeIdx, f) <= readIdx + data.Length
      modifies this`writeIdx, this`queue
      ensures Valid() && queue == old(queue) + [f] && writeIdx == end && data[..] == old(data[..])
    {
      QueuedAppend(data[..], data.Length, readIdx, writeIdx, queue, f);
      writeIdx := end;
      queue := queue + [f];
    }

    /** The skip marker over an unusable tail. */
    method MarkSkip()
      requires Valid() && writeIdx + Contig(writeIdx, data.Length) <= readIdx + data.Length
      modifies data
      ensures Valid() && MarkerAt(data[..], data.Length, writeIdx)
      ensures AgreeOn(old(data[..]), data[..], data.Length, readIdx, writeIdx)
    {
      var zeros := if Contig(writeIdx, data.Length) >= 4 then [0, 0, 0, 0] else [0, 0, 0][..Contig(writeIdx, data.Length)];
      ghost var before := data[..];
      CopyFree(writeIdx, Off(writeIdx, data.Length), zeros);
      MarkerPatched(before, data.Length, writeIdx, zeros);
    }

    /** Length, type and body at the chosen place, then publication. */
    method WriteFrame(f: Frame)
      requires Valid() && Sendable(f) && FrameLen(f) <= data.Length
      requires Next(data.Length, writeIdx, f) <= readIdx + data.Length
      requires Start(data.Length, writeIdx, FrameLen(f)) != writeIdx ==> MarkerAt(data[..], data.Length, writeIdx)
      modifies data, this`writeIdx, this`queue
      ensures Valid() && queue == old(queue) + [f] && writeIdx == Next(data.Length, old(writeIdx), f)
      ensures AgreeOn(old(data[..]), data[..], data.Length, readIdx, old(writeIdx))
    {
      ghost var before := data[..];
      var s := Start(data.Length, writeIdx, FrameLen(f));
      StartFits(data.Length, writeIdx, FrameLen(f));
      CopyFree(s, Off(s, data.Length), Encode(f));
      FrameLands(before, data.Length, writeIdx, f);
      Publish(f, s + FrameLen(f));
    }

    /** What the reader does between two attempts, with its own operations. */
    method ReaderMoves(a: Attempt)
      requires Valid() && a.released <= |queue|
      modifies this`readIdx, this`pinnedEnd, this`queue
      ensures Valid() && queue == old(queue)[a.released..] && data[..] == old(data[..])
      ensures old(readIdx) <= readIdx == ReaderAt(data.Length, old(readIdx), old(queue), a)
    {
      var i := 0;
      while i < a.released
        invariant 0 <= i <= a.released && Valid() && data[..] == old(data[..])
        invariant queue == old(queue)[i..] && readIdx == After(data.Length, old(readIdx), old(queue), i) >= old(readIdx)
      {
        TakeOne();
        i := i + 1;
      }
      if a.skipped && pinnedEnd == 0 && writeIdx != readIdx { SkipMarker(); }
    }

    /** The reader takes out the oldest frame: the view it holds, or a copy. */
    method TakeOne()
      requires Valid() && queue != []
      modifies this`readIdx, this`pinnedEnd, this`queue
      ensures Valid() && queue == old(queue)[1..] && data[..] == old(data[..])
      ensures readIdx == Next(data.Length, old(readIdx), old(queue)[0])
    {
      if pinnedEnd != 0 { ReleaseFrameView(); } else { var _, _, _ := ReadFrom(); }
    }

    /** The reader steps over a marker, if it stands at one. */
    method SkipMarker()
      requires Valid() && pinnedEnd == 0 && writeIdx != readIdx
      modifies this`readIdx
      ensures Valid() && data[..] == old(data[..])
      ensures queue != [] && readIdx == Start(data.Length, old(readIdx), FrameLen(queue[0]))
    {
      var h := Inspect();
      if h.Skip? { StepOver(); }
    }

    /**
     write_to. attempts are the attempts the wait budget allows, with the reader's progress between
     them; tries is how many were made. The frame is enqueued exactly when some attempt finds room
     for it.
     */
    method WriteTo(body: seq<byte>, kind: int32, attempts: seq<Attempt>) returns (ok: bool, tries: nat)
      requires Valid() && |attempts| > 0 && Feasible(data.Length, writeIdx, readIdx, queue, attempts, 0)
      modifies data, this`writeIdx, this`readIdx, this`pinnedEnd, this`queue
      ensures Valid() && readIdx >= old(readIdx)
      ensures AgreeOn(old(data[..]), data[..], data.Length, readIdx, old(writeIdx))
      ensures tries <= |attempts| && Taken(attempts, tries) <= |old(queue)|
      ensures var len := HEADER + |body|;
              && (len >= TWO32 || len > data.Length ==> !ok && tries == 0)
              && (ok <==> len < TWO32 && len <= data.Length && SomeAccepts(data.Length, old(writeIdx), attempts, len))
      ensures ok ==> queue == old(queue)[Taken(attempts, tries)..] + [Frame(kind, body)]
                     && writeIdx == Next(data.Length, old(writeIdx), Frame(kind, body))
      ensures !ok ==> queue == old(queue)[Taken(attempts, tries)..] && writeIdx == old(writeIdx)
    {
      ok, tries := false, 0;
      if HEADER + |body| >= TWO32 || HEADER + |body| > data.Length { return; }
      ok, tries := TryAll(Frame(kind, body), attempts);
      SomeOrNone(data.Length, old(writeIdx), attempts, HEADER + |body|);
    }

    /** The attempts one after the other, up to the first that finds room. */
    method TryAll(f: Frame, attempts: seq<Attempt>) returns (ok: bool, tries: nat)
      requires Valid() && Sendable(f) && FrameLen(f) <= data.Length
      requires Feasible(data.Length, writeIdx, readIdx, queue, attempts, 0)
      modifies data, this`writeIdx, this`readIdx, this`pinnedEnd, this`queue
      ensures Valid() && readIdx >= old(readIdx) && tries <= |attempts| && Taken(attempts, tries) <= |old(queue)|
      ensures AgreeOn(old(data[..]), data[..], data.Length, readIdx, old(writeIdx))
      ensures ok ==> SomeAccepts(data.Length, old(writeIdx), attempts, FrameLen(f))
      ensures !ok ==> NoneAccepts(data.Length, old(writeIdx), attempts, |attempts|, FrameLen(f))
      ensures ok ==> queue == old(queue)[Taken(attempts, tries)..] + [f] && writeIdx == Next(data.Length, old(writeIdx), f)
      ensures !ok ==> queue == old(queue)[Taken(attempts, tries)..] && writeIdx == old(writeIdx)
    {
      ok, tries := false, 0;
      while tries < |attempts|
        invariant 0 <= tries <= |attempts| && Valid() && writeIdx == old(writeIdx) && !ok
        invariant Waited(old(data[..]), old(readIdx), old(queue), Taken(attempts, tries))
        invariant Feasible(data.Length, writeIdx, readIdx, queue, attempts, tries)
        invariant NoneAccepts(data.Length, old(writeIdx), attempts, tries, FrameLen(f))
      {
        ok := TryNext(f, attempts, tries, old(data[..]), old(readIdx), old(queue));
        tries := tries + 1;
        if ok { return; }
      }
    }

    /** The i-th attempt, after i that found no room. */
    method TryNext(f: Frame, attempts: seq<Attempt>, i: nat, ghost d: seq<byte>, ghost r: nat, ghost q: seq<Frame>) returns (ok: bool)
      requires Valid() && Sendable(f) && FrameLen(f) <= data.Length && i < |attempts|
      requires Waited(d, r, q, Taken(attempts, i)) && Feasible(data.Length, writeIdx, readIdx, queue, attempts, i)
      requires NoneAccepts(data.Length, writeIdx, attempts, i, FrameLen(f))
      modifies data, this`writeIdx, this`readIdx, this`pinnedEnd, this`queue
      ensures Valid() && Taken(attempts, i + 1) <= |q|
      ensures ok ==> r <= readIdx && AgreeOn(d, data[..], data.Length, readIdx, old(writeIdx))
      ensures ok ==> AttemptAccepts(data.Length, old(writeIdx), attempts[i], FrameLen(f))
      ensures ok ==> queue == q[Taken(attempts, i + 1)..] + [f] && writeIdx == Next(data.Length, old(writeIdx), f)
      ensures !ok ==>
                && writeIdx == old(writeIdx) && Waited(d, r, q, Taken(attempts, i + 1))
                && Feasible(data.Length, writeIdx, readIdx, queue, attempts, i + 1)
                && NoneAccepts(data.Length, writeIdx, attempts, i + 1, FrameLen(f))
    {
      ghost var w, len := writeIdx, FrameLen(f);
      ok := Round(f, attempts[i], d, r, q, Taken(attempts, i));
      NoneNext(data.Length, w, attempts, i, len);
    }

    /** Since a time when data, read_idx and queue were these, the reader has released n frames and no byte still published has changed. */
    ghost predicate Waited(d: seq<byte>, r: nat, q: seq<Frame>, n: nat)
      reads this, data
    {
      && |d| == data.Length > 0 && r <= readIdx && n <= |q| && queue == q[n..]
      && AgreeOn(d, data[..], data.Length, readIdx, writeIdx)
    }

    /** The reader's progress, then one attempt. */
    method Round(f: Frame, a: Attempt, ghost d: seq<byte>, ghost r: nat, ghost q: seq<Frame>, ghost n: nat) returns (ok: bool)
      requires Valid() && Waited(d, r, q, n) && Sendable(f) && FrameLen(f) <= data.Length && a.released <= |queue|
      requires a.seen <= ReaderAt(data.Length, readIdx, queue, a) && a.seen <= writeIdx <= a.seen + data.Length
      modifies data, this`writeIdx, this`readIdx, this`pinnedEnd, this`queue
      ensures Valid() && r <= readIdx == ReaderAt(data.Length, old(readIdx), old(queue), a)
      ensures ok ==> AgreeOn(d, data[..], data.Length, readIdx, old(writeIdx))
      ensures ok == AttemptAccepts(data.Length, old(writeIdx), a, FrameLen(f))
      ensures n + a.released <= |q|
      ensures ok ==> queue == q[n + a.released..] + [f] && writeIdx == Next(data.Length, old(writeIdx), f)
      ensures !ok ==> writeIdx == old(writeIdx) && queue == old(queue)[a.released..] && Waited(d, r, q, n + a.released)
    {
      DropTwice(q, n, a.released);
      ghost var before, from := data[..], readIdx;
      ReaderMoves(a);
      ok := TryWrite(f, a.seen);
      AgreeThrough(d, before, data[..], data.Length, from, readIdx, old(writeIdx));
    }

    /** One attempt: the space checks, the marker if the tail is too short, the frame if there is room. */
    method TryWrite(f: Frame, seen: nat) returns (ok: bool)
      requires Valid() && Loadable(seen) && Sendable(f) && FrameLen(f) <= data.Length
      modifies data, this`writeIdx, this`queue
      ensures Valid() && AgreeOn(old(data[..]), data[..], data.Length, readIdx, old(writeIdx))
      ensures ok == Accepts(Place(data.Length, old(writeIdx), seen, FrameLen(f)))
      ensures ok ==> queue == old(queue) + [f] && writeIdx == Next(data.Length, old(writeIdx), f)
      ensures !ok ==> queue == old(queue) && writeIdx == old(writeIdx)
    {
      var place := Place(data.Length, writeIdx, seen, FrameLen(f));
      PlaceRoom(data.Length, writeIdx, seen, FrameLen(f));
      ok := Accepts(place);
      if place.AfterSkip? || place.SkipThenFull? { MarkSkip(); }
      if ok { WriteFrame(f); }
    }

    /** *_write_ptr: where the body may be serialised, and how many bytes; cap 0 is the empty span. */
    method WritePtr(seen: nat) returns (off: nat, cap: nat)
      requires Valid() && Loadable(seen)
      ensures cap == SpanCap(data.Length, writeIdx, seen)
      ensures forall n: nat :: 0 < n <= cap <==> FitsSpan(data.Length, writeIdx, seen, n)
      ensures cap > 0 ==> off == Off(writeIdx, data.Length) + HEADER
                          && HEADER + cap <= Contig(writeIdx, data.Length)
                          && writeIdx + HEADER + cap <= readIdx + data.Length
    {
      SpanFits(data.Length, writeIdx, seen);
      var avail := data.Length - (writeIdx - seen);
      if avail < HEADER { return 0, 0; }
      off := Off(writeIdx, data.Length);
      var contig := data.Length - off;
      var room := if avail < contig then avail else contig;
      if room <= HEADER { return 0, 0; }
      return off + HEADER, room - HEADER;
    }

    /** The serialiser fills the first bytes of the span. */
    method Serialize(bytes: seq<byte>, ghost cap: nat)
      requires Valid() && 0 < cap && |bytes| <= cap && HEADER + cap <= Contig(writeIdx, data.Length)
      requires writeIdx + HEADER + cap <= readIdx + data.Length
      modifies data
      ensures Valid() && AgreeOn(old(data[..]), data[..], data.Length, readIdx, writeIdx)
      ensures data[..] == Patch(old(data[..]), Off(writeIdx, data.Length) + HEADER, bytes)
    {
      OffNext(writeIdx, HEADER, data.Length);
      CopyFree(writeIdx + HEADER, Off(writeIdx, data.Length) + HEADER, bytes);
    }

    /**
     *_commit: writes the header in front of the span and publishes. The caller committed no more
     than the span offers. The frame length is cut to 32 bits, so the frame the span holds is
     enqueued exactly when it is shorter than 2^32 bytes. A cut length of at least the header
     enqueues a frame with a shorter body; a cut length of 0 publishes nothing; any other leaves
     a corrupt header behind the frames queued so far.
     */
    method Commit(bodyLen: nat, kind: int32)
      requires Valid() && HEADER + bodyLen <= Contig(writeIdx, data.Length)
      requires writeIdx + HEADER + bodyLen <= readIdx + data.Length
      modifies data, this`writeIdx, this`queue
      ensures writeIdx == old(writeIdx) + CommitLen(bodyLen)
      ensures AgreeOn(old(data[..]), data[..], data.Length, readIdx, old(writeIdx))
      ensures var o, len := Off(old(writeIdx), data.Length), CommitLen(bodyLen);
              && (len >= HEADER ==> Valid() && queue == old(queue) + [InSpan(old(data[..]), o, len, kind)])
              && (len < HEADER ==>
                    && queue == old(queue) && Queued(data[..], data.Length, readIdx, old(writeIdx), queue)
                    && (Valid() <==> len == 0) && (len != 0 ==> ReadHeader(data[..], o) == Corrupt))
      ensures var f := InSpan(old(data[..]), Off(old(writeIdx), data.Length), HEADER + bodyLen, kind);
              queue == old(queue) + [f] <==> HEADER + bodyLen < TWO32
    {
      var len := CommitLen(bodyLen);
      CommitLenExact(bodyLen);
      EnqueuesWholeExactly(data[..], Off(writeIdx, data.Length), bodyLen, kind, queue);
      Seal(len, kind);
    }

    /** Header and publication with the length that the header carries. */
    method Seal(len: nat, kind: int32)
      requires Valid() && len < TWO32 && HEADER <= Contig(writeIdx, data.Length) && len <= Contig(writeIdx, data.Length)
      requires writeIdx + HEADER <= readIdx + data.Length && writeIdx + len <= readIdx + data.Length
      modifies data, this`writeIdx, this`queue
      ensures writeIdx == old(writeIdx) + len
      ensures AgreeOn(old(data[..]), data[..], data.Length, readIdx, old(writeIdx))
      ensures var o := Off(old(writeIdx), data.Length);
              && (len >= HEADER ==> Valid() && queue == old(queue) + [InSpan(old(data[..]), o, len, kind)])
              && (len < HEADER ==>
                    && queue == old(queue) && Queued(data[..], data.Length, readIdx, old(writeIdx), queue)
                    && (Valid() <==> len == 0) && (len != 0 ==> ReadHeader(data[..], o) == Corrupt))
    {
      ghost var before := data[..];
      PutHeader(len, kind);
      if len >= HEADER { PublishSpan(before, len, kind); } else { PublishShort(len); }
    }

    /** The store of write_idx behind a header whose body is in place. */
    method PublishSpan(ghost before: seq<byte>, len: nat, kind: int32)
      requires Valid() && |before| == data.Length && HEADER <= len < TWO32 && len <= Contig(writeIdx, data.Length)
      requires writeIdx + len <= readIdx + data.Length
      requires data[..] == Patch(before, Off(writeIdx, data.Length), LE32(len) + LE32(ToU32(kind)))
      modifies this`writeIdx, this`queue
      ensures Valid() && writeIdx == old(writeIdx) + len && data[..] == old(data[..])
      ensures var o := Off(old(writeIdx), data.Length);
              queue == old(queue) + [InSpan(before, o, len, kind)]
    {
      ghost var o := Off(writeIdx, data.Length);
      ghost var f := InSpan(before, o, len, kind);
      HeaderLands(before, data.Length, writeIdx, f);
      PlacedIsHead(data[..], data.Length, writeIdx, f);
      Publish(f, writeIdx + len);
    }

    /** The same store for a length below the header's: the queue no longer ends at write_idx, unless the length is 0. */
    method PublishShort(len: nat)
      requires Valid() && len < HEADER
      modifies this`writeIdx
      ensures writeIdx == old(writeIdx) + len && data[..] == old(data[..])
      ensures Queued(data[..], data.Length, readIdx, old(writeIdx), queue) && (Valid() <==> len == 0)
    {
      if Queued(data[..], data.Length, readIdx, writeIdx + len, queue) {
        QueueEndsOnce(data[..], data.Length, readIdx, writeIdx, writeIdx + len, queue);
      }
      writeIdx := writeIdx + len;
    }

    /** The 8-byte header in front of the span. */
    method PutHeader(len: nat, kind: int32)
      requires Valid() && len < TWO32 && HEADER <= Contig(writeIdx, data.Length) && len <= Contig(writeIdx, data.Length)
      requires writeIdx + HEADER <= readIdx + data.Length
      modifies data
      ensures 0 < len < HEADER ==> ReadHeader(data[..], Off(writeIdx, data.Length)) == Corrupt
      ensures Valid() && AgreeOn(old(data[..]), data[..], data.Length, readIdx, writeIdx)
      ensures data[..] == Patch(old(data[..]), Off(writeIdx, data.Length), LE32(len) + LE32(ToU32(kind)))
    {
      CommitHeader(data[..], Off(writeIdx, data.Length), len, kind);
      CopyFree(writeIdx, Off(writeIdx, data.Length), LE32(len) + LE32(ToU32(kind)));
    }

    /** read_frame_view: a view of the oldest frame, its body left in place. */
    method ReadFrameView() returns (ok: bool, kind: int32, off: nat, len: nat)
      requires Valid()
      modifies this`readIdx, this`pinnedEnd
      ensures Valid()
      ensures ok <==> old(pinnedEnd) == 0 && queue != []
      ensures !ok ==> readIdx == old(readIdx) && pinnedEnd == old(pinnedEnd)
      ensures ok ==>
                && off + len <= data.Length && Frame(kind, data[off..off + len]) == queue[0]
                && pinnedEnd != 0 && readIdx == Start(data.Length, old(readIdx), FrameLen(queue[0]))
    {
      ok, kind, off, len := false, 0, 0, 0;
      if pinnedEnd != 0 { return; }
      ghost var skips := 0;
      while true
        invariant Valid() && pinnedEnd == 0 && skips <= 1
        invariant skips == 0 ==> readIdx == old(readIdx)
        invariant skips == 1 ==> AtHead() && readIdx == Start(data.Length, old(readIdx), FrameLen(queue[0]))
        decreases 1 - skips
      {
        if writeIdx == readIdx { EmptyQueue(); return; }
        var h := Inspect();
        if h.Corrupt? { return; }
        if h.Whole? {
          kind, off, len := Pin(h);
          ok := true;
          return;
        }
        StepOver();
        skips := skips + 1;
      }
    }

    lemma EmptyQueue()
      requires Valid()
      ensures queue == [] <==> writeIdx == readIdx
    {
      QueuedOrder(data[..], data.Length, readIdx, writeIdx, queue);
    }

    /** The reader stands at the oldest frame itself, not at a marker in front of it. */
    ghost predicate AtHead()
      reads this
      requires data.Length > 0
    {
      queue != [] && Start(data.Length, readIdx, FrameLen(queue[0])) == readIdx
    }

    /** The view of the oldest frame is handed out. */
    method Pin(h: Header) returns (kind: int32, off: nat, len: nat)
      requires Valid() && AtHead() && ShowsHead(h)
      modifies this`pinnedEnd
      ensures Valid() && pinnedEnd != 0 && data[..] == old(data[..])
      ensures off + len <= data.Length && Frame(kind, data[off..off + len]) == queue[0]
    {
      kind, off, len := h.kind, Off(readIdx, data.Length) + HEADER, h.len - HEADER;
      pinnedEnd := readIdx + h.len;
    }

    /** The header is that of the oldest frame, whose body follows it. */
    ghost predicate ShowsHead(h: Header)
      reads this, data
    {
      && data.Length > 0 && queue != []
      && h == Whole(FrameLen(queue[0]), queue[0].kind) && Off(readIdx, data.Length) + h.len <= data.Length
      && data[Off(readIdx, data.Length) + HEADER..Off(readIdx, data.Length) + h.len] == queue[0].body
    }

    /** The store of read_idx past a skip marker. */
    method StepOver()
      requires Valid() && pinnedEnd == 0 && queue != [] && !AtHead()
      modifies this`readIdx
      ensures Valid() && AtHead() && readIdx == Start(data.Length, old(readIdx), FrameLen(queue[0]))
      ensures data[..] == old(data[..])
    {
      var next := readIdx + (data.Length - Off(readIdx, data.Length));
      SkipsTo(data[..], data.Length, readIdx, writeIdx, queue, next);
      MoveTo(next);
    }

    method MoveTo(r: nat)
      requires Valid() && pinnedEnd == 0 && r <= writeIdx && readIdx <= r
      requires Queued(data[..], data.Length, r, writeIdx, queue)
      modifies this`readIdx
      ensures Valid() && readIdx == r && data[..] == old(data[..])
    {
      readIdx := r;
    }

    /** What one pass of the read loop finds: the oldest frame, or the skip marker in front of it. */
    method Inspect() returns (h: Header)
      requires Valid() && writeIdx != readIdx
      ensures queue != [] && !h.Corrupt? && (h.Whole? <==> AtHead())
      ensures h.Whole? ==> ShowsHead(h)
    {
      EmptyQueue();
      ReadQueued(data[..], data.Length, readIdx, writeIdx, queue);
      h := ReadHeader(data[..], Off(readIdx, data.Length));
    }

    /** release_frame_view: the frame leaves the queue; without a pin nothing happens. */
    method ReleaseFrameView()
      requires Valid()
      modifies this`readIdx, this`pinnedEnd, this`queue
      ensures Valid() && pinnedEnd == 0
      ensures queue == if old(pinnedEnd) == 0 then old(queue) else old(queue)[1..]
      ensures readIdx == if old(pinnedEnd) == 0 then old(readIdx) else old(pinnedEnd)
    {
      if pinnedEnd == 0 { return; }
      QueuedOrder(data[..], data.Length, pinnedEnd, writeIdx, queue[1..]);
      readIdx := pinnedEnd;
      pinnedEnd := 0;
      queue := queue[1..];
    }

    /** read_from: view, copy, release. */
    method ReadFrom() returns (ok: bool, kind: int32, body: seq<byte>)
      requires Valid()
      modifies this`readIdx, this`pinnedEnd, this`queue
      ensures Valid() && pinnedEnd == old(pinnedEnd)
      ensures ok <==> old(pinnedEnd) == 0 && old(queue) != []
      ensures ok ==> Frame(kind, body) == old(queue)[0] && queue == old(queue)[1..]
                     && readIdx == Next(data.Length, old(readIdx), old(queue)[0])
      ensures !ok ==> queue == old(queue) && readIdx == old(readIdx)
    {
      var off, len;
      body := [];
      ok, kind, off, len := ReadFrameView();
      if !ok { return; }
      body := data[off..off + len];
      ReleaseFrameView();
    }

    /** Serialise into the span, then commit. */
    method SendInPlace(request: seq<byte>, kind: int32, ghost cap: nat)
      requires Valid() && 0 < cap && |request| <= cap && HEADER + |request| < TWO32
      requires HEADER + cap <= Contig(writeIdx, data.Length) && writeIdx + HEADER + cap <= readIdx + data.Length
      modifies data, this`writeIdx, this`queue
      ensures Valid() && AgreeOn(old(data[..]), data[..], data.Length, readIdx, old(writeIdx))
      ensures queue == old(queue) + [Frame(kind, request)] && writeIdx == Next(data.Length, old(writeIdx), Frame(kind, request))
    {
      SpanHolds(data[..], Off(writeIdx, data.Length), request, kind);
      CommitLenExact(|request|);
      NextInPlace(data.Length, writeIdx, Frame(kind, request));
      Serialize(request, cap);
      Commit(|request|, kind);
    }

    /**
     The client's send. message is None for a message that is not an RPC request; open and
     stillOpen are what is_open says on entry and after a failed fallback write. Zero-copy when the
     span is large enough, else the copying form with its wait budget: first is the load behind the
     span, attempts are those of the fallback. Either way one frame with the serialised request is
     enqueued, or none; released is how many frames the reader took out meanwhile. Protobuf
     serialises at most 2^31 - 1 bytes.
     */
    method Send(message: Option<seq<byte>>, kind: int32, open: bool, stillOpen: bool, first: nat, attempts: seq<Attempt>)
      returns (ok: bool, err: SendError, dead: bool, released: nat)
      requires Valid() && (message.Some? ==> |message.value| < TWO31)
      requires Loadable(first) && |attempts| > 0 && Feasible(data.Length, writeIdx, readIdx, queue, attempts, 0)
      modifies data, this`writeIdx, this`readIdx, this`pinnedEnd, this`queue
      ensures Valid() && readIdx >= old(readIdx) && released <= |old(queue)|
      ensures AgreeOn(old(data[..]), data[..], data.Length, readIdx, old(writeIdx))
      ensures ok ==> message.Some? && open && err == Ok && !dead
                     && queue == old(queue)[released..] + [Frame(kind, message.value)]
                     && writeIdx == Next(data.Length, old(writeIdx), Frame(kind, message.value))
      ensures ok <==> message.Some? && open && HEADER + |message.value| <= data.Length
                      && FindsRoom(data.Length, old(writeIdx), first, attempts, |message.value|)
      ensures !ok ==> queue == old(queue)[released..] && writeIdx == old(writeIdx)
      ensures !ok ==> err == if message.None? then ServiceError
                             else if !open then ConnClosed
                             else if HEADER + |message.value| > data.Length then ServiceError
                             else if !stillOpen then ConnClosed else Backoff
      ensures dead <==> err == ConnClosed
    {
      ok, err, dead, released := false, ServiceError, false, 0;
      if message.None? { return; }
      if !open { err, dead := ConnClosed, true; return; }
      if |message.value| + HEADER > data.Length { return; }
      ok, released := Enqueue(message.value, kind, first, attempts);
      if ok { err := Ok; } else if !stillOpen { err, dead := ConnClosed, true; } else { err := Backoff; }
    }

    /** The request goes into the span if it fits there, else through the copying form. */
    method Enqueue(request: seq<byte>, kind: int32, first: nat, attempts: seq<Attempt>) returns (ok: bool, released: nat)
      requires Valid() && HEADER + |request| < TWO32 && HEADER + |request| <= data.Length
      requires Loadable(first) && |attempts| > 0 && Feasible(data.Length, writeIdx, readIdx, queue, attempts, 0)
      modifies data, this`writeIdx, this`readIdx, this`pinnedEnd, this`queue
      ensures Valid() && readIdx >= old(readIdx) && released <= |old(queue)|
      ensures AgreeOn(old(data[..]), data[..], data.Length, readIdx, old(writeIdx))
      ensures ok <==> FindsRoom(data.Length, old(writeIdx), first, attempts, |request|)
      ensures ok ==> queue == old(queue)[released..] + [Frame(kind, request)]
                     && writeIdx == Next(data.Length, old(writeIdx), Frame(kind, request))
      ensures !ok ==> queue == old(queue)[released..] && writeIdx == old(writeIdx)
    {
      var _, cap := WritePtr(first);
      if cap > 0 && cap >= |request| {
        SendInPlace(request, kind, cap);
        return true, 0;
      }
      var tries;
      ok, tries := WriteTo(request, kind, attempts);
      released := Taken(attempts, tries);
    }
  }

  /** A header and n bytes, not none, fit before the end of the data area and within one lap of the read index used. */
  ghost predicate FitsSpan(ds: nat, w: nat, seen: nat, n: nat)
    requires ds > 0
  {
    0 < n && HEADER + n <= ds - w % ds && w + HEADER + n <= seen + ds
  }

  lemma {:induction false} SpanFits(ds: nat, w: nat, seen: nat)
    requires ds > 0 && seen <= w <= seen + ds
    ensures forall n: nat :: 0 < n <= SpanCap(ds, w, seen) <==> FitsSpan(ds, w, seen, n)
  {
    forall n: nat ensures 0 < n <= SpanCap(ds, w, seen) <==> FitsSpan(ds, w, seen, n) {
      if n > 0 { SpanExact(ds, w, seen, n); }
    }
  }

  /** The span holds the body, or some attempt of the copying form is accepted. */
  ghost predicate FindsRoom(ds: nat, w: nat, first: nat, attempts: seq<Attempt>, bodyLen: nat)
    requires ds > 0 && first <= w <= first + ds
  {
    var n := if bodyLen > 0 then bodyLen else 1;
    FitsSpan(ds, w, first, n) || SomeAccepts(ds, w, attempts, HEADER + bodyLen)
  }

  lemma {:induction false} SkipsTo(d: seq<byte>, ds: nat, r: nat, w: nat, q: seq<Frame>, next: nat)
    requires ds > 0 && |d| == ds && Queued(d, ds, r, w, q) && q != [] && Start(ds, r, FrameLen(q[0])) != r
    requires next == r + Contig(r, ds)
    ensures next == Start(ds, r, FrameLen(q[0])) == Start(ds, next, FrameLen(q[0])) && r <= next <= w && Queued(d, ds, next, w, q)
  {
    SkipTarget(d, ds, r, w, q);
  }

  /** A body serialised into the span is the frame a commit of its length finds there. */
  lemma {:induction false} SpanHolds(d: seq<byte>, off: nat, request: seq<byte>, kind: int32)
    requires off + HEADER + |request| <= |d|
    ensures InSpan(Patch(d, off + HEADER, request), off, HEADER + |request|, kind) == Frame(kind, request)
  {
    PatchSlice(d, off + HEADER, request);
  }

  lemma {:induction false} NextInPlace(ds: nat, w: nat, f: Frame)
    requires ds > 0 && FrameLen(f) <= Contig(w, ds)
    ensures Next(ds, w, f) == w + FrameLen(f)
  {
  }

  /** Header and body in place make the frame's image. */
  lemma {:induction false} HeaderPatched(d: seq<byte>, off: nat, f: Frame)
    requires Sendable(f) && off + FrameLen(f) <= |d| && d[off + HEADER..off + FrameLen(f)] == f.body
    ensures Patch(d, off, LE32(FrameLen(f)) + LE32(ToU32(f.kind)))[off..off + FrameLen(f)] == Encode(f)
  {
  }

  lemma {:induction false} HeaderLands(d: seq<byte>, ds: nat, w: nat, f: Frame)
    requires ds > 0 && |d| == ds && Sendable(f) && FrameLen(f) <= Contig(w, ds)
    requires d[Off(w, ds) + HEADER..Off(w, ds) + FrameLen(f)] == f.body
    ensures FrameAt(Patch(d, Off(w, ds), LE32(FrameLen(f)) + LE32(ToU32(f.kind))), ds, w, f)
  {
    HeaderPatched(d, Off(w, ds), f);
    SliceAsBytes(Patch(d, Off(w, ds), LE32(FrameLen(f)) + LE32(ToU32(f.kind))), ds, w, Encode(f));
  }

  /** The length field *_commit writes: the sum is cut to 32 bits. */
  function CommitLen(bodyLen: nat): nat { (HEADER + bodyLen) % TWO32 }

  /** The frame of len bytes, header included, whose body stands in the span behind offset off. */
  function InSpan(d: seq<byte>, off: nat, len: nat, kind: int32): (f: Frame)
    requires HEADER <= len && off + len <= |d|
    ensures FrameLen(f) == len
  {
    Frame(kind, d[off + HEADER..off + len])
  }

  /** Whatever the cut leaves, it is the whole frame of the span exactly below 2^32 bytes. */
  lemma {:induction false} EnqueuesWholeExactly(d: seq<byte>, off: nat, bodyLen: nat, kind: int32, q: seq<Frame>)
    requires off + HEADER + bodyLen <= |d|
    ensures var len, whole := CommitLen(bodyLen), q + [InSpan(d, off, HEADER + bodyLen, kind)];
            && (len < HEADER ==> q != whole && HEADER + bodyLen >= TWO32)
            && (len >= HEADER ==> (q + [InSpan(d, off, len, kind)] == whole <==> HEADER + bodyLen < TWO32))
  {
    var len, f := CommitLen(bodyLen), InSpan(d, off, HEADER + bodyLen, kind);
    CommitLenExact(bodyLen);
    assert (q + [f])[|q|] == f;
    if len >= HEADER { assert (q + [InSpan(d, off, len, kind)])[|q|] == InSpan(d, off, len, kind); }
  }

  lemma {:induction false} CommitLenExact(bodyLen: nat)
    ensures CommitLen(bodyLen) <= HEADER + bodyLen && CommitLen(bodyLen) < TWO32
    ensures CommitLen(bodyLen) == HEADER + bodyLen <==> HEADER + bodyLen < TWO32
  {
  }

  /** What a reader meets at a committed header, given the length it carries. */
  lemma {:induction false} CommitHeader(d: seq<byte>, off: nat, len: nat, kind: int32)
    requires len < TWO32 && off + HEADER <= |d| && off + len <= |d|
    ensures ReadHeader(Patch(d, off, LE32(len) + LE32(ToU32(kind))), off)
            == if len == 0 then Skip else if len < HEADER then Corrupt else Whole(len, kind)
  {
    var p := Patch(d, off, LE32(len) + LE32(ToU32(kind)));
    assert p[off..off + 4] == LE32(len);
    assert p[off + 4..off + 8] == LE32(ToU32(kind));
    RoundTripLE32(len);
    RoundTripLE32(ToU32(kind));
  }

  /** A list of frames ends at one position only. */
  lemma {:induction false} QueueEndsOnce(d: seq<byte>, ds: nat, r: nat, w: nat, v: nat, q: seq<Frame>)
    requires ds > 0 && |d| == ds && Queued(d, ds, r, w, q) && Queued(d, ds, r, v, q)
    ensures w == v
    decreases |q|
  {
    if q != [] { QueueEndsOnce(d, ds, Next(ds, r, q[0]), w, v, q[1..]); }
  }
}
