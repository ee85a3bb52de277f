/**
 The ring indices are 64-bit in the code and grow without bound in RingProtocol. This module
 says when the 64-bit computations agree with the unbounded ones.
 */
module RingWrap {
  import opened Arith
  import opened RingLayout

  const TWO64: nat := 0x1_0000_0000_0000_0000

  /** The low 64 bits, x % 2^64, by repeated subtraction (WrapIsMod). */
  function Wrap(x: nat): (r: nat)
    ensures r < TWO64 && (x < TWO64 ==> r == x)
  {
    if x < TWO64 then x else Wrap(x - TWO64)
  }

  lemma {:induction false} WrapIsMod(x: nat)
    ensures Wrap(x) == x % TWO64
  {
    if x >= TWO64 { WrapIsMod(x - TWO64); }
  }

  /** Unsigned 64-bit subtraction. */
  function Sub64(a: nat, b: nat): (r: nat)
    requires a < TWO64 && b < TWO64
    ensures r < TWO64
  {
    if a >= b then a - b else a - b + TWO64
  }

  function Add64(a: nat, b: nat): nat { Wrap(a + b) }

  lemma {:induction false} OffLaps(x: nat, k: nat, ds: nat)
    requires ds > 0
    ensures Off(x + k * ds, ds) == Off(x, ds)
    decreases k
  {
    if k > 0 {
      assert x + k * ds == (x + (k - 1) * ds) + ds;
      OffLaps(x, k - 1, ds);
    }
  }

  lemma {:induction false} OffWrappedLaps(w: nat, laps: nat, ds: nat)
    requires 0 < ds && laps * ds == TWO64
    ensures Off(Wrap(w), ds) == Off(w, ds)
  {
    if w >= TWO64 {
      OffWrappedLaps(w - TWO64, laps, ds);
      OffLaps(w - TWO64, laps, ds);
    }
  }

  lemma {:induction false} OffWrapped(w: nat, ds: nat)
    requires 0 < ds < TWO64 && TWO64 % ds == 0
    ensures Off(Wrap(w), ds) == Off(w, ds)
  {
    OffWrappedLaps(w, TWO64 / ds, ds);
  }

  /** Wrapped and unbounded indices name the same byte, for every index, iff the ring size divides 2^64. */
  lemma {:induction false} OffsetSurvivesWrap(ds: nat)
    requires 0 < ds < TWO64
    ensures (forall w: nat :: Off(Wrap(w), ds) == Off(w, ds)) <==> TWO64 % ds == 0
  {
    if TWO64 % ds == 0 {
      forall w: nat ensures Off(Wrap(w), ds) == Off(w, ds) { OffWrapped(w, ds); }
    } else {
      OffIsMod(TWO64, ds);
      assert Off(Wrap(TWO64), ds) != Off(TWO64, ds);
    }
  }

  /** The used-space subtraction is exact across the wrap, whatever the ring size. */
  lemma {:induction false} DistanceSurvivesWrap(w: nat, seen: nat, ds: nat)
    requires seen <= w <= seen + ds && ds < TWO64
    ensures Sub64(Wrap(w), Wrap(seen)) == w - seen
    ensures Wrap(w) == Wrap(seen) <==> w == seen
    decreases seen
  {
    if seen >= TWO64 { DistanceSurvivesWrap(w - TWO64, seen - TWO64, ds); }
  }

  /** The space checks of write_to on 64-bit indices. */
  function Place64(ds: nat, w: nat, seen: nat, len: nat): Placement
    requires 0 < ds < TWO64 && w < TWO64 && seen < TWO64
  {
    if Sub64(ds, Sub64(w, seen)) < len then Full
    else if Contig(w, ds) >= len then Direct
    else if Sub64(ds, Sub64(Add64(w, Contig(w, ds)), seen)) < len then SkipThenFull
    else AfterSkip
  }

  /** The second space check, reached when the first passed and the tail is too short. */
  lemma {:induction false} SecondCheckSurvivesWrap(ds: nat, w: nat, seen: nat, len: nat)
    requires 0 < ds < TWO64 && seen <= w <= seen + ds && ds - (w - seen) >= len > Contig(w, ds)
    ensures Sub64(ds, Sub64(Add64(Wrap(w), Contig(w, ds)), Wrap(seen))) == ds - (w + Contig(w, ds) - seen)
  {
    WrapAdd(w, Contig(w, ds));
    FreeSurvivesWrap(w + Contig(w, ds), seen, ds);
  }

  /** On a ring whose size divides 2^64, write_to decides the same on wrapped indices. */
  lemma {:induction false} PlacementSurvivesWrap(ds: nat, w: nat, seen: nat, len: nat)
    requires 0 < ds < TWO64 && TWO64 % ds == 0 && seen <= w <= seen + ds
    ensures Place64(ds, Wrap(w), Wrap(seen), len) == Place(ds, w, seen, len)
  {
    OffsetSurvivesWrap(ds);
    var c := Contig(w, ds);
    assert Contig(Wrap(w), ds) == c;
    FreeSurvivesWrap(w, seen, ds);
    if ds - (w - seen) >= len > c { SecondCheckSurvivesWrap(ds, w, seen, len); }
  }

  /** The free space the code computes. */
  lemma {:induction false} FreeSurvivesWrap(w: nat, seen: nat, ds: nat)
    requires seen <= w <= seen + ds && ds < TWO64
    ensures Sub64(ds, Sub64(Wrap(w), Wrap(seen))) == ds - (w - seen)
  {
    DistanceSurvivesWrap(w, seen, ds);
  }

  /** Advancing a wrapped index is advancing the index. */
  lemma {:induction false} WrapAdd(x: nat, n: nat)
    ensures Add64(Wrap(x), n) == Wrap(x + n)
  {
    if x >= TWO64 { WrapAdd(x - TWO64, n); }
  }

  /** read_idx after reading and releasing a frame of len bytes, with 0 standing for "no pin". */
  function ReadAndRelease64(r: nat, len: nat): nat
    requires r < TWO64
  {
    var pinnedEnd := Add64(r, len);
    if pinnedEnd == 0 then r else pinnedEnd
  }

  /**
   The release takes effect exactly when the frame does not end on a multiple of 2^64. When it
   does, the pin looks like "no pin", read_idx stays, and the frame is read again. On a ring whose
   size divides 2^64 only a frame flush with the end of the data area can be affected.
   */
  lemma {:induction false} PinSentinelExact(r: nat, len: nat, ds: nat)
    requires 0 < len <= ds < TWO64 && TWO64 % ds == 0 && len <= Contig(r, ds)
    ensures ReadAndRelease64(Wrap(r), len) == Wrap(r + len) <==> Wrap(r + len) != 0
    ensures Wrap(r + len) == 0 ==> ReadAndRelease64(Wrap(r), len) == Wrap(r) && Off(r, ds) + len == ds
  {
    WrapAdd(r, len);
    if Wrap(r + len) == 0 {
      DistanceSurvivesWrap(r + len, r, ds);
      OffsetSurvivesWrap(ds);
      assert Off(Wrap(r + len), ds) == Off(r + len, ds);
      if Off(r, ds) + len < ds { OffNext(r, len, ds); }
    }
  }
}
