/** Bytes and the fixed-width integers that the ring frames and the wire frames carry. */
module Bytes {

  type byte = x: int | 0 <= x < 256

  const TWO32: nat := 0x1_0000_0000
  const TWO31: nat := 0x8000_0000

  type int32 = x: int | -0x8000_0000 <= x < 0x8000_0000

  /** Conversion of a signed 32-bit value to its unsigned bit pattern. */
  function ToU32(x: int32): (r: nat)
    ensures r < TWO32
  {
    if x < 0 then x + TWO32 else x
  }

  /** The pattern of a signed value is the one number below 2^32 that differs from it by a multiple of 2^32. */
  lemma TwosComplement(x: int32)
    ensures (ToU32(x) - x) % TWO32 == 0
  {
  }

  /** Conversion of a 32-bit pattern back to the signed value. */
  function FromU32(u: nat): (r: int32)
    requires u < TWO32
    ensures ToU32(r) == u
  {
    if u >= TWO31 then u - TWO32 else u
  }

  /** The k low base-256 digits of n, least significant first. */
  function Digits(n: nat, k: nat): (r: seq<byte>)
    ensures |r| == k
    decreases k
  {
    if k == 0 then [] else [n % 256] + Digits(n / 256, k - 1)
  }

  function Value(s: seq<byte>): nat {
    if s == [] then 0 else var d: int := s[0]; d + 256 * Value(s[1..])
  }

  function Pow256(k: nat): nat { if k == 0 then 1 else 256 * Pow256(k - 1) }

  lemma {:induction false} ValueDigits(n: nat, k: nat)
    requires n < Pow256(k)
    ensures Value(Digits(n, k)) == n
    decreases k
  {
    if k > 0 {
      ValueDigits(n / 256, k - 1);
      assert Digits(n, k)[1..] == Digits(n / 256, k - 1);
    }
  }

  lemma {:induction false} ValueBound(s: seq<byte>)
    ensures Value(s) < Pow256(|s|)
  {
    if s != [] { ValueBound(s[1..]); }
  }

  lemma {:induction false} ValueZeros(s: seq<byte>)
    requires forall i :: 0 <= i < |s| ==> s[i] == 0
    ensures Value(s) == 0
  {
    if s != [] { ValueZeros(s[1..]); }
  }

  lemma {:induction false} ValueZero(s: seq<byte>)
    ensures Value(s) == 0 <==> forall i :: 0 <= i < |s| ==> s[i] == 0
  {
    if s != [] {
      ValueZero(s[1..]);
      assert forall i :: 1 <= i < |s| ==> s[i] == s[1..][i - 1];
    }
  }

  lemma SliceOfSlice(s: seq<byte>, o: nat, n: nat, a: nat, b: nat)
    requires o + n <= |s| && a <= b <= n
    ensures s[o..o + n][a..b] == s[o + a..o + b]
  {
    var x, y := s[o..o + n][a..b], s[o + a..o + b];
    assert forall i :: 0 <= i < b - a ==> x[i] == y[i];
  }

  lemma Pow256Four()
    ensures Pow256(4) == TWO32
  {
    assert Pow256(1) == 256 && Pow256(2) == 65536 && Pow256(3) == 16777216;
  }

  /** Host order on the supported targets: least significant byte first. */
  function LE32(n: nat): (r: seq<byte>)
    requires n < TWO32
    ensures |r| == 4
  {
    Digits(n, 4)
  }

  function FromLE32(s: seq<byte>): (n: nat)
    requires |s| == 4
    ensures n < TWO32
  {
    ValueBound(s);
    Pow256Four();
    Value(s)
  }

  lemma {:induction false} DigitsValue(s: seq<byte>)
    ensures Digits(Value(s), |s|) == s
  {
    if s != [] {
      DigitsValue(s[1..]);
      LastDigit(s[0], Value(s[1..]));
      assert s == [s[0]] + s[1..];
    }
  }

  lemma BytesOfLE32(s: seq<byte>)
    requires |s| == 4
    ensures LE32(FromLE32(s)) == s
  {
    DigitsValue(s);
  }

  lemma {:induction false} ZeroLE32(s: seq<byte>)
    requires |s| == 4
    ensures FromLE32(s) == 0 <==> forall i :: 0 <= i < 4 ==> s[i] == 0
  {
    ValueZero(s);
  }

  lemma RoundTripLE32(n: nat)
    requires n < TWO32
    ensures FromLE32(LE32(n)) == n
  {
    Pow256Four();
    ValueDigits(n, 4);
  }

  /** The k low base-256 digits of n, most significant first. */
  function DigitsBE(n: nat, k: nat): (r: seq<byte>)
    ensures |r| == k
    decreases k
  {
    if k == 0 then [] else DigitsBE(n / 256, k - 1) + [n % 256]
  }

  function ValueBE(s: seq<byte>): nat {
    if s == [] then 0
    else
      var d: int := s[|s| - 1];
      256 * ValueBE(s[..|s| - 1]) + d
  }

  lemma {:induction false} ValueDigitsBE(n: nat, k: nat)
    requires n < Pow256(k)
    ensures ValueBE(DigitsBE(n, k)) == n
    decreases k
  {
    if k > 0 {
      ValueDigitsBE(n / 256, k - 1);
      assert DigitsBE(n, k)[..k - 1] == DigitsBE(n / 256, k - 1);
    }
  }

  lemma {:induction false} ValueBoundBE(s: seq<byte>)
    ensures ValueBE(s) < Pow256(|s|)
  {
    if s != [] { ValueBoundBE(s[..|s| - 1]); }
  }

  /** Network order: most significant byte first. */
  function BE32(n: nat): (r: seq<byte>)
    requires n < TWO32
    ensures |r| == 4
  {
    DigitsBE(n, 4)
  }

  function FromBE32(s: seq<byte>): (n: nat)
    requires |s| == 4
    ensures n < TWO32
  {
    ValueBoundBE(s);
    Pow256Four();
    ValueBE(s)
  }

  lemma {:induction false} DigitsValueBE(s: seq<byte>)
    ensures DigitsBE(ValueBE(s), |s|) == s
  {
    if s != [] {
      var m := |s| - 1;
      DigitsValueBE(s[..m]);
      LastDigit(s[m], ValueBE(s[..m]));
      assert s == s[..m] + [s[m]];
    }
  }

  lemma BytesOfBE32(s: seq<byte>)
    requires |s| == 4
    ensures BE32(FromBE32(s)) == s
  {
    DigitsValueBE(s);
  }

  lemma RoundTripBE32(n: nat)
    requires n < TWO32
    ensures FromBE32(BE32(n)) == n
  {
    Pow256Four();
    ValueDigitsBE(n, 4);
  }

  // ----- byte order -----

  /** The number with these four base-256 digits, the least significant first. */
  function Quad(a: byte, b: byte, c: byte, d: byte): nat { a + 256 * b + 65536 * c + 16777216 * d }

  lemma {:induction false} LastDigit(a: byte, rest: nat)
    ensures (a + 256 * rest) % 256 == a && (a + 256 * rest) / 256 == rest
  {
  }

  lemma {:induction false} QuadSteps(a: byte, b: byte, c: byte, d: byte)
    ensures Quad(a, b, c, d) % 256 == a && Quad(a, b, c, d) / 256 == b + 256 * (c + 256 * d)
    ensures (b + 256 * (c + 256 * d)) % 256 == b && (b + 256 * (c + 256 * d)) / 256 == c + 256 * d
    ensures (c + 256 * d) % 256 == c && (c + 256 * d) / 256 == d && d % 256 == d
  {
    LastDigit(a, b + 256 * (c + 256 * d));
    LastDigit(b, c + 256 * d);
    LastDigit(c, d);
  }

  /** Host order puts the least significant byte first. */
  lemma {:induction false} LittleEndian(a: byte, b: byte, c: byte, d: byte)
    ensures Quad(a, b, c, d) < TWO32 && LE32(Quad(a, b, c, d)) == [a, b, c, d]
  {
    QuadSteps(a, b, c, d);
    assert Digits(d, 1) == [d] + Digits(d / 256, 0);
    assert Digits(c + 256 * d, 2) == [c] + Digits(d, 1);
    assert Digits(b + 256 * (c + 256 * d), 3) == [b] + Digits(c + 256 * d, 2);
  }

  /** Network order puts it last. */
  lemma {:induction false} BigEndian(a: byte, b: byte, c: byte, d: byte)
    ensures Quad(a, b, c, d) < TWO32 && BE32(Quad(a, b, c, d)) == [d, c, b, a]
  {
    QuadSteps(a, b, c, d);
    assert DigitsBE(d, 1) == DigitsBE(d / 256, 0) + [d];
    assert DigitsBE(c + 256 * d, 2) == DigitsBE(d, 1) + [c];
    assert DigitsBE(b + 256 * (c + 256 * d), 3) == DigitsBE(c + 256 * d, 2) + [b];
  }
}
