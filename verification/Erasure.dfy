/** `erasure_cast` between integer types of different widths, in its two implementations: widening
    with `static_cast` on little-endian machines, and padding with zero bytes.  Domains read their
    value in place from the first bytes of erased storage, so the bytes are what must agree. */
module Erasure {

  type Byte = b: int | 0 <= b < 256

  datatype IntType = IntType(width: nat, signed: bool)

  function Pow256(n: nat): (p: int)
    ensures p >= 1 && (n >= 1 ==> p % 2 == 0 && p >= 256)
  {
    if n == 0 then 1 else 256 * Pow256(n - 1)
  }

  /** The little-endian bytes of an integer; floored division makes this two's complement. */
  function ToBytes(v: int, n: nat): (s: seq<Byte>)
    ensures |s| == n
    decreases n
  {
    if n == 0 then [] else [v % 256] + ToBytes(v / 256, n - 1)
  }

  function FromBytes(s: seq<Byte>): nat {
    if s == [] then 0 else s[0] + 256 * FromBytes(s[1..])
  }

  function Zeros(n: nat): (s: seq<Byte>)
    ensures |s| == n && forall i | 0 <= i < n :: s[i] == 0
  {
    seq(n, _ => 0)
  }

  predicate InRange(t: IntType, v: int) {
    if t.signed then -Pow256(t.width) <= 2 * v < Pow256(t.width) else 0 <= v < Pow256(t.width)
  }

  /** `static_cast` to an integer type: the value of that type congruent modulo its size. */
  function StaticCast(t: IntType, v: int): int {
    var p := Pow256(t.width);
    var m := v % p;
    if t.signed && 2 * m >= p then m - p else m
  }

  /** Reading an object of an integer type from its bytes. */
  function Read(t: IntType, s: seq<Byte>): int {
    StaticCast(t, FromBytes(s))
  }

  /** `bit_cast` between integer types of one width reinterprets the bytes. */
  function BitCast(t: IntType, v: int): int {
    Read(t, ToBytes(v, t.width))
  }

  /** `erasure_integer_type`: the width of one type with the signedness of another. */
  function ErasureInteger(ofSize: IntType, ofSign: IntType): IntType {
    IntType(ofSize.width, ofSign.signed)
  }

  /** `erasure_cast` to a type of the same size or, on little-endian machines, by conversion. */
  function ErasureCast(to: IntType, from: IntType, v: int): int {
    if to.width == from.width then BitCast(to, v)
    else if to.width < from.width then StaticCast(to, BitCast(ErasureInteger(from, to), v))
    else BitCast(to, StaticCast(ErasureInteger(to, from), v))
  }

  /** The padded form works on the object's bytes, whatever they mean. */
  function PadTo(s: seq<Byte>, n: nat): seq<Byte>
    requires |s| <= n
  {
    s + Zeros(n - |s|)
  }

  function Truncate(s: seq<Byte>, n: nat): seq<Byte>
    requires n <= |s|
  {
    s[..n]
  }

  // ------------------------------------------------------------------- bytes

  lemma {:induction false} FromToBytes(v: int, n: nat)
    ensures FromBytes(ToBytes(v, n)) == v % Pow256(n)
    decreases n
  {
    if n > 0 {
      FromToBytes(v / 256, n - 1);
      assert ToBytes(v, n)[1..] == ToBytes(v / 256, n - 1);
      ModSplit(v, Pow256(n - 1));
    }
  }

  lemma ModSplit(v: int, q: int)
    requires q > 0
    ensures v % (256 * q) == v % 256 + 256 * (v / 256 % q)
  {
    var r := v % 256 + 256 * (v / 256 % q);
    var k := v / 256 / q;
    assert v == r + 256 * q * k by {
      assert v / 256 == q * k + v / 256 % q;
      assert 256 * (q * k) == 256 * q * k;
    }
    assert 0 <= r < 256 * q;
    ModUnique(v, 256 * q, k, r);
  }

  lemma MulAtLeast(d: int, k: int)
    requires d > 0 && k >= 1
    ensures d * k >= d
  {}

  lemma ModUnique(v: int, d: int, k: int, r: int)
    requires d > 0 && 0 <= r < d && v == r + d * k
    ensures v % d == r
  {
    var q, m := v / d, v % d;
    assert v == d * q + m;
    assert d * (k - q) == m - r && d * (q - k) == r - m;
    if k > q { MulAtLeast(d, k - q); }
    if k < q { MulAtLeast(d, q - k); }
  }

  lemma SplitByte(b: Byte, rest: nat)
    ensures (b + 256 * rest) % 256 == b && (b + 256 * rest) / 256 == rest
  {}

  lemma {:induction false} ToFromBytes(s: seq<Byte>)
    ensures ToBytes(FromBytes(s), |s|) == s
  {
    if s != [] {
      var rest := FromBytes(s[1..]);
      SplitByte(s[0], rest);
      ToFromBytes(s[1..]);
      assert s == [s[0]] + s[1..];
    }
  }

  lemma {:induction false} ToBytesPrefix(v: int, m: nat, n: nat)
    requires m <= n
    ensures ToBytes(v, n)[..m] == ToBytes(v, m)
    decreases n
  {
    if m > 0 { ToBytesPrefix(v / 256, m - 1, n - 1); }
  }

  lemma {:induction false} ToBytesPeriodic(v: int, k: int, n: nat)
    ensures ToBytes(v + Pow256(n) * k, n) == ToBytes(v, n)
    decreases n
  {
    if n > 0 {
      var w := v + Pow256(n) * k;
      assert Pow256(n) * k == 256 * (Pow256(n - 1) * k);
      assert w % 256 == v % 256 && w / 256 == v / 256 + Pow256(n - 1) * k;
      ToBytesPeriodic(v / 256, k, n - 1);
    }
  }

  /** A cast changes the value, never the bytes that fit. */
  lemma CastKeepsBytes(t: IntType, v: int)
    ensures ToBytes(StaticCast(t, v), t.width) == ToBytes(v, t.width)
  {
    var p := Pow256(t.width);
    var k := v / p;
    assert v == v % p + p * k;
    ToBytesPeriodic(v % p, k, t.width);
    ToBytesPeriodic(v % p, -1, t.width);
  }

  lemma CastInRange(t: IntType, v: int)
    requires InRange(t, v)
    ensures StaticCast(t, v) == v
  {
    var p := Pow256(t.width);
    if v < 0 { ModUnique(v, p, -1, v + p); } else { ModUnique(v, p, 0, v); }
  }

  /** `std::bit_cast` and the `static_cast` used before C++ 20 are the same function. */
  lemma BitCastIsStaticCast(t: IntType, v: int)
    ensures BitCast(t, v) == StaticCast(t, v)
  {
    var p := Pow256(t.width);
    FromToBytes(v, t.width);
    ModUnique(v % p, p, 0, v % p);
  }

  lemma ReadBack(t: IntType, v: int)
    requires InRange(t, v)
    ensures Read(t, ToBytes(v, t.width)) == v
  {
    BitCastIsStaticCast(t, v);
    CastInRange(t, v);
  }

  // ------------------------------------------------------ the two forms agree

  /** Widening by conversion and by padding put the same bytes where the domain reads them; every
      byte after them is a copy of the sign, against zero. */
  lemma WideningAgreesInPlace(to: IntType, from: IntType, v: int)
    requires from.width <= to.width && InRange(from, v)
    ensures var wide := ToBytes(ErasureCast(to, from, v), to.width);
      && wide == ToBytes(v, to.width)
      && Truncate(wide, from.width) == ToBytes(v, from.width)
      && Truncate(PadTo(ToBytes(v, from.width), to.width), from.width) == ToBytes(v, from.width)
  {
    var mid := StaticCast(ErasureInteger(to, from), v);
    CastKeepsBytes(ErasureInteger(to, from), v);
    BitCastIsStaticCast(to, mid);
    CastKeepsBytes(to, mid);
    BitCastIsStaticCast(to, v);
    CastKeepsBytes(to, v);
    ToBytesPrefix(v, from.width, to.width);
  }

  /** Narrowing by conversion and by truncating the bytes are the same, for every value. */
  lemma NarrowingAgrees(to: IntType, from: IntType, v: int)
    requires to.width <= from.width
    ensures ErasureCast(to, from, v) == Read(to, Truncate(ToBytes(v, from.width), to.width))
  {
    ToBytesPrefix(v, to.width, from.width);
    if to.width < from.width {
      var t := ErasureInteger(from, to);
      BitCastIsStaticCast(t, v);
      CastKeepsBytes(t, v);
      var m := StaticCast(t, v);
      ToBytesPrefix(m, to.width, from.width);
      BitCastIsStaticCast(to, m);
    }
  }

  /** Erasing and unerasing by any mixture of the two forms restores the value. */
  lemma ErasureRoundTrip(to: IntType, from: IntType, v: int)
    requires from.width <= to.width && InRange(from, v)
    ensures ErasureCast(from, to, ErasureCast(to, from, v)) == v
    ensures Read(from, Truncate(ToBytes(ErasureCast(to, from, v), to.width), from.width)) == v
    ensures ErasureCast(from, to, Read(to, PadTo(ToBytes(v, from.width), to.width))) == v
    ensures Read(from, Truncate(PadTo(ToBytes(v, from.width), to.width), from.width)) == v
  {
    WideningAgreesInPlace(to, from, v);
    NarrowingAgrees(from, to, ErasureCast(to, from, v));
    ReadBack(from, v);
    var padded := PadTo(ToBytes(v, from.width), to.width);
    NarrowingAgrees(from, to, Read(to, padded));
    CastKeepsBytes(to, FromBytes(padded));
    ToFromBytes(padded);
  }

  /** Casting an erased value to any other erased type, wider or narrower, keeps the bytes both have, so
      a payload that lies within both. */
  lemma ReErasureKeepsPayload(to: IntType, erased: IntType, payload: nat, x: int)
    requires payload <= to.width && payload <= erased.width && InRange(erased, x)
    ensures Truncate(ToBytes(ErasureCast(to, erased, x), to.width), payload)
      == Truncate(ToBytes(x, erased.width), payload)
  {
    ToBytesPrefix(x, payload, erased.width);
    if erased.width <= to.width {
      WideningAgreesInPlace(to, erased, x);
      ToBytesPrefix(x, payload, to.width);
    } else {
      var kept := Truncate(ToBytes(x, erased.width), to.width);
      NarrowingAgrees(to, erased, x);
      CastKeepsBytes(to, FromBytes(kept));
      ToFromBytes(kept);
      assert Truncate(kept, payload) == Truncate(ToBytes(x, erased.width), payload);
    }
  }

  // ---------------------------------------------- big-endian: why the guard

  function Reverse(s: seq<Byte>): (r: seq<Byte>)
    ensures |r| == |s| && forall i | 0 <= i < |s| :: r[i] == s[|s| - 1 - i]
  {
    seq(|s|, i requires 0 <= i < |s| => s[|s| - 1 - i])
  }

  function ByteAt(v: int, i: nat): Byte
    decreases i
  {
    if i == 0 then v % 256 else ByteAt(v / 256, i - 1)
  }

  lemma {:induction false} ToBytesAt(v: int, n: nat, i: nat)
    requires i < n
    ensures ToBytes(v, n)[i] == ByteAt(v, i)
    decreases n
  {
    if i > 0 { ToBytesAt(v / 256, n - 1, i - 1); }
  }

  function SignByte(v: int): Byte { if v < 0 then 255 else 0 }

  lemma {:induction false} SignExtension(v: int, w: nat, i: nat)
    requires (w == 0 && (v == 0 || v == -1)) || (w > 0 && -Pow256(w) <= v < Pow256(w))
    requires w <= i
    ensures ByteAt(v, i) == SignByte(v)
    decreases i
  {
    if i > 0 {
      if w <= 1 {
        assert Pow256(0) == 1;
        assert w == 1 ==> -256 <= v < 256;
        SignExtension(v / 256, 0, i - 1);
      } else {
        SignExtension(v / 256, w - 1, i - 1);
      }
    }
  }

  lemma {:induction false} AllSignBytes(v: int, n: nat)
    requires -Pow256(n) <= v < Pow256(n)
    requires forall i | 0 <= i < n :: ByteAt(v, i) == SignByte(v)
    ensures v == 0 || v == -1
    decreases n
  {
    if n > 0 {
      assert ByteAt(v, 0) == v % 256;
      forall i | 0 <= i < n - 1 ensures ByteAt(v / 256, i) == SignByte(v / 256) {
        assert ByteAt(v, i + 1) == ByteAt(v / 256, i);
      }
      AllSignBytes(v / 256, n - 1);
    }
  }

  lemma {:induction false} ShiftedEqualMeansSign(v: int, f: nat, k: nat, j: nat)
    requires k > 0 && j < f && -Pow256(f) <= v < Pow256(f)
    requires forall i: nat | i < f :: ByteAt(v, i + k) == ByteAt(v, i)
    ensures ByteAt(v, j) == SignByte(v)
    decreases f - j
  {
    assert ByteAt(v, j + k) == ByteAt(v, j);
    if j + k < f { ShiftedEqualMeansSign(v, f, k, j + k); } else { SignExtension(v, f, j + k); }
  }

  lemma ZeroAndMinusOne(v: int, i: nat)
    requires v == 0 || v == -1
    ensures ByteAt(v, i) == SignByte(v)
  {
    SignExtension(v, 0, i);
  }

  /** On a big-endian machine the widening form would show the domain its own value only for 0 and
      -1, whatever the widths: the padded form is required there. */
  lemma BigEndianWideningIff(to: IntType, from: IntType, v: int)
    requires from.width < to.width && InRange(from, v)
    ensures Truncate(Reverse(ToBytes(ErasureCast(to, from, v), to.width)), from.width)
        == Reverse(ToBytes(v, from.width))
      <==> from.width == 0 || v == 0 || v == -1
    ensures Truncate(PadTo(Reverse(ToBytes(v, from.width)), to.width), from.width)
      == Reverse(ToBytes(v, from.width))
  {
    WideningAgreesInPlace(to, from, v);
    var f, k := from.width, to.width - from.width;
    var wide, narrow := Reverse(ToBytes(v, to.width)), Reverse(ToBytes(v, f));
    forall i: nat | i < f
      ensures wide[i] == ByteAt(v, f - 1 - i + k) && narrow[i] == ByteAt(v, f - 1 - i)
    {
      ToBytesAt(v, to.width, to.width - 1 - i);
      ToBytesAt(v, f, f - 1 - i);
    }
    if wide[..f] == narrow && f > 0 {
      forall i: nat | i < f ensures ByteAt(v, i + k) == ByteAt(v, i) {
        assert wide[..f][f - 1 - i] == narrow[f - 1 - i];
      }
      forall i: nat | i < f ensures ByteAt(v, i) == SignByte(v) { ShiftedEqualMeansSign(v, f, k, i); }
      AllSignBytes(v, f);
    }
    if v == 0 || v == -1 {
      forall i: nat ensures ByteAt(v, i) == SignByte(v) { ZeroAndMinusOne(v, i); }
    }
  }
}
