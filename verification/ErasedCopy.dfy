/** Copying erased status codes whose domain keeps the default byte copy.

    A status code object is its domain pointer, then its value, then padding up to the alignment of
    the pointer.  An erased object has a value of the erased type's width; the domain's own value type
    may be narrower, or wider as long as the padded objects are equally large.  `payload_info()`
    reports the size of the unerased object without its padding. */
module ErasedCopy {
  import opened Erasure

  const DOMAIN_SIZE: nat := 8

  /** `sizeof` a status code object whose value has this width. */
  function ObjectSize(width: nat): nat { (DOMAIN_SIZE + width + DOMAIN_SIZE - 1) / DOMAIN_SIZE * DOMAIN_SIZE }

  /** What such an object holds after its domain pointer: the value and the padding. */
  function Room(width: nat): (r: nat)
    ensures width <= r < width + DOMAIN_SIZE && DOMAIN_SIZE + r == ObjectSize(width)
  {
    ObjectSize(width) - DOMAIN_SIZE
  }

  const ENOBUFS: int := 105

  /** An erased object: a domain pointer, and the bytes of an erased value with its padding. */
  datatype Object<D> = Object(domain: D, value: seq<Byte>)

  function Layout(s: seq<Byte>): Object<seq<Byte>>
    requires |s| >= DOMAIN_SIZE
  {
    Object(s[..DOMAIN_SIZE], s[DOMAIN_SIZE..])
  }

  /** A null domain pointer. */
  predicate IsEmpty(o: Object<seq<Byte>>) { o.domain == Zeros(DOMAIN_SIZE) }

  /** A value of some type at the start of the value's place: of the domain's own type, what the domain
      reads in place; of the erased type, what `value()` returns. */
  function ReadAs<D>(t: IntType, o: Object<D>): int
    requires t.width <= |o.value|
  {
    Read(t, Truncate(o.value, t.width))
  }

  /** The erased object built from a typed code on a little-endian machine. */
  function Erased<D>(domain: D, e: IntType, t: IntType, v: int, padding: seq<Byte>): Object<D> {
    Object(domain, ToBytes(ErasureCast(e, t, v), e.width) + padding)
  }

  /** A default-constructed value, and padding with whatever is in it. */
  function Blank(width: nat, padding: seq<Byte>): seq<Byte> { Zeros(width) + padding }

  /** `_do_erased_copy`'s default: refuse when the destination is smaller, else `memcpy`. */
  method DefaultErasedCopy(dst: array<Byte>, src: array<Byte>, dstTotal: nat, srcTotal: nat) returns (errcode: int)
    requires dst != src && dstTotal <= dst.Length && srcTotal <= src.Length
    modifies dst
    ensures errcode == if dstTotal < srcTotal then ENOBUFS else 0
    ensures dst[..] == if dstTotal < srcTotal then old(dst[..]) else old(src[..srcTotal]) + old(dst[srcTotal..])
  {
    if dstTotal < srcTotal {
      return ENOBUFS;
    }
    var toCopy := if dstTotal > srcTotal then srcTotal else dstTotal;
    for i := 0 to toCopy
      invariant src[..] == old(src[..])
      invariant forall k | 0 <= k < i :: dst[k] == src[k]
      invariant forall k | i <= k < dst.Length :: dst[k] == old(dst[k])
    {
      dst[i] := src[i];
    }
    return 0;
  }

  /** A default-constructed object with a given domain pointer. */
  method Construct(domain: seq<Byte>, width: nat, padding: seq<Byte>) returns (x: array<Byte>)
    requires |domain| == DOMAIN_SIZE && |padding| == Room(width) - width
    ensures fresh(x) && x[..] == domain + Blank(width, padding)
  {
    var bytes := domain + Blank(width, padding);
    x := new Byte[|bytes|](i requires 0 <= i < |bytes| => bytes[i]);
  }

  /** `clone()`: an empty object, or a default-constructed one the domain copies into. */
  method Clone(src: array<Byte>, payload: nat, width: nat, padding: seq<Byte>) returns (x: array<Byte>)
    requires src.Length == ObjectSize(width) && payload <= Room(width) && |padding| == Room(width) - width
    ensures fresh(x) && x.Length == src.Length
    ensures Layout(x[..]) ==
      if src[..DOMAIN_SIZE] == Zeros(DOMAIN_SIZE) then Object(Zeros(DOMAIN_SIZE), Blank(width, padding))
      else CopiedValue(Layout(src[..]), payload, Blank(width, padding))
  {
    x := Construct(Zeros(DOMAIN_SIZE), width, padding);
    assert Layout(x[..]) == Object(Zeros(DOMAIN_SIZE), Blank(width, padding));
    if src[..DOMAIN_SIZE] == Zeros(DOMAIN_SIZE) {
      return;
    }
    CopiedLayout(src[..], payload, x[..]);
    var errcode := DefaultErasedCopy(x, src, DOMAIN_SIZE + payload, DOMAIN_SIZE + payload);
    assert errcode == 0 && src[..][..DOMAIN_SIZE + payload] == src[..DOMAIN_SIZE + payload];
  }

  /** Tagged copy construction from an unknown, non-empty code: the destination offers its padded
      size, so it may hold a payload wider than its value. */
  method NothrowCopy(src: array<Byte>, payload: nat, width: nat, padding: seq<Byte>) returns (x: array<Byte>)
    requires src.Length >= DOMAIN_SIZE + payload && src[..DOMAIN_SIZE] != Zeros(DOMAIN_SIZE)
    requires |padding| == Room(width) - width
    ensures fresh(x) && x.Length == ObjectSize(width)
    ensures Layout(x[..]) ==
      if Room(width) < payload then Object(Zeros(DOMAIN_SIZE), Blank(width, padding))
      else CopiedValue(Layout(src[..]), payload, Blank(width, padding))
  {
    x := Construct(src[..DOMAIN_SIZE], width, padding);
    ghost var before := x[..];
    assert Layout(before).value == Blank(width, padding);
    var errcode := DefaultErasedCopy(x, src, ObjectSize(width), DOMAIN_SIZE + payload);
    if errcode != 0 {
      for i := 0 to DOMAIN_SIZE
        invariant forall k | 0 <= k < i :: x[k] == 0
        invariant forall k | i <= k < x.Length :: x[k] == before[k]
      {
        x[i] := 0;
      }
      assert x[..][..DOMAIN_SIZE] == Zeros(DOMAIN_SIZE) && x[..][DOMAIN_SIZE..] == before[DOMAIN_SIZE..];
    } else {
      CopiedLayout(src[..], payload, before);
      assert src[..][..DOMAIN_SIZE + payload] == src[..DOMAIN_SIZE + payload];
    }
  }

  // -------------------------------------------------- what the copies mean

  /** The object after the payload bytes are copied over a blank one. */
  function CopiedValue<D>(o: Object<D>, payload: nat, blank: seq<Byte>): Object<D>
    requires payload <= |o.value| && payload <= |blank|
  {
    Object(o.domain, Truncate(o.value, payload) + blank[payload..])
  }

  lemma CopiedLayout(src: seq<Byte>, payload: nat, before: seq<Byte>)
    requires |src| >= DOMAIN_SIZE + payload && |before| >= DOMAIN_SIZE + payload
    ensures Layout(src[..DOMAIN_SIZE + payload] + before[DOMAIN_SIZE + payload..])
      == CopiedValue(Layout(src), payload, Layout(before).value)
  {
    var x := src[..DOMAIN_SIZE + payload] + before[DOMAIN_SIZE + payload..];
    assert x[..DOMAIN_SIZE] == src[..DOMAIN_SIZE];
    assert x[DOMAIN_SIZE..] == src[DOMAIN_SIZE..][..payload] + before[DOMAIN_SIZE..][payload..];
  }

  /** A copy into storage of any sufficient size decodes to the same domain and typed value. */
  lemma CopyDecodesTheSame<D>(o: Object<D>, t: IntType, blank: seq<Byte>)
    requires t.width <= |o.value| && t.width <= |blank|
    ensures CopiedValue(o, t.width, blank).domain == o.domain
    ensures ReadAs(t, CopiedValue(o, t.width, blank)) == ReadAs(t, o)
  {
    assert Truncate(CopiedValue(o, t.width, blank).value, t.width) == Truncate(o.value, t.width);
  }

  /** The clone of an erased code has the original's raw `value()` exactly when the payload is full
      width or not negative: the copy leaves the bytes a negative payload was sign-extended into
      as zeros. */
  lemma CloneRawValueIff<D>(domain: D, e: IntType, t: IntType, v: int, padding: seq<Byte>, pad: seq<Byte>)
    requires t.width <= e.width && InRange(t, v)
    ensures var o := Erased(domain, e, t, v, padding);
      var c := CopiedValue(o, t.width, Blank(e.width, pad));
      && ReadAs(t, o) == ReadAs(t, c) == v
      && (ReadAs(e, c) == ReadAs(e, o) <==> t.width == e.width || v >= 0)
  {
    var o := Erased(domain, e, t, v, padding);
    var c := CopiedValue(o, t.width, Blank(e.width, pad));
    var wide := ToBytes(v, e.width);
    CopyDecodesTheSame(o, t, Blank(e.width, pad));
    WideningAgreesInPlace(e, t, v);
    assert Truncate(o.value, t.width) == Truncate(wide, t.width);
    ReadBack(t, v);
    var copied := Truncate(wide, t.width) + Zeros(e.width - t.width);
    assert Truncate(c.value, e.width) == copied && Truncate(o.value, e.width) == wide;
    RawValueDeterminesBytes(e, copied, wide);
    if t.width == e.width {
      assert copied == wide;
    } else {
      SignBytesAbove(v, t, e.width);
      assert wide == wide[..t.width] + wide[t.width..];
      assert copied[t.width..] == Zeros(e.width - t.width);
    }
  }

  lemma SignBytesAbove(v: int, t: IntType, n: nat)
    requires t.width < n && InRange(t, v)
    ensures ToBytes(v, n)[t.width..] == Zeros(n - t.width) <==> v >= 0
  {
    var high := ToBytes(v, n)[t.width..];
    forall i: nat | i < n - t.width ensures high[i] == SignByte(v) {
      ToBytesAt(v, n, t.width + i);
      if t.width == 0 { assert Pow256(0) == 1; }
      SignExtension(v, t.width, t.width + i);
    }
    assert high[0] == SignByte(v);
  }

  lemma RawValueDeterminesBytes(e: IntType, a: seq<Byte>, b: seq<Byte>)
    requires |a| == |b| == e.width
    ensures Read(e, a) == Read(e, b) <==> a == b
  {
    CastKeepsBytes(e, FromBytes(a));
    CastKeepsBytes(e, FromBytes(b));
    ToFromBytes(a);
    ToFromBytes(b);
  }

  /** On the padded path the value of a clone is byte for byte the original's. */
  lemma PaddedCloneIsIdentical<D>(domain: D, payload: seq<Byte>, width: nat, padding: seq<Byte>, pad: seq<Byte>)
    requires |payload| <= width
    ensures var o := Object(domain, PadTo(payload, width) + padding);
      var c := CopiedValue(o, |payload|, Blank(width, pad));
      c.domain == o.domain && Truncate(c.value, width) == Truncate(o.value, width)
  {
    var o := Object(domain, PadTo(payload, width) + padding);
    var c := CopiedValue(o, |payload|, Blank(width, pad));
    assert Truncate(o.value, |payload|) == payload;
    assert Truncate(c.value, width) == PadTo(payload, width);
  }

  /** Cloning again changes nothing more. */
  lemma CloneOfCloneIsClone<D>(o: Object<D>, payload: nat, blank: seq<Byte>)
    requires payload <= |o.value| && payload <= |blank|
    ensures var c := CopiedValue(o, payload, blank); CopiedValue(c, payload, blank) == c
  {
    var c := CopiedValue(o, payload, blank);
    assert Truncate(c.value, payload) == Truncate(o.value, payload);
  }

  /** A nothrow copy is all or nothing: empty when the source does not fit the padded object, and
      otherwise the same domain and typed value. */
  lemma NothrowCopyAllOrNothing(src: seq<Byte>, t: IntType, width: nat, padding: seq<Byte>, x: Object<seq<Byte>>)
    requires |src| >= DOMAIN_SIZE + t.width && src[..DOMAIN_SIZE] != Zeros(DOMAIN_SIZE)
    requires |padding| == Room(width) - width
    requires x == if Room(width) < t.width then Object(Zeros(DOMAIN_SIZE), Blank(width, padding))
                  else CopiedValue(Layout(src), t.width, Blank(width, padding))
    ensures IsEmpty(x) <==> ObjectSize(width) < DOMAIN_SIZE + t.width
    ensures !IsEmpty(x) ==> x.domain == Layout(src).domain && ReadAs(t, x) == ReadAs(t, Layout(src))
  {
    if Room(width) >= t.width { CopyDecodesTheSame(Layout(src), t, Blank(width, padding)); }
  }

  /** An object for an int offers an eight-byte payload the room it needs, in its padding. */
  lemma IntObjectHoldsPointer()
    ensures ObjectSize(4) == ObjectSize(8) && Room(4) == 8
  {}
}
