/** Status code objects in memory, read in place by their domains.

    An object is a domain pointer, the bytes of a value of some integer type, and padding up to the
    alignment of the pointer.  The domain reads its own value, of the type its `payload_info()` reports,
    from the first bytes, whatever erasures, copies and moves put them there.  Those compare padded
    objects, and casts carry value bytes only, so a payload wider than the value may sit partly in the
    padding and be cut by the next move. */
module InPlace {
  import opened Codes
  import opened Erasure
  import opened ErasedCopy
  import opened Ownership

  // ---------------------------------------------------------------- values

  /** The domains that keep the default byte copy. */
  datatype Domain =
    | GenericDomain | PosixDomain | Win32Domain | NtDomain | ComDomain | HttpDomain
    | QuickDomain(table: nat) | StdErrorDomain(category: Category)

  function DomainOf(c: ValueCode): Domain {
    match c
    case Generic(_) => GenericDomain
    case Posix(_) => PosixDomain
    case Win32(_) => Win32Domain
    case Nt(_) => NtDomain
    case Com(_) => ComDomain
    case Http(_) => HttpDomain
    case Quick(q, _) => QuickDomain(q)
    case StdError(cat, _) => StdErrorDomain(cat)
  }

  /** A 32-bit LONG. */
  function FromLong(v: bv32): int { if Negative(v) then v as int - 0x1_0000_0000 else v as int }

  function ValueOf(c: ValueCode): int {
    match c
    case Generic(e) => e
    case Posix(v) => v
    case Win32(v) => v as int
    case Nt(v) => FromLong(v)
    case Com(v) => FromLong(v)
    case Http(v) => v
    case Quick(_, v) => v
    case StdError(_, v) => v
  }

  function CodeOf(d: Domain, v: int): ValueCode {
    match d
    case GenericDomain => Generic(v)
    case PosixDomain => Posix(v)
    case Win32Domain => Win32(ToDword(v))
    case NtDomain => Nt(ToDword(v))
    case ComDomain => Com(ToDword(v))
    case HttpDomain => Http(v)
    case QuickDomain(q) => Quick(q, v)
    case StdErrorDomain(cat) => StdError(cat, v)
  }

  lemma DwordOfValue(v: bv32)
    ensures (v as int) as bv32 == v && 0 <= v as int < 0x1_0000_0000
  {}

  lemma DwordOfInt(n: int)
    requires 0 <= n < 0x1_0000_0000
    ensures ToDword(n) == n as bv32 && ToDword(n - 0x1_0000_0000) == n as bv32
  {
    ModUnique(n, 0x1_0000_0000, 0, n);
    ModUnique(n - 0x1_0000_0000, 0x1_0000_0000, -1, n);
  }

  lemma DwordRoundTrip(v: bv32)
    ensures ToDword(v as int) == v && ToDword(FromLong(v)) == v
  {
    DwordOfValue(v);
    DwordOfInt(v as int);
  }

  lemma CodeRoundTrip(c: ValueCode)
    ensures CodeOf(DomainOf(c), ValueOf(c)) == c
  {
    match c
    case Win32(v) => DwordRoundTrip(v);
    case Nt(v) => DwordRoundTrip(v);
    case Com(v) => DwordRoundTrip(v);
    case _ =>
  }

  // --------------------------------------------------------------- objects

  /** A domain pointer: null, a byte-copied domain and its value type, or an indirecting domain. */
  datatype DomainPtr = NoDomain | ByteCopied(domain: Domain, layout: IntType) | Indirecting

  const ADDRESS := IntType(ADDRESS_SIZE, false)

  /** The width of the value `payload_info()` reports. */
  function PayloadWidth(p: DomainPtr): nat {
    match p
    case NoDomain => 0
    case ByteCopied(_, t) => t.width
    case Indirecting => ADDRESS.width
  }

  datatype Stored = Stored(layout: IntType, held: Object<DomainPtr>)

  predicate WellFormed(o: Stored) {
    Room(o.layout.width) == |o.held.value| && PayloadWidth(o.held.domain) <= Room(o.layout.width)
  }

  type StatusObject = o: Stored | WellFormed(o) witness Stored(IntType(0, false), Object(NoDomain, []))

  /** What the object's domain reads in it. */
  function HandleOf(o: StatusObject): Handle {
    var w := o.layout.width;
    match o.held.domain
    case NoDomain => Null(w)
    case ByteCopied(d, t) => Value(w, t.width, CodeOf(d, ReadAs(t, o.held)))
    case Indirecting => Owner(w, FromBytes(Truncate(o.held.value, ADDRESS.width)))
  }

  /** What the object holds, given whether an address in it has been cut. */
  function HandleIn(o: StatusObject, stray: bool): Handle {
    if stray && o.held.domain.Indirecting? then Stray(o.layout.width) else HandleOf(o)
  }

  /** The code a byte-copied domain reads in the object. */
  function ReadIn(o: StatusObject): ValueCode {
    match o.held.domain
    case ByteCopied(d, t) => CodeOf(d, ReadAs(t, o.held))
    case _ => Generic(SUCCESS)
  }

  /** The bytes its domain reads. */
  function PayloadBytes(o: StatusObject): seq<Byte> { Truncate(o.held.value, PayloadWidth(o.held.domain)) }

  lemma SamePayloadSameHandle(o: StatusObject, x: StatusObject)
    requires o.held.domain == x.held.domain && PayloadBytes(o) == PayloadBytes(x)
    ensures HandleOf(x) == Resized(HandleOf(o), x.layout.width)
  {}

  /** Padding for an object of this type. */
  predicate Pads(padding: seq<Byte>, e: IntType) { |padding| == Room(e.width) - e.width }

  /** An empty code of a given erased type. */
  function EmptyObject(e: IntType, padding: seq<Byte>): StatusObject
    requires Pads(padding, e)
  {
    Stored(e, Object(NoDomain, Blank(e.width, padding)))
  }

  function Nulled(o: StatusObject): StatusObject { o.(held := o.held.(domain := NoDomain)) }

  // --------------------------------------------------------------- erasure

  /** The two implementations of `erasure_cast`. */
  datatype Form = Widened | Padded

  function CastBytes(form: Form, to: IntType, from: IntType, v: int): (s: seq<Byte>)
    ensures |s| == to.width
  {
    match form
    case Widened => ToBytes(ErasureCast(to, from, v), to.width)
    case Padded =>
      if from.width <= to.width then PadTo(ToBytes(v, from.width), to.width)
      else Truncate(ToBytes(v, from.width), to.width)
  }

  lemma CastKeepsPrefix(form: Form, to: IntType, from: IntType, v: int, n: nat)
    requires n <= to.width && n <= from.width && InRange(from, v)
    ensures CastBytes(form, to, from, v)[..n] == ToBytes(v, from.width)[..n]
  {
    match form
    case Widened => ReErasureKeepsPayload(to, from, n, v);
    case Padded =>
  }

  /** Erasing a typed code whose value type is `t`. */
  function Erase(form: Form, e: IntType, t: IntType, c: ValueCode, padding: seq<Byte>): StatusObject
    requires Convertible(t.width, e.width) && Pads(padding, e)
  {
    Stored(e, Object(ByteCopied(DomainOf(c), t), CastBytes(form, e, t, ValueOf(c)) + padding))
  }

  lemma ErasedValueReads(form: Form, e: IntType, t: IntType, c: ValueCode, padding: seq<Byte>)
    requires t.width <= e.width && Convertible(t.width, e.width) && Pads(padding, e) && InRange(t, ValueOf(c))
    ensures ReadAs(t, Erase(form, e, t, c, padding).held) == ValueOf(c)
  {
    var bytes := CastBytes(form, e, t, ValueOf(c));
    CastKeepsPrefix(form, e, t, ValueOf(c), t.width);
    assert (bytes + padding)[..t.width] == bytes[..t.width] == ToBytes(ValueOf(c), t.width);
    ReadBack(t, ValueOf(c));
  }

  /** The domain reads the very code that was erased, whichever form erased it, if the erased type is
      as wide. */
  lemma ErasedReadsBack(form: Form, e: IntType, t: IntType, c: ValueCode, padding: seq<Byte>)
    requires Convertible(t.width, e.width) && Pads(padding, e) && InRange(t, ValueOf(c))
    ensures var x := Erase(form, e, t, c, padding);
      HandleOf(x) == Value(e.width, t.width, if t.width <= e.width then c else ReadIn(x))
  {
    if t.width <= e.width {
      ErasedValueReads(form, e, t, c, padding);
      CodeRoundTrip(c);
    }
  }

  lemma StaticCastInRange(t: IntType, v: int)
    ensures InRange(t, StaticCast(t, v))
  {
    var p := Pow256(t.width);
    assert 0 <= v % p < p;
  }

  lemma RawValueKeepsBytes(o: StatusObject)
    ensures InRange(o.layout, ReadAs(o.layout, o.held))
    ensures ToBytes(ReadAs(o.layout, o.held), o.layout.width) == Truncate(o.held.value, o.layout.width)
  {
    var bytes := Truncate(o.held.value, o.layout.width);
    StaticCastInRange(o.layout, FromBytes(bytes));
    CastKeepsBytes(o.layout, FromBytes(bytes));
    ToFromBytes(bytes);
  }

  /** A move, a conversion to another erased type, or a typed code made from an erased one: the value
      is cast, and the padding is whatever it is. */
  function Cast(form: Form, e: IntType, o: StatusObject, padding: seq<Byte>): StatusObject
    requires Convertible(o.layout.width, e.width) && Pads(padding, e)
  {
    Stored(e, Object(o.held.domain, CastBytes(form, e, o.layout, ReadAs(o.layout, o.held)) + padding))
  }

  lemma CastKeepsPayload(form: Form, e: IntType, o: StatusObject, padding: seq<Byte>)
    requires Convertible(o.layout.width, e.width) && Pads(padding, e)
    requires PayloadWidth(o.held.domain) <= o.layout.width && PayloadWidth(o.held.domain) <= e.width
    ensures PayloadBytes(Cast(form, e, o, padding)) == PayloadBytes(o)
  {
    var x, w := Cast(form, e, o, padding), PayloadWidth(o.held.domain);
    RawValueKeepsBytes(o);
    CastKeepsPrefix(form, e, o.layout, ReadAs(o.layout, o.held), w);
    assert x.held.value[..w] == CastBytes(form, e, o.layout, ReadAs(o.layout, o.held))[..w];
    assert Truncate(o.held.value, o.layout.width)[..w] == o.held.value[..w];
  }

  /** What arrives of a handle that is not an owner, and of an owner that is not cut. */
  lemma CastArrives(form: Form, e: IntType, o: StatusObject, padding: seq<Byte>)
    requires Convertible(o.layout.width, e.width) && Pads(padding, e)
    ensures var x := Cast(form, e, o, padding);
      (HandleOf(o).Owner? ==> Fits(HandleOf(o), e.width)) ==>
        HandleOf(x) == Arrives(HandleOf(o), e.width, ReadIn(x))
  {
    if Fits(HandleOf(o), e.width) {
      CastKeepsPayload(form, e, o, padding);
      SamePayloadSameHandle(o, Cast(form, e, o, padding));
    }
  }

  /** What arrives is what the bytes say, or a cut address. */
  lemma CastArrivesOrCuts(form: Form, e: IntType, o: StatusObject, padding: seq<Byte>, h: Handle)
    requires Convertible(o.layout.width, e.width) && Pads(padding, e)
    requires h == HandleOf(o) || h == HandleIn(o, true)
    ensures var x := Cast(form, e, o, padding); var arrived := Arrives(h, e.width, ReadIn(x));
      arrived == HandleOf(x) || arrived == HandleIn(x, true)
  {
    CastArrives(form, e, o, padding);
  }

  /** Objects of one type holding codes of one domain. */
  predicate IsOf(o: StatusObject, layout: IntType, p: DomainPtr) { o.layout == layout && o.held.domain == p }

  ghost predicate CastKeepsAll(form: Form, e: IntType, layout: IntType, p: DomainPtr)
    requires Convertible(layout.width, e.width)
  {
    forall o: StatusObject, padding: seq<Byte> | IsOf(o, layout, p) && Pads(padding, e) ::
      PayloadBytes(Cast(form, e, o, padding)) == PayloadBytes(o)
  }

  /** A cast keeps what the domain reads, for every value and every padding, exactly when the payload is
      no wider than the value cast and the value it is cast to. */
  lemma CastKeepsAllIff(form: Form, e: IntType, layout: IntType, p: DomainPtr)
    requires Convertible(layout.width, e.width) && PayloadWidth(p) <= Room(layout.width)
    ensures CastKeepsAll(form, e, layout, p) <==> PayloadWidth(p) <= layout.width && PayloadWidth(p) <= e.width
  {
    var w := PayloadWidth(p);
    if w <= layout.width && w <= e.width {
      forall o: StatusObject, padding: seq<Byte> | IsOf(o, layout, p) && Pads(padding, e)
        ensures PayloadBytes(Cast(form, e, o, padding)) == PayloadBytes(o)
      {
        CastKeepsPayload(form, e, o, padding);
      }
    } else {
      CastLosesSome(form, e, layout, p);
    }
  }

  function Ones(n: nat): (s: seq<Byte>)
    ensures |s| == n && forall i | 0 <= i < n :: s[i] == 1
  {
    seq(n, _ => 1)
  }

  lemma {:induction false} ZeroFromBytes(s: seq<Byte>)
    requires forall i | 0 <= i < |s| :: s[i] == 0
    ensures FromBytes(s) == 0
  {
    if s != [] { ZeroFromBytes(s[1..]); }
  }

  lemma {:induction false} ZeroToBytes(n: nat)
    ensures ToBytes(0, n) == Zeros(n)
  {
    if n > 0 { ZeroToBytes(n - 1); }
  }

  /** The zero value casts to zero. */
  lemma ZeroCasts(form: Form, to: IntType, from: IntType)
    ensures CastBytes(form, to, from, 0) == Zeros(to.width)
  {
    ZeroToBytes(from.width);
    ZeroToBytes(to.width);
    var p, q := Pow256(from.width), Pow256(to.width);
    assert 0 % p == 0 && 0 % q == 0;
    ZeroFromBytes(Zeros(from.width));
    ZeroFromBytes(Zeros(to.width));
  }

  /** An object whose value is all zeros casts to one whose value is. */
  lemma ZeroObjectCasts(form: Form, e: IntType, o: StatusObject, padding: seq<Byte>)
    requires Convertible(o.layout.width, e.width) && Pads(padding, e)
    requires Truncate(o.held.value, o.layout.width) == Zeros(o.layout.width)
    ensures Cast(form, e, o, padding).held.value == Zeros(e.width) + padding
  {
    ZeroReads(o.layout);
    ZeroCasts(form, e, o.layout);
  }

  lemma ZeroReads(t: IntType)
    ensures Read(t, Zeros(t.width)) == 0
  {
    ZeroFromBytes(Zeros(t.width));
    assert 0 % Pow256(t.width) == 0;
  }

  /** A value of zeros, with ones in the padding before the cast or after it, is not read back. */
  lemma CastLosesSome(form: Form, e: IntType, layout: IntType, p: DomainPtr)
    requires Convertible(layout.width, e.width) && PayloadWidth(p) <= Room(layout.width)
    requires PayloadWidth(p) > layout.width || PayloadWidth(p) > e.width
    ensures !CastKeepsAll(form, e, layout, p)
  {
    var w := PayloadWidth(p);
    var before, after := Room(layout.width) - layout.width, Room(e.width) - e.width;
    var spilled := w > layout.width;
    var spill := if spilled then Ones(before) else Zeros(before);
    var o: StatusObject := Stored(layout, Object(p, Zeros(layout.width) + spill));
    var padding := if spilled then Zeros(after) else Ones(after);
    var x := Cast(form, e, o, padding);
    assert Truncate(o.held.value, layout.width) == Zeros(layout.width);
    ZeroObjectCasts(form, e, o, padding);
    var at := if spilled then layout.width else e.width;
    assert PayloadBytes(o)[at] == o.held.value[at] && PayloadBytes(x)[at] == x.held.value[at];
    assert PayloadBytes(o)[at] != PayloadBytes(x)[at];
    assert IsOf(o, layout, p) && Pads(padding, e);
  }

  /** The default `_do_erased_copy` into a blank object of another erased type. */
  function ByteCopy(e: IntType, o: StatusObject, padding: seq<Byte>): StatusObject
    requires PayloadWidth(o.held.domain) <= Room(e.width) && Pads(padding, e)
  {
    Stored(e, CopiedValue(o.held, PayloadWidth(o.held.domain), Blank(e.width, padding)))
  }

  lemma CopyReadsTheSame(e: IntType, o: StatusObject, padding: seq<Byte>)
    requires PayloadWidth(o.held.domain) <= Room(e.width) && Pads(padding, e)
    ensures HandleOf(ByteCopy(e, o, padding)) == Resized(HandleOf(o), e.width)
    ensures PayloadBytes(ByteCopy(e, o, padding)) == PayloadBytes(o)
  {
    assert PayloadBytes(ByteCopy(e, o, padding)) == PayloadBytes(o);
    SamePayloadSameHandle(o, ByteCopy(e, o, padding));
  }

  ghost predicate CopyThenMoveKeepsAll(form: Form, e: IntType, layout: IntType, p: DomainPtr)
    requires PayloadWidth(p) <= Room(e.width)
  {
    forall o: StatusObject, pad: seq<Byte>, padding: seq<Byte>
      | IsOf(o, layout, p) && Pads(pad, e) && Pads(padding, e) ::
      PayloadBytes(Cast(form, e, ByteCopy(e, o, pad), padding)) == PayloadBytes(o)
  }

  /** A nothrow copy that is not refused keeps what the domain reads; moving the copy keeps it, for every
      value and padding, exactly when the payload is no wider than the copy's value. */
  lemma CopyThenMoveKeepsAllIff(form: Form, e: IntType, layout: IntType, p: DomainPtr)
    requires PayloadWidth(p) <= Room(e.width) && PayloadWidth(p) <= Room(layout.width)
    ensures CopyThenMoveKeepsAll(form, e, layout, p) <==> PayloadWidth(p) <= e.width
  {
    var w := PayloadWidth(p);
    if w <= e.width {
      forall o: StatusObject, pad: seq<Byte>, padding: seq<Byte>
        | IsOf(o, layout, p) && Pads(pad, e) && Pads(padding, e)
        ensures PayloadBytes(Cast(form, e, ByteCopy(e, o, pad), padding)) == PayloadBytes(o)
      {
        CopyReadsTheSame(e, o, pad);
        CastKeepsPayload(form, e, ByteCopy(e, o, pad), padding);
      }
    } else {
      var o: StatusObject := Stored(layout, Object(p, Zeros(Room(layout.width))));
      var pad, padding := Zeros(Room(e.width) - e.width), Ones(Room(e.width) - e.width);
      var copy := ByteCopy(e, o, pad);
      var x := Cast(form, e, copy, padding);
      assert PayloadBytes(o)[e.width] == 0 && PayloadBytes(x)[e.width] == x.held.value[e.width] == 1;
      assert IsOf(o, layout, p) && Pads(pad, e) && Pads(padding, e);
    }
  }

  /** A nested code: the payload's address, over a blank object of any type with room for it. */
  function PlaceAddress(e: IntType, at: Addr, padding: seq<Byte>): StatusObject
    requires ADDRESS.width <= Room(e.width) && Pads(padding, e)
  {
    Stored(e, Object(Indirecting, ToBytes(at, ADDRESS.width) + Blank(e.width, padding)[ADDRESS.width..]))
  }

  lemma AddressIsThere(e: IntType, at: Addr, padding: seq<Byte>)
    requires ADDRESS.width <= Room(e.width) && Pads(padding, e) && InRange(ADDRESS, at)
    ensures HandleOf(PlaceAddress(e, at, padding)) == Owner(e.width, at)
  {
    var bytes := PlaceAddress(e, at, padding).held.value;
    assert Truncate(bytes, ADDRESS.width) == ToBytes(at, ADDRESS.width);
    FromToBytes(at, ADDRESS.width);
    ModUnique(at, Pow256(ADDRESS.width), 0, at);
  }

  // --------------------------------------------------------------- failure

  /** The failure query, on the bytes: a domain reads its value in place, an indirecting one follows
      the pointer and asks the payload's domain. */
  predicate FailureInPlace(t: Tables, payloads: map<Addr, Code>, o: StatusObject)
    requires HandleOf(o).Owner? ==> HandleOf(o).payload in payloads
  {
    match o.held.domain
    case NoDomain => false
    case ByteCopied(d, layout) => DoFailure(t, CodeOf(d, ReadAs(layout, o.held)))
    case Indirecting => DoFailure(t, payloads[FromBytes(Truncate(o.held.value, ADDRESS.width))])
  }

  /** Failure is preserved by erasure: read in place from an erased object, from one it is converted to,
      and from a nothrow copy of that, it is the typed code's, if the values are as wide as the code's;
      the copy may keep it in padding. */
  lemma ErasureKeepsFailure(
      t: Tables, form: Form, e: IntType, other: IntType, copy: IntType, layout: IntType, c: ValueCode,
      pad1: seq<Byte>, pad2: seq<Byte>, pad3: seq<Byte>)
    requires layout.width <= e.width && layout.width <= other.width && InRange(layout, ValueOf(c))
    requires Convertible(layout.width, e.width) && Convertible(e.width, other.width)
    requires layout.width <= Room(copy.width) && Pads(pad1, e) && Pads(pad2, other) && Pads(pad3, copy)
    ensures var erased := Erase(form, e, layout, c, pad1);
      var converted := Cast(form, other, erased, pad2);
      && FailureInPlace(t, map[], erased) == DoFailure(t, c)
      && FailureInPlace(t, map[], converted) == DoFailure(t, c)
      && FailureInPlace(t, map[], ByteCopy(copy, converted, pad3)) == DoFailure(t, c)
  {
    var erased := Erase(form, e, layout, c, pad1);
    var converted := Cast(form, other, erased, pad2);
    ErasedReadsBack(form, e, layout, c, pad1);
    CastArrives(form, other, erased, pad2);
    CopyReadsTheSame(copy, converted, pad3);
  }

  // ---------------------------------------------------- failure across a cut

  /** The same first bytes. */
  predicate AgreeOn(a: seq<Byte>, b: seq<Byte>, n: nat) {
    forall i | 0 <= i < n && i < |a| && i < |b| :: a[i] == b[i]
  }

  function Min(a: nat, b: nat): nat { if a < b then a else b }

  /** The first n bytes of a value decide its failure: changing the others never makes it a success. */
  ghost predicate PrefixDecides(t: Tables, d: Domain, layout: IntType, n: nat) {
    forall a: seq<Byte>, b: seq<Byte>
      | |a| == |b| == layout.width && AgreeOn(a, b, n) && DoFailure(t, CodeOf(d, Read(layout, a))) ::
      DoFailure(t, CodeOf(d, Read(layout, b)))
  }

  lemma WholeDecides(t: Tables, d: Domain, layout: IntType, n: nat)
    requires layout.width <= n
    ensures PrefixDecides(t, d, layout, n)
  {
    forall a: seq<Byte>, b: seq<Byte> | |a| == |b| == layout.width && AgreeOn(a, b, n) ensures a == b {}
  }

  ghost predicate MoveKeepsFailure(t: Tables, form: Form, e: IntType, d: Domain, layout: IntType) {
    forall o: StatusObject, padding: seq<Byte>
      | IsOf(o, e, ByteCopied(d, layout)) && Pads(padding, e) && FailureInPlace(t, map[], o) ::
      FailureInPlace(t, map[], Cast(form, e, o, padding))
  }

  /** A move within one type carries the bytes of the value and takes the others from the padding. */
  lemma MovedBytes(form: Form, o: StatusObject, padding: seq<Byte>)
    requires Pads(padding, o.layout)
    ensures Cast(form, o.layout, o, padding).held.value == Truncate(o.held.value, o.layout.width) + padding
  {
    var e := o.layout;
    RawValueKeepsBytes(o);
    CastKeepsPrefix(form, e, e, ReadAs(e, o.held), e.width);
  }

  lemma PrefixSuffices(t: Tables, form: Form, o: StatusObject, padding: seq<Byte>)
    requires Pads(padding, o.layout) && o.held.domain.ByteCopied? && FailureInPlace(t, map[], o)
    requires PrefixDecides(t, o.held.domain.domain, o.held.domain.layout, o.layout.width)
    ensures FailureInPlace(t, map[], Cast(form, o.layout, o, padding))
  {
    MovedBytes(form, o, padding);
    assert AgreeOn(PayloadBytes(o), PayloadBytes(Cast(form, o.layout, o, padding)), o.layout.width);
  }

  /** A failure of a domain stays one in every move between objects of one type, for all values and
      paddings, exactly when the bytes of the value decide it: so when the payload is no wider, or
      when the domain's table makes the bytes cut off irrelevant. */
  lemma MoveKeepsFailureIff(t: Tables, form: Form, e: IntType, d: Domain, layout: IntType)
    requires layout.width <= Room(e.width)
    ensures MoveKeepsFailure(t, form, e, d, layout) <==> PrefixDecides(t, d, layout, e.width)
    ensures layout.width <= e.width ==> MoveKeepsFailure(t, form, e, d, layout)
  {
    if layout.width <= e.width { WholeDecides(t, d, layout, e.width); }
    if PrefixDecides(t, d, layout, e.width) {
      forall o: StatusObject, padding: seq<Byte>
        | IsOf(o, e, ByteCopied(d, layout)) && Pads(padding, e) && FailureInPlace(t, map[], o)
        ensures FailureInPlace(t, map[], Cast(form, e, o, padding))
      {
        PrefixSuffices(t, form, o, padding);
      }
    }
    if MoveKeepsFailure(t, form, e, d, layout) {
      forall a: seq<Byte>, b: seq<Byte>
        | |a| == |b| == layout.width && AgreeOn(a, b, e.width) && DoFailure(t, CodeOf(d, Read(layout, a)))
        ensures DoFailure(t, CodeOf(d, Read(layout, b)))
      {
        MoveMakes(t, form, e, d, layout, a, b);
      }
    }
  }

  /** Any bytes with the same prefix can be what a move leaves. */
  lemma MoveMakes(t: Tables, form: Form, e: IntType, d: Domain, layout: IntType, a: seq<Byte>, b: seq<Byte>)
    requires layout.width <= Room(e.width) && MoveKeepsFailure(t, form, e, d, layout)
    requires |a| == |b| == layout.width && AgreeOn(a, b, e.width) && DoFailure(t, CodeOf(d, Read(layout, a)))
    ensures DoFailure(t, CodeOf(d, Read(layout, b)))
  {
    if layout.width <= e.width {
      assert a == b;
    } else {
      var rest := Zeros(Room(e.width) - layout.width);
      var o: StatusObject := Stored(e, Object(ByteCopied(d, layout), a + rest));
      var padding := b[e.width..] + rest;
      MovedBytes(form, o, padding);
      assert PayloadBytes(o) == a;
      assert PayloadBytes(Cast(form, e, o, padding)) == b;
    }
  }

  /** For domains whose only success is zero, only the whole value decides. */
  lemma NonzeroNeedsWholeValue(t: Tables, d: Domain, layout: IntType, n: nat)
    requires d.GenericDomain? || d.PosixDomain? || d.StdErrorDomain?
    ensures PrefixDecides(t, d, layout, n) <==> layout.width <= n
  {
    if layout.width <= n {
      WholeDecides(t, d, layout, n);
    } else {
      var a, b := Zeros(n) + Ones(layout.width - n), Zeros(layout.width);
      ZeroReads(layout);
      assert a[n] != b[n];
      RawValueDeterminesBytes(layout, a, b);
      assert AgreeOn(a, b, n);
    }
  }

  /** What a cast leaves has the source's domain and the bytes the two values share. */
  predicate Follows(o: StatusObject, x: StatusObject) {
    && x.held.domain == o.held.domain
    && AgreeOn(PayloadBytes(o), PayloadBytes(x), Min(o.layout.width, x.layout.width))
  }

  lemma CastFollows(form: Form, e: IntType, o: StatusObject, padding: seq<Byte>)
    requires Convertible(o.layout.width, e.width) && Pads(padding, e)
    ensures Follows(o, Cast(form, e, o, padding))
  {
    var n := Min(o.layout.width, e.width);
    var bytes := CastBytes(form, e, o.layout, ReadAs(o.layout, o.held));
    RawValueKeepsBytes(o);
    CastKeepsPrefix(form, e, o.layout, ReadAs(o.layout, o.held), n);
    assert forall i | 0 <= i < n :: bytes[i] == bytes[..n][i] == o.held.value[i];
  }

  /** The bytes a domain reads as a code. */
  predicate Spells(d: Domain, layout: IntType, bytes: seq<Byte>, c: ValueCode) {
    |bytes| == layout.width && CodeOf(d, Read(layout, bytes)) == c
  }

  /** What a move may make of a code of some size when it carries the first n bytes. */
  ghost predicate PossibleCut(c: ValueCode, size: nat, n: nat, cut: ValueCode) {
    exists signed: bool, a: seq<Byte>, b: seq<Byte> ::
      && Spells(DomainOf(c), IntType(size, signed), a, c)
      && Spells(DomainOf(c), IntType(size, signed), b, cut)
      && AgreeOn(a, b, n)
  }

  lemma FollowingIsPossible(o: StatusObject, x: StatusObject)
    requires Follows(o, x) && o.held.domain.ByteCopied?
    ensures PossibleCut(ReadIn(o), PayloadWidth(o.held.domain), Min(o.layout.width, x.layout.width), ReadIn(x))
  {
    var d, layout := o.held.domain.domain, o.held.domain.layout;
    assert DomainOf(ReadIn(o)) == d && layout == IntType(layout.width, layout.signed);
    assert Spells(d, IntType(layout.width, layout.signed), PayloadBytes(o), ReadIn(o));
    assert Spells(d, IntType(layout.width, layout.signed), PayloadBytes(x), ReadIn(x));
  }

  /** No move between values of this width turns a failure of the code's domain into a success. */
  ghost predicate Lasts(t: Tables, c: ValueCode, size: nat, w: nat) {
    size <= w || forall signed: bool :: PrefixDecides(t, DomainOf(c), IntType(size, signed), w)
  }

  lemma LastingCut(t: Tables, c: ValueCode, size: nat, w: nat, cut: ValueCode)
    requires Lasts(t, c, size, w) && w < size && PossibleCut(c, size, w, cut)
    ensures DoFailure(t, c) ==> DoFailure(t, cut)
    ensures Lasts(t, cut, size, w)
  {
    var signed: bool, a: seq<Byte>, b: seq<Byte> :|
      && Spells(DomainOf(c), IntType(size, signed), a, c)
      && Spells(DomainOf(c), IntType(size, signed), b, cut)
      && AgreeOn(a, b, w);
    assert PrefixDecides(t, DomainOf(c), IntType(size, signed), w);
    assert DomainOf(cut) == DomainOf(c);
  }
}
