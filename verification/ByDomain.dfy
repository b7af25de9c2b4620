/** What `equivalent()` and `generic_code()` answer, domain by domain, spelled out on the values, the bits
    and the tables rather than through the observers that compute it. */
module ByDomain {
  import opened Codes
  import opened Comparison
  import opened QuickEnum

  // ------------------------------------------------------------ against errc

  lemma GenericByValue(t: Tables, x: Errc, e: Errc)
    ensures Equivalent(t, Generic(x), Generic(e)) <==> x == e
    ensures GenericCode(t, Generic(x)) == x
  {
    EquivalentToErrc(t, Generic(x), e);
  }

  lemma PosixByValue(t: Tables, v: int, e: Errc)
    ensures Equivalent(t, Posix(v), Generic(e)) <==> v == e
    ensures DoEquivalent(t, Posix(v), Generic(e)) <==> v == e
    ensures GenericCode(t, Posix(v)) == v
  {
    EquivalentToErrc(t, Posix(v), e);
  }

  /** A win32 value is its errno, `errc::unknown` when the table has none; zero is success. */
  lemma Win32ByTable(t: Tables, w: bv32, e: Errc)
    ensures var errno := if w == 0 then 0 else t.win32(w);
      && (Equivalent(t, Win32(w), Generic(e)) <==> e == errno)
      && (DoEquivalent(t, Win32(w), Generic(e)) <==> e == errno)
      && GenericCode(t, Win32(w)) == errno
  {
    EquivalentToErrc(t, Win32(w), e);
  }

  /** An NT status with the top bit clear is success. */
  lemma NtByTable(t: Tables, x: bv32, e: Errc)
    ensures var errno := if x < 0x8000_0000 then 0 else t.nt(x);
      && (Equivalent(t, Nt(x), Generic(e)) <==> e == errno)
      && (DoEquivalent(t, Nt(x), Generic(e)) <==> e == errno)
      && GenericCode(t, Nt(x)) == errno
  {
    EquivalentToErrc(t, Nt(x), e);
  }

  /** The errno of an HRESULT, by the NT bit and the win32 facility. */
  function ErrnoOfHresult(t: Tables, h: bv32): Option<Errc> {
    if h & 0x1000_0000 != 0 then Some(if h & 0xefff_ffff < 0x8000_0000 then 0 else t.nt(h & 0xefff_ffff))
    else if (h >> 16) & 0x1fff == 7 then Some(if h & 0xffff == 0 then 0 else t.win32(h & 0xffff))
    else None
  }

  /** An HRESULT of neither kind equals no errc, but for zero, which equals success by its generic code
      alone. */
  lemma ComByBits(t: Tables, h: bv32, e: Errc)
    ensures DoEquivalent(t, Com(h), Generic(e)) <==> ErrnoOfHresult(t, h) == Some(e)
    ensures Equivalent(t, Com(h), Generic(e)) <==> ErrnoOfHresult(t, h) == Some(e) || (h == 0 && e == 0)
    ensures GenericCode(t, Com(h)) ==
      if h == 0 then 0 else if ErrnoOfHresult(t, h).Some? then ErrnoOfHresult(t, h).value else -1
  {
    ZeroHasNoFacility();
    EquivalentToErrc(t, Com(h), e);
  }

  /** The HTTP statuses of each errc. */
  function HttpStatuses(e: Errc): set<int> {
    (if e == EINPROGRESS then {102, 202} else {}) +
    (if e == EINVAL then {400} else {}) +
    (if e == EPERM then {401} else {}) +
    (if e == EACCES then {403} else {}) +
    (if e == ENOENT then {404, 410} else {}) +
    (if e == EOPNOTSUPP then {405, 418} else {}) +
    (if e == EPROTONOSUPPORT then {406} else {}) +
    (if e == ETIMEDOUT then {408, 504} else {}) +
    (if e == ERANGE then {413} else {}) +
    (if e == ENOTSUP then {501} else {}) +
    (if e == EAGAIN then {503} else {}) +
    (if e == ENOSPC then {507} else {})
  }

  /** An HTTP status equals exactly the errc that lists it, never by its domain's own query, and another
      status only if it is the same. */
  lemma HttpByStatus(t: Tables, v: int, w: int, e: Errc)
    ensures Equivalent(t, Http(v), Generic(e)) <==> v in HttpStatuses(e)
    ensures !DoEquivalent(t, Http(v), Generic(e))
    ensures e != -1 ==> (GenericCode(t, Http(v)) == e <==> v in HttpStatuses(e))
    ensures Equivalent(t, Http(v), Http(w)) <==> v == w
  {
    EquivalentToErrc(t, Http(v), e);
    QueryIsClaim(t, Http(v), GenericCode(t, Http(w)));
    QueryIsClaim(t, Http(w), GenericCode(t, Http(v)));
  }

  /** Row k is the first of its value. */
  predicate IsFirstRow(rows: seq<Mapping>, v: int, k: nat) {
    k < |rows| && rows[k].value == v && forall j | 0 <= j < k :: rows[j].value != v
  }

  lemma {:induction false} FindMappingIsFirst(rows: seq<Mapping>, v: int, k: nat)
    ensures IsFirstRow(rows, v, k) ==> FindMapping(rows, v) == Some(rows[k])
    ensures (forall j | 0 <= j < |rows| :: rows[j].value != v) ==> FindMapping(rows, v).None?
    decreases |rows|
  {
    if rows != [] && rows[0].value != v {
      FindMappingIsFirst(rows[1..], v, if k == 0 then 0 else k - 1);
      assert k > 0 && k < |rows| ==> rows[1..][k - 1] == rows[k];
    }
  }

  /** A quick code equals the errcs listed in the first row of its value, and its generic code is the
      first of them; a value with no row equals nothing and fails. */
  lemma QuickByRow(t: Tables, q: nat, v: int, k: nat, e: Errc)
    ensures IsFirstRow(t.quick(q), v, k) ==>
      var listed := t.quick(q)[k].codes;
      && (Equivalent(t, Quick(q, v), Generic(e)) <==> e in listed)
      && GenericCode(t, Quick(q, v)) == (if |listed| == 0 then -1 else listed[0])
      && (DoFailure(t, Quick(q, v)) <==> 0 !in listed)
    ensures (forall j | 0 <= j < |t.quick(q)| :: t.quick(q)[j].value != v) ==>
      !Equivalent(t, Quick(q, v), Generic(e)) && GenericCode(t, Quick(q, v)) == -1 && DoFailure(t, Quick(q, v))
  {
    FindMappingIsFirst(t.quick(q), v, k);
    EquivalentToErrcIffListed(t, q, v, e);
  }

  /** What a wrapped code equals, fails as and has for generic code is what the code inside does. */
  lemma NestedAsPayload(t: Tables, c: Code, e: Errc)
    ensures Equivalent(t, Nested(c), Generic(e)) <==> Equivalent(t, c, Generic(e))
    ensures GenericCode(t, Nested(c)) == GenericCode(t, c) && DoFailure(t, Nested(c)) == DoFailure(t, c)
  {
    EquivalentToErrc(t, Nested(c), e);
    EquivalentToErrc(t, c, e);
  }

  // ----------------------------------------------------- wrapped std errors

  /** The errno a wrapped `std::error_code` has by conversion: of the generic category its value; of the
      system category its value on POSIX, and on Windows the errno of its value as a DWORD. */
  function ErrnoByConversion(t: Tables, cat: Category, v: int): Option<Errc> {
    if cat == GenericCategory || (cat == SystemCategory && t.platform == PosixLike) then Some(v)
    else if cat == SystemCategory && t.platform == Windows then
      var w := (v % 0x1_0000_0000) as bv32;
      Some(if w == 0 then 0 else t.win32(w))
    else None
  }

  /** The errno it has by its default condition: the condition's value, when the condition is of the
      generic category or, on POSIX, of the system category. */
  function ErrnoByCondition(t: Tables, cat: Category, v: int): Option<Errc> {
    var cond := t.condition(cat, v);
    if cond.category == GenericCategory || (cond.category == SystemCategory && t.platform == PosixLike) then
      Some(cond.value)
    else None
  }

  /** It equals an errc by conversion, or by its condition unless that is `errc::unknown`; its generic
      code is its condition's. */
  lemma StdErrorByCondition(t: Tables, cat: Category, v: int, e: Errc)
    ensures Equivalent(t, StdError(cat, v), Generic(e)) <==>
      ErrnoByConversion(t, cat, v) == Some(e) || (ErrnoByCondition(t, cat, v) == Some(e) && e != -1)
    ensures GenericCode(t, StdError(cat, v)) ==
      if ErrnoByCondition(t, cat, v).Some? then ErrnoByCondition(t, cat, v).value else -1
  {
    EquivalentToErrc(t, StdError(cat, v), e);
  }

  /** Its strict query: against its own category by value; otherwise as the code it is converted to. */
  lemma StdErrorByConversion(t: Tables, cat: Category, v: int, b: Code)
    ensures DoEquivalent(t, StdError(cat, v), b) <==>
      if b.StdError? && b.category == cat then v == b.value
      else match cat
        case GenericCategory => Equivalent(t, Generic(v), b)
        case SystemCategory =>
          || (t.platform == PosixLike && Equivalent(t, Posix(v), b))
          || (t.platform == Windows && Equivalent(t, Win32((v % 0x1_0000_0000) as bv32), b))
        case UserCategory(_) => false
  {}

  /** So on Windows a system code equals a win32 code of the same DWORD, or of the same known errno. */
  lemma SystemCodeIsWin32(t: Tables, v: int, w: bv32)
    requires t.platform == Windows
    ensures var d := (v % 0x1_0000_0000) as bv32;
      var errno, other := if d == 0 then 0 else t.win32(d), if w == 0 then 0 else t.win32(w);
      DoEquivalent(t, StdError(SystemCategory, v), Win32(w)) <==> d == w || (errno == other && errno != -1)
  {
    StdErrorByConversion(t, SystemCategory, v, Win32(w));
    PlainPairs(t, Win32((v % 0x1_0000_0000) as bv32), Win32(w));
    Win32ByTable(t, (v % 0x1_0000_0000) as bv32, if w == 0 then 0 else t.win32(w));
    Win32ByTable(t, w, 0);
    Win32ByTable(t, w, GenericCode(t, Win32((v % 0x1_0000_0000) as bv32)));
  }

  // ------------------------------------------------------------------- pairs

  /** The codes of other domains a domain knows: an NT status its win32 translation, an HRESULT the NT
      status or the win32 value inside it. */
  predicate KnowsOther(t: Tables, a: Code, b: Code) {
    || (a.Nt? && b.Win32? && b.dword == if a.status < 0x8000_0000 then 0 else t.ntWin32(a.status))
    || (a.Com? && b.Nt? && a.hresult & 0x1000_0000 != 0 && b.status == a.hresult & 0xefff_ffff)
    || (a.Com? && b.Win32? && a.hresult & 0x1000_0000 == 0 && (a.hresult >> 16) & 0x1fff == 7
        && b.dword == a.hresult & 0xffff)
  }

  /** Two codes that wrap nothing, and are no errc, are equivalent when they are the same, when one's domain
      knows the other, or when one's domain claims the other's known generic code. */
  lemma PlainPairs(t: Tables, a: Code, b: Code)
    requires !a.StdError? && !a.Nested? && !a.Generic? && !b.StdError? && !b.Nested? && !b.Generic?
    ensures Equivalent(t, a, b) <==>
      || a == b || KnowsOther(t, a, b) || KnowsOther(t, b, a)
      || (GenericCode(t, b) != -1 && DoEquivalent(t, a, Generic(GenericCode(t, b))))
      || (GenericCode(t, a) != -1 && DoEquivalent(t, b, Generic(GenericCode(t, a))))
  {
    StrictPairs(t, a, b);
    StrictPairs(t, b, a);
  }

  lemma StrictPairs(t: Tables, a: Code, b: Code)
    requires !a.StdError? && !a.Nested? && !a.Generic? && !b.StdError? && !b.Nested? && !b.Generic?
    ensures DoEquivalent(t, a, b) <==> a == b || KnowsOther(t, a, b)
  {}
}
