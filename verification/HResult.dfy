/** Wrapping win32 codes and NT statuses into HRESULTs, by the bit layouts of sections 2.1 and 2.3 of
    [MS-ERREF], keeps their meaning exactly when the bits the wrapping drops did not matter. */
module HResult {
  import opened Codes
  import opened Comparison

  /** HRESULT_FROM_WIN32: zero and values with the top bit set pass unchanged. */
  function FromWin32(x: bv32): bv32 {
    if x == 0 || Negative(x) then x else (x & 0xffff) | (FACILITY_WIN32 << 16) | 0x8000_0000
  }

  /** HRESULT_FROM_NT. */
  function FromNt(x: bv32): bv32 { x | NT_BIT }

  lemma FromWin32Bits(x: bv32)
    requires x != 0 && !Negative(x)
    ensures var h := FromWin32(x);
      !HasNtBit(h) && Facility(h) == FACILITY_WIN32 && CodePart(h) == CodePart(x) && Negative(h)
  {}

  lemma FromNtSetsBit(x: bv32)
    ensures HasNtBit(FromNt(x))
  {}

  lemma FromNtKeepsRest(x: bv32)
    ensures WithoutNtBit(FromNt(x)) == WithoutNtBit(x)
  {}

  lemma FromNtKeepsSign(x: bv32)
    ensures Negative(FromNt(x)) == Negative(x)
  {}

  lemma FromNtGenericCode(t: Tables, x: bv32)
    ensures InClass(t, Com(FromNt(x)))
    ensures GenericCode(t, Com(FromNt(x))) == NtToErrno(t, WithoutNtBit(x))
  {
    FromNtSetsBit(x);
    FromNtKeepsRest(x);
    ZeroHasNoFacility();
  }

  lemma FromNtMatches(t: Tables, x: bv32)
    requires !HasNtBit(x)
    ensures DoEquivalent(t, Com(FromNt(x)), Nt(x))
    ensures WithoutNtBit(x) == x
  {
    FromNtSetsBit(x);
    FromNtKeepsRest(x);
  }

  /** Two codes are equivalent to the same errc values. */
  ghost predicate SameErrcs(t: Tables, a: Code, b: Code) {
    forall e :: Equivalent(t, a, Generic(e)) <==> Equivalent(t, b, Generic(e))
  }

  lemma SameErrcsIffSameGeneric(t: Tables, a: Code, b: Code)
    requires InClass(t, a) && InClass(t, b)
    ensures SameErrcs(t, a, b) <==> GenericCode(t, a) == GenericCode(t, b)
  {
    ClaimsOnlyGenericCodeIff(t, a);
    ClaimsOnlyGenericCodeIff(t, b);
    forall e
      ensures Equivalent(t, a, Generic(e)) <==> GenericCode(t, a) == e
      ensures Equivalent(t, b, Generic(e)) <==> GenericCode(t, b) == e
    {
      EquivalentToErrc(t, a, e);
      EquivalentToErrc(t, b, e);
    }
    assert Equivalent(t, a, Generic(GenericCode(t, a)));
  }

  /** What decides the errno of an HRESULT whose facility or NT bit says where to look it up. */
  function ErrnoByBits(t: Tables, h: bv32): Option<Errc> {
    if HasNtBit(h) then Some(NtToErrno(t, WithoutNtBit(h)))
    else if Facility(h) == FACILITY_WIN32 then Some(Win32ToErrno(t, CodePart(h)))
    else None
  }

  lemma HResultErrcs(t: Tables, h: bv32)
    ensures InClass(t, Com(h)) <==> ErrnoByBits(t, h).Some?
    ensures InClass(t, Com(h)) ==> ErrnoByBits(t, h) == Some(GenericCode(t, Com(h)))
    ensures h != 0 && !InClass(t, Com(h)) ==> forall e :: !Equivalent(t, Com(h), Generic(e))
  {
    ZeroHasNoFacility();
    forall e ensures Equivalent(t, Com(h), Generic(e))
      <==> Claims(t, Com(h), e) || (e != UNKNOWN && GenericCode(t, Com(h)) == e)
    {
      EquivalentToErrc(t, Com(h), e);
    }
  }

  lemma Win32MeetsOwnErrno(t: Tables, x: bv32)
    ensures Equivalent(t, Win32(x), Generic(Win32ToErrno(t, x)))
  {
    EquivalentToErrc(t, Win32(x), Win32ToErrno(t, x));
  }

  /** Wrapping a win32 code keeps its errc values exactly when: it is zero; or it is positive and its
      low 16 bits have the same errno; or its top bit is set, so that it passes unchanged, and its
      bits happen to read as an HRESULT of the same errno.  It always keeps it a failure. */
  lemma Win32WrapPreservesIff(t: Tables, x: bv32)
    ensures SameErrcs(t, Com(FromWin32(x)), Win32(x)) <==>
      if x == 0 then true
      else if !Negative(x) then Win32ToErrno(t, x) == Win32ToErrno(t, CodePart(x))
      else ErrnoByBits(t, x) == Some(Win32ToErrno(t, x))
    ensures DoFailure(t, Com(FromWin32(x))) == DoFailure(t, Win32(x))
  {
    HResultErrcs(t, FromWin32(x));
    Win32MeetsOwnErrno(t, x);
    if x == 0 {
      ZeroWrapPreserves(t);
    } else if !Negative(x) {
      FromWin32Bits(x);
      SameErrcsIffSameGeneric(t, Com(FromWin32(x)), Win32(x));
    } else if InClass(t, Com(x)) {
      SameErrcsIffSameGeneric(t, Com(x), Win32(x));
    }
  }

  lemma ZeroWrapPreserves(t: Tables)
    ensures SameErrcs(t, Com(0), Win32(0)) && Equivalent(t, Com(0), Win32(0))
  {
    ZeroHasNoFacility();
    forall e ensures Equivalent(t, Com(0), Generic(e)) <==> Equivalent(t, Win32(0), Generic(e)) {
      EquivalentToErrc(t, Com(0), e);
      EquivalentToErrc(t, Win32(0), e);
    }
    QueryIsClaim(t, Win32(0), SUCCESS);
    assert MatchesGenericOf(t, Win32(0), Com(0));
  }

  /** So every win32 code that fits the 16-bit code field survives, zero included, and equals the
      HRESULT made from it. */
  lemma ShortWin32WrapPreserves(t: Tables, x: bv32)
    requires x <= 0xffff
    ensures SameErrcs(t, Com(FromWin32(x)), Win32(x))
    ensures DoFailure(t, Com(FromWin32(x))) == DoFailure(t, Win32(x))
    ensures Equivalent(t, Com(FromWin32(x)), Win32(x))
  {
    assert CodePart(x) == x;
    Win32WrapPreservesIff(t, x);
    if x == 0 {
      ZeroWrapPreserves(t);
    } else {
      FromWin32Bits(x);
      assert DoEquivalent(t, Com(FromWin32(x)), Win32(x));
    }
  }

  /** Wrapping an NT status keeps its errc values exactly when dropping bit 28 keeps its errno; it
      always keeps success and failure. */
  lemma NtWrapPreservesIff(t: Tables, x: bv32)
    ensures SameErrcs(t, Com(FromNt(x)), Nt(x)) <==> NtToErrno(t, x) == NtToErrno(t, WithoutNtBit(x))
    ensures !HasNtBit(x) ==> SameErrcs(t, Com(FromNt(x)), Nt(x)) && Equivalent(t, Com(FromNt(x)), Nt(x))
    ensures DoFailure(t, Com(FromNt(x))) == DoFailure(t, Nt(x))
  {
    FromNtGenericCode(t, x);
    FromNtKeepsSign(x);
    SameErrcsIffSameGeneric(t, Com(FromNt(x)), Nt(x));
    if !HasNtBit(x) { FromNtMatches(t, x); }
  }
}
