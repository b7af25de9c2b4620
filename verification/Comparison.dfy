/** What `equivalent()` computes: the class of codes on which it is an equivalence relation, exactly
    when it is transitive, and what wrapping a code does to it. */
module Comparison {
  import opened Codes

  // ------------------------------------------------- queries against an errc

  /** The errc values a code's own domain claims for it. */
  predicate Claims(t: Tables, c: Code, e: Errc) {
    match c
    case Generic(x) => x == e
    case Posix(v) => v == e
    case Win32(v) => Win32ToErrno(t, v) == e
    case Nt(v) => NtToErrno(t, v) == e
    case Com(v) =>
      if HasNtBit(v) then NtToErrno(t, WithoutNtBit(v)) == e
      else Facility(v) == FACILITY_WIN32 && Win32ToErrno(t, CodePart(v)) == e
    case Http(_) => false
    case Quick(q, v) =>
      var row := FindMapping(t.quick(q), v);
      row.Some? && e in row.value.codes
    case StdError(cat, v) =>
      var u := Unwrapped(t, cat, v);
      u.Some? && GenericCode(t, u.value) == e
    case Nested(p) => Claims(t, p, e)
  }

  lemma UnwrappedAgainstErrc(t: Tables, u: Code, e: Errc)
    requires u.Generic? || u.Posix? || u.Win32?
    ensures Equivalent(t, u, Generic(e)) <==> GenericCode(t, u) == e
  {
    assert DoEquivalent(t, u, Generic(e)) <==> GenericCode(t, u) == e;
    assert MatchesGenericOf(t, u, Generic(e)) ==> GenericCode(t, u) == e;
    assert DoEquivalent(t, Generic(e), Generic(GenericCode(t, u))) <==> e == GenericCode(t, u);
  }

  lemma {:induction false} QueryIsClaim(t: Tables, c: Code, e: Errc)
    ensures DoEquivalent(t, c, Generic(e)) <==> Claims(t, c, e)
  {
    match c
    case StdError(cat, v) =>
      var u := Unwrapped(t, cat, v);
      if u.Some? { UnwrappedAgainstErrc(t, u.value, e); }
    case Nested(p) => QueryIsClaim(t, p, e);
    case _ =>
  }

  /** Against an errc, `equivalent()` is the domain's claim or an equal known generic code. */
  lemma EquivalentToErrc(t: Tables, c: Code, e: Errc)
    ensures Equivalent(t, c, Generic(e)) <==> Claims(t, c, e) || (e != UNKNOWN && GenericCode(t, c) == e)
  {
    QueryIsClaim(t, c, e);
    assert DoEquivalent(t, Generic(e), Generic(GenericCode(t, c))) <==> GenericCode(t, c) == e;
  }

  // ------------------------------------------------------ the canonical class

  /** A code's domain recognises its generic code, and no other. */
  ghost predicate Recognises(t: Tables, c: Code) {
    forall e :: DoEquivalent(t, c, Generic(e)) <==> e == GenericCode(t, c)
  }

  /** The same, read off the code and the tables. */
  predicate InClass(t: Tables, c: Code) {
    match c
    case Generic(_) => true
    case Posix(_) => true
    case Win32(_) => true
    case Nt(_) => true
    case Com(v) => HasNtBit(v) || Facility(v) == FACILITY_WIN32
    case Http(_) => false
    case Quick(q, v) =>
      var row := FindMapping(t.quick(q), v);
      row.Some? && row.value.codes != [] && forall e | e in row.value.codes :: e == row.value.codes[0]
    case StdError(cat, v) =>
      var u := Unwrapped(t, cat, v);
      u.Some? && GenericCode(t, u.value) == GenericCode(t, c)
    case Nested(p) => InClass(t, p)
  }

  lemma ZeroHasNoFacility()
    ensures !HasNtBit(0) && Facility(0) != FACILITY_WIN32
  {}

  ghost predicate ClaimsOnlyGenericCode(t: Tables, c: Code) {
    forall e :: Claims(t, c, e) <==> e == GenericCode(t, c)
  }

  lemma {:induction false} ClaimsOnlyGenericCodeIff(t: Tables, c: Code)
    ensures ClaimsOnlyGenericCode(t, c) <==> InClass(t, c)
  {
    var g := GenericCode(t, c);
    match c
    case Com(v) => ZeroHasNoFacility(); assert InClass(t, c) <==> Claims(t, c, g);
    case Http(_) => assert !Claims(t, c, g);
    case Quick(q, v) =>
      var row := FindMapping(t.quick(q), v);
      if row.Some? && row.value.codes != [] {
        assert forall e :: e in row.value.codes <==> Claims(t, c, e);
        assert row.value.codes[0] in row.value.codes;
      } else {
        assert !Claims(t, c, g);
      }
    case StdError(cat, v) => assert Claims(t, c, g) <==> InClass(t, c);
    case Nested(p) =>
      ClaimsOnlyGenericCodeIff(t, p);
      assert forall e :: Claims(t, c, e) == Claims(t, p, e);
    case _ =>
  }

  /** The semantic class is the syntactic one. */
  lemma RecognisesIffInClass(t: Tables, c: Code)
    ensures Recognises(t, c) <==> InClass(t, c)
  {
    forall e ensures DoEquivalent(t, c, Generic(e)) <==> Claims(t, c, e) { QueryIsClaim(t, c, e); }
    ClaimsOnlyGenericCodeIff(t, c);
    if Recognises(t, c) {
      assert forall e :: Claims(t, c, e) <==> DoEquivalent(t, c, Generic(e));
    }
  }

  predicate Known(t: Tables, c: Code) { GenericCode(t, c) != UNKNOWN }

  predicate Canonical(t: Tables, c: Code) { InClass(t, c) && Known(t, c) }

  /** The NT tables agree with each other: translating an NT status to win32 keeps its errno
      whenever both are known. */
  ghost predicate NtTablesAgree(t: Tables) {
    forall v: bv32 :: Negative(v) && t.nt(v) != UNKNOWN && Win32ToErrno(t, t.ntWin32(v)) != UNKNOWN
      ==> t.nt(v) == Win32ToErrno(t, t.ntWin32(v))
  }

  lemma PlainMatchSound(t: Tables, a: Code, b: Code)
    requires NtTablesAgree(t) && Canonical(t, a) && Canonical(t, b)
    requires !a.StdError? && !a.Nested? && PlainEquivalent(t, a, b)
    ensures GenericCode(t, a) == GenericCode(t, b)
  {
    if b.Generic? {
      QueryIsClaim(t, a, b.ec);
      ClaimsOnlyGenericCodeIff(t, a);
    } else if a.Com? && !b.Com? {
      ZeroHasNoFacility();
    } else if a.Nt? && b.Win32? && Negative(a.status) {
      assert t.nt(a.status) == Win32ToErrno(t, t.ntWin32(a.status));
    }
  }

  lemma {:induction false} DirectMatchSound(t: Tables, a: Code, b: Code)
    requires NtTablesAgree(t) && Canonical(t, a) && Canonical(t, b)
    requires DoEquivalent(t, a, b)
    ensures GenericCode(t, a) == GenericCode(t, b)
    decreases StdCount(a) + StdCount(b), Depth(a) + Depth(b), 0
  {
    match a
    case StdError(cat, v) =>
      if !(b.StdError? && b.category == cat) {
        SameGenericOnClass(t, Unwrapped(t, cat, v).value, b);
      }
    case Nested(p) => DirectMatchSound(t, p, b);
    case _ => PlainMatchSound(t, a, b);
  }

  lemma MatchesGenericOnClass(t: Tables, a: Code, o: Code)
    requires Canonical(t, a) && Canonical(t, o)
    ensures MatchesGenericOf(t, a, o) <==> GenericCode(t, a) == GenericCode(t, o)
  {
    QueryIsClaim(t, a, GenericCode(t, o));
    ClaimsOnlyGenericCodeIff(t, a);
  }

  /** On the canonical class, `equivalent()` compares generic codes. */
  lemma {:induction false} SameGenericOnClass(t: Tables, a: Code, b: Code)
    requires NtTablesAgree(t) && Canonical(t, a) && Canonical(t, b)
    ensures Equivalent(t, a, b) <==> GenericCode(t, a) == GenericCode(t, b)
    decreases StdCount(a) + StdCount(b), Depth(a) + Depth(b), 1
  {
    MatchesGenericOnClass(t, a, b);
    if DoEquivalent(t, a, b) { DirectMatchSound(t, a, b); }
    if DoEquivalent(t, b, a) { DirectMatchSound(t, b, a); }
    MatchesGenericOnClass(t, b, a);
  }

  ghost predicate ClassComparesGenericCodes(t: Tables) {
    forall a, b | Canonical(t, a) && Canonical(t, b) ::
      Equivalent(t, a, b) <==> GenericCode(t, a) == GenericCode(t, b)
  }

  /** ... and it does so exactly when the two NT tables agree. */
  lemma ClassTheorem(t: Tables)
    ensures ClassComparesGenericCodes(t) <==> NtTablesAgree(t)
  {
    if NtTablesAgree(t) {
      forall a, b | Canonical(t, a) && Canonical(t, b)
        ensures Equivalent(t, a, b) <==> GenericCode(t, a) == GenericCode(t, b)
      {
        SameGenericOnClass(t, a, b);
      }
    }
    if ClassComparesGenericCodes(t) {
      forall v: bv32 | Negative(v) && t.nt(v) != UNKNOWN && Win32ToErrno(t, t.ntWin32(v)) != UNKNOWN
        ensures t.nt(v) == Win32ToErrno(t, t.ntWin32(v))
      {
        var a, b := Nt(v), Win32(t.ntWin32(v));
        assert Canonical(t, a) && Canonical(t, b) && DoEquivalent(t, a, b);
        assert Equivalent(t, a, b);
      }
    }
  }

  ghost predicate EquivalenceOn(t: Tables, s: iset<Code>) {
    && (forall a | a in s :: Equivalent(t, a, a))
    && (forall a, b | a in s && b in s && Equivalent(t, a, b) :: Equivalent(t, b, a))
    && TransitiveOn(t, s)
  }

  ghost predicate TransitiveOn(t: Tables, s: iset<Code>) {
    forall a, b, c | a in s && b in s && c in s && Equivalent(t, a, b) && Equivalent(t, b, c) :: Equivalent(t, a, c)
  }

  lemma CanonicalCodesFormEquivalence(t: Tables)
    requires NtTablesAgree(t)
    ensures EquivalenceOn(t, iset c | Canonical(t, c))
  {
    ClassTheorem(t);
  }

  /** `std::error_code`s of the two standard categories, whose default condition keeps the value, are
      canonical and equal the generic code, and on POSIX the posix code, of that value. */
  lemma StandardErrorCodesAreCanonical(t: Tables, cat: Category, v: int)
    requires cat == GenericCategory || (cat == SystemCategory && t.platform.PosixLike?)
    requires t.condition(cat, v) == Condition(v, GenericCategory) || t.condition(cat, v) == Condition(v, cat)
    requires NtTablesAgree(t) && v != UNKNOWN
    ensures Canonical(t, StdError(cat, v)) && GenericCode(t, StdError(cat, v)) == v
    ensures Equivalent(t, StdError(cat, v), Generic(v)) && Equivalent(t, StdError(cat, v), Posix(v))
  {
    SameGenericOnClass(t, StdError(cat, v), Generic(v));
    SameGenericOnClass(t, StdError(cat, v), Posix(v));
  }

  predicate CanonicalStatus(t: Tables, x: StatusCode) { x.Holding? ==> Canonical(t, x.code) }

  /** So `operator==` is an equivalence relation on empty and canonical status codes together. */
  lemma SameIsAnEquivalence(t: Tables, x: StatusCode, y: StatusCode, z: StatusCode)
    requires NtTablesAgree(t) && CanonicalStatus(t, x) && CanonicalStatus(t, y) && CanonicalStatus(t, z)
    ensures Same(t, x, x) && (Same(t, x, y) ==> Same(t, y, x))
    ensures Same(t, x, y) && Same(t, y, z) ==> Same(t, x, z)
  {
    if x.Holding? { SameGenericOnClass(t, x.code, x.code); }
    if x.Holding? && y.Holding? {
      SameGenericOnClass(t, x.code, y.code);
      SameGenericOnClass(t, y.code, x.code);
    }
    if y.Holding? && z.Holding? { SameGenericOnClass(t, y.code, z.code); }
    if x.Holding? && z.Holding? { SameGenericOnClass(t, x.code, z.code); }
  }

  // ---------------------------------------------- when it is transitive at all

  lemma SymmetricAlways(t: Tables, a: Code, b: Code)
    ensures Equivalent(t, a, b) == Equivalent(t, b, a)
  {}

  /** A known generic code is always equivalent to the code it came from. */
  lemma EquivalentToOwnGeneric(t: Tables, c: Code)
    requires Known(t, c)
    ensures Equivalent(t, c, Generic(GenericCode(t, c)))
  {
    EquivalentToErrc(t, c, GenericCode(t, c));
  }

  // The strict queries without their recursion: what nesting forwards to, and what a wrapped
  // `std::error_code` finds when it calls back into `==`.

  function Core(c: Code): (r: Code)
    ensures !r.Nested?
  {
    if c.Nested? then Core(c.payload) else c
  }

  /** The code whose domain answers for `c`: the innermost one, and the generic, posix or win32 code a
      wrapped `std::error_code` stands for. */
  function Answers(t: Tables, c: Code): (r: Option<Code>)
    ensures r.Some? ==> !r.value.StdError? && !r.value.Nested?
  {
    match Core(c)
    case StdError(cat, v) => Unwrapped(t, cat, v)
    case p => Some(p)
  }

  predicate Asks(t: Tables, a: Code, b: Code) {
    var p := Answers(t, a);
    p.Some? && PlainEquivalent(t, p.value, b)
  }

  /** Equivalence of a generic, posix or win32 code with any code, on values and tables alone. */
  predicate StandsFor(t: Tables, u: Code, b: Code)
    requires !u.StdError? && !u.Nested?
  {
    || Asks(t, u, b)
    || Asks(t, b, u)
    || (Known(t, b) && Claims(t, u, GenericCode(t, b)))
    || (Known(t, u) && Claims(t, b, GenericCode(t, u)))
    || (Core(b).StdError? && Answers(t, b).Some? && (
          || Asks(t, u, Answers(t, b).value)
          || (Known(t, Answers(t, b).value) && GenericCode(t, Answers(t, b).value) == GenericCode(t, u))))
  }

  predicate StrictMatch(t: Tables, a: Code, b: Code) {
    var c := Core(a);
    if c.StdError? then
      if b.StdError? && b.category == c.category then c.value == b.value
      else Answers(t, a).Some? && StandsFor(t, Answers(t, a).value, b)
    else PlainEquivalent(t, c, b)
  }

  lemma {:induction false} QueryReachesCore(t: Tables, a: Code, b: Code)
    ensures DoEquivalent(t, a, b) == DoEquivalent(t, Core(a), b)
  {
    if a.Nested? { QueryReachesCore(t, a.payload, b); }
  }

  lemma StandsForIsEquivalent(t: Tables, u: Code, b: Code)
    requires u.Generic? || u.Posix? || u.Win32?
    ensures StandsFor(t, u, b) <==> Equivalent(t, u, b)
  {
    QueryReachesCore(t, b, u);
    QueryIsClaim(t, u, GenericCode(t, b));
    QueryIsClaim(t, b, GenericCode(t, u));
    if Core(b).StdError? && Answers(t, b).Some? {
      var w := Answers(t, b).value;
      QueryIsClaim(t, u, GenericCode(t, w));
      QueryIsClaim(t, w, GenericCode(t, u));
      assert DoEquivalent(t, b, u) == Equivalent(t, w, u);
      assert DoEquivalent(t, w, u) == PlainEquivalent(t, w, u);
      assert DoEquivalent(t, u, w) == PlainEquivalent(t, u, w);
      assert Equivalent(t, w, u) <==>
        PlainEquivalent(t, w, u) || PlainEquivalent(t, u, w) || (Known(t, w) && GenericCode(t, w) == GenericCode(t, u));
    }
    assert DoEquivalent(t, u, b) == Asks(t, u, b);
  }

  /** A strict query, however deep it goes, is decided by the two values and the tables. */
  lemma StrictQueryIsMatch(t: Tables, a: Code, b: Code)
    ensures DoEquivalent(t, a, b) <==> StrictMatch(t, a, b)
  {
    QueryReachesCore(t, a, b);
    if Core(a).StdError? && Answers(t, a).Some? { StandsForIsEquivalent(t, Answers(t, a).value, b); }
  }

  /** `equivalent()` on values and tables alone: a strict match either way, or a known generic code that
      the other domain claims. */
  predicate Meet(t: Tables, a: Code, b: Code) {
    || StrictMatch(t, a, b)
    || StrictMatch(t, b, a)
    || (Known(t, b) && Claims(t, a, GenericCode(t, b)))
    || (Known(t, a) && Claims(t, b, GenericCode(t, a)))
  }

  lemma MeetIsEquivalent(t: Tables, a: Code, b: Code)
    ensures Equivalent(t, a, b) <==> Meet(t, a, b)
  {
    QueryIsClaim(t, a, GenericCode(t, b));
    QueryIsClaim(t, b, GenericCode(t, a));
    StrictQueryIsMatch(t, a, b);
    StrictQueryIsMatch(t, b, a);
  }

  /** An errc the code is equivalent to, if there is any: its generic code when that is known or
      claimed, otherwise what a wrapped `std::error_code` stands for. */
  function Key(t: Tables, c: Code): Option<Errc> {
    var g := GenericCode(t, c);
    if g != UNKNOWN || Claims(t, c, UNKNOWN) then Some(g)
    else if Core(c).StdError? && Answers(t, c).Some? then Some(GenericCode(t, Answers(t, c).value))
    else None
  }

  lemma {:induction false} CoreAnswersAlike(t: Tables, c: Code, e: Errc)
    ensures Claims(t, c, e) == Claims(t, Core(c), e) && GenericCode(t, c) == GenericCode(t, Core(c))
    ensures Key(t, c) == Key(t, Core(c))
  {
    if c.Nested? {
      CoreAnswersAlike(t, c.payload, e);
      CoreAnswersAlike(t, c.payload, UNKNOWN);
    }
  }

  lemma KeylessClaimsNothing(t: Tables, c: Code, e: Errc)
    requires Key(t, c).None?
    ensures !Claims(t, c, e)
  {
    CoreAnswersAlike(t, c, e);
    CoreAnswersAlike(t, c, UNKNOWN);
    if Core(c).Quick? {
      var row := FindMapping(t.quick(Core(c).table), Core(c).enum);
      if row.Some? && row.value.codes != [] { assert row.value.codes[0] in row.value.codes; }
    }
    if Core(c).Com? { ZeroHasNoFacility(); }
  }

  /** A code with a key is equivalent to that errc; one without is equivalent to no errc at all. */
  lemma KeyMeans(t: Tables, c: Code, e: Errc)
    ensures Key(t, c).Some? ==> Equivalent(t, c, Generic(Key(t, c).value))
    ensures Key(t, c).None? ==> !Equivalent(t, c, Generic(e))
    ensures InClass(t, c) ==> Key(t, c) == Some(GenericCode(t, c))
  {
    EquivalentToErrc(t, c, e);
    ClaimsOnlyGenericCodeIff(t, c);
    if Key(t, c).Some? {
      EquivalentToErrc(t, c, Key(t, c).value);
      CoreAnswersAlike(t, c, Key(t, c).value);
    } else {
      KeylessClaimsNothing(t, c, e);
    }
  }

  /** A keyless code's domain matches that very code and nothing else. */
  lemma KeylessStrictMatch(t: Tables, a: Code, b: Code)
    requires Key(t, a).None?
    ensures StrictMatch(t, a, b) <==> b == Core(a)
  {
    CoreAnswersAlike(t, a, UNKNOWN);
    var c := Core(a);
    KeylessClaimsNothing(t, c, if b.Generic? then b.ec else UNKNOWN);
    if c.Com? { ZeroHasNoFacility(); }
  }

  /** No other domain's strict query reaches a keyless code. */
  lemma KeylessIsMatchedByItself(t: Tables, a: Code, b: Code)
    requires Key(t, a).None? && StrictMatch(t, b, a)
    ensures a == Core(b)
  {
    CoreAnswersAlike(t, a, UNKNOWN);
    if Key(t, b).None? {
      KeylessStrictMatch(t, b, a);
    } else {
      CoreAnswersAlike(t, b, UNKNOWN);
      KeyedNeverStandsFor(t, b, a);
    }
  }

  lemma KeyedNeverStandsFor(t: Tables, b: Code, a: Code)
    requires Key(t, a).None? && Key(t, b).Some?
    ensures !StrictMatch(t, b, a)
  {
    CoreAnswersAlike(t, a, UNKNOWN);
    CoreAnswersAlike(t, b, UNKNOWN);
    var c := Core(b);
    if c.StdError? && Answers(t, b).Some? {
      var u := Answers(t, b).value;
      KeylessClaimsNothing(t, a, GenericCode(t, u));
      KeylessAskedByPlain(t, u, a);
      KeylessStrictMatch(t, a, u);
      assert !(a.StdError? && a.category == c.category && c.value == a.value);
      assert !Asks(t, a, u);
    } else if !c.StdError? {
      KeylessAskedByPlain(t, c, a);
    }
  }

  lemma KeylessAskedByPlain(t: Tables, u: Code, a: Code)
    requires Key(t, a).None? && Key(t, u).Some? && !u.StdError? && !u.Nested?
    ensures !PlainEquivalent(t, u, a)
  {
    if u.Com? && !a.Com? { ZeroHasNoFacility(); }
  }

  /** So a keyless code is equivalent to its core and to what wraps it, and never one wrapping to
      another, nor to itself when wrapped. */
  lemma KeylessMeets(t: Tables, a: Code, b: Code)
    requires Key(t, a).None?
    ensures Equivalent(t, a, b) <==> b == Core(a) || a == Core(b)
  {
    MeetIsEquivalent(t, a, b);
    KeylessStrictMatch(t, a, b);
    KeylessClaimsNothing(t, a, GenericCode(t, b));
    CoreAnswersAlike(t, a, UNKNOWN);
    CoreAnswersAlike(t, b, UNKNOWN);
    if StrictMatch(t, b, a) { KeylessIsMatchedByItself(t, a, b); }
    if a == Core(b) { KeylessStrictMatch(t, b, a); }
  }

  /** Two codes with keys compare as their keys do. */
  predicate PairAgrees(t: Tables, a: Code, b: Code) { Meet(t, a, b) <==> Key(t, a) == Key(t, b) }

  /** A family with the errc of each of its codes that has one. */
  ghost predicate ClosedUnderKey(t: Tables, s: iset<Code>) {
    forall c | c in s && Key(t, c).Some? :: Generic(Key(t, c).value) in s
  }

  ghost predicate KeyedPairsAgree(t: Tables, s: iset<Code>) {
    forall a, b | a in s && b in s && Key(t, a).Some? && Key(t, b).Some? :: PairAgrees(t, a, b)
  }

  /** No code without a key stands in the family beside a wrapping of it. */
  ghost predicate KeylessUnwrapped(t: Tables, s: iset<Code>) {
    forall c | c in s && c.Nested? && Key(t, c).None? :: Core(c) !in s
  }

  /** On any family of codes, closed under their errc, `equivalent()` is transitive exactly when codes
      with a key compare as their keys and no keyless code is there both wrapped and unwrapped:
      conditions on the values and the tables. */
  lemma TransitiveIff(t: Tables, s: iset<Code>)
    requires ClosedUnderKey(t, s)
    ensures TransitiveOn(t, s) <==> KeyedPairsAgree(t, s) && KeylessUnwrapped(t, s)
  {
    if TransitiveOn(t, s) {
      forall a, b | a in s && b in s && Key(t, a).Some? && Key(t, b).Some? ensures PairAgrees(t, a, b) {
        TransitivityForces(t, s, a, b);
      }
      forall c | c in s && c.Nested? && Key(t, c).None? ensures Core(c) !in s {
        KeylessMeets(t, c, c);
        KeylessMeets(t, c, Core(c));
        SymmetricAlways(t, c, Core(c));
      }
    }
    if KeyedPairsAgree(t, s) && KeylessUnwrapped(t, s) {
      forall a, b, c | a in s && b in s && c in s && Equivalent(t, a, b) && Equivalent(t, b, c)
        ensures Equivalent(t, a, c)
      {
        AgreementSuffices(t, s, a, b, c);
      }
    }
  }

  lemma TransitivityForces(t: Tables, s: iset<Code>, a: Code, b: Code)
    requires ClosedUnderKey(t, s) && TransitiveOn(t, s) && a in s && b in s
    requires Key(t, a).Some? && Key(t, b).Some?
    ensures PairAgrees(t, a, b)
  {
    var ka, kb := Generic(Key(t, a).value), Generic(Key(t, b).value);
    KeyMeans(t, a, UNKNOWN);
    KeyMeans(t, b, UNKNOWN);
    SymmetricAlways(t, a, ka);
    SymmetricAlways(t, b, kb);
    if Equivalent(t, a, b) {
      assert Equivalent(t, a, kb);
      assert Equivalent(t, ka, kb);
      EquivalentToErrc(t, ka, kb.ec);
    }
    MeetIsEquivalent(t, a, b);
  }

  lemma KeylessMeetsKeyless(t: Tables, a: Code, b: Code)
    requires Equivalent(t, a, b)
    ensures Key(t, a).None? <==> Key(t, b).None?
  {
    CoreAnswersAlike(t, a, UNKNOWN);
    CoreAnswersAlike(t, b, UNKNOWN);
    SymmetricAlways(t, a, b);
    if Key(t, a).None? { KeylessMeets(t, a, b); }
    if Key(t, b).None? { KeylessMeets(t, b, a); }
  }

  lemma KeyedAgree(t: Tables, s: iset<Code>, a: Code, b: Code)
    requires KeyedPairsAgree(t, s) && a in s && b in s && Key(t, a).Some? && Key(t, b).Some?
    ensures Equivalent(t, a, b) <==> Key(t, a) == Key(t, b)
  {
    assert PairAgrees(t, a, b);
    MeetIsEquivalent(t, a, b);
  }

  lemma AgreementSuffices(t: Tables, s: iset<Code>, a: Code, b: Code, c: Code)
    requires KeyedPairsAgree(t, s) && KeylessUnwrapped(t, s)
    requires a in s && b in s && c in s && Equivalent(t, a, b) && Equivalent(t, b, c)
    ensures Equivalent(t, a, c)
  {
    KeylessMeetsKeyless(t, a, b);
    KeylessMeetsKeyless(t, b, c);
    if Key(t, b).None? {
      SymmetricAlways(t, a, b);
      KeylessMeets(t, b, a);
      KeylessMeets(t, b, c);
    } else {
      KeyedAgree(t, s, a, b);
      KeyedAgree(t, s, b, c);
      KeyedAgree(t, s, a, c);
    }
  }

  // ------------------------------------------------------------- where it is not

  /** http 404 and 410 both equal ENOENT and differ from each other. */
  lemma HttpIsNotTransitive(t: Tables)
    ensures Equivalent(t, Http(404), Generic(ENOENT)) && Equivalent(t, Generic(ENOENT), Http(410))
    ensures !Equivalent(t, Http(404), Http(410))
  {
    EquivalentToErrc(t, Http(404), ENOENT);
    EquivalentToErrc(t, Http(410), ENOENT);
    SymmetricAlways(t, Http(410), Generic(ENOENT));
    QueryIsClaim(t, Http(404), ENOENT);
    QueryIsClaim(t, Http(410), ENOENT);
  }

  /** Any two distinct win32 values without a mapping both equal `errc::unknown`, not each other. */
  lemma UnmappedWin32IsNotTransitive(t: Tables, x: bv32, y: bv32)
    requires x != y && Win32ToErrno(t, x) == UNKNOWN && Win32ToErrno(t, y) == UNKNOWN
    ensures Equivalent(t, Win32(x), Generic(UNKNOWN)) && Equivalent(t, Generic(UNKNOWN), Win32(y))
    ensures !Equivalent(t, Win32(x), Win32(y))
  {
    EquivalentToErrc(t, Win32(x), UNKNOWN);
    EquivalentToErrc(t, Win32(y), UNKNOWN);
    SymmetricAlways(t, Win32(y), Generic(UNKNOWN));
  }

  /** An NT status with no errno of its own equals the win32 code it translates to, which equals
      its errno, which the NT status does not equal: 0xc0000003, 0x57 and EINVAL in the tables. */
  lemma UnmappedNtIsNotTransitive(t: Tables, v: bv32)
    requires Negative(v) && t.nt(v) == UNKNOWN && Win32ToErrno(t, t.ntWin32(v)) != UNKNOWN
    ensures var w := t.ntWin32(v);
      && Equivalent(t, Nt(v), Win32(w))
      && Equivalent(t, Win32(w), Generic(Win32ToErrno(t, w)))
      && !Equivalent(t, Nt(v), Generic(Win32ToErrno(t, w)))
  {
    var w := t.ntWin32(v);
    EquivalentToErrc(t, Win32(w), Win32ToErrno(t, w));
    EquivalentToErrc(t, Nt(v), Win32ToErrno(t, w));
    assert DoEquivalent(t, Nt(v), Win32(w));
  }

  // ---------------------------------------------------------------- wrapping

  /** What `make_nested_status_code` can hold: a code whose domain is default constructible and
      is not itself an indirecting one. */
  predicate Nestable(c: Code) { !c.StdError? && !c.Nested? }

  predicate Buildable(c: Code) { c.Nested? ==> Nestable(c.payload) }

  /** A code equals itself, unless it is nested and its domain does not claim its generic code. */
  lemma ReflexiveIff(t: Tables, c: Code)
    requires Buildable(c)
    ensures Equivalent(t, c, c) <==> c.Nested? ==> Known(t, c) && Claims(t, c, GenericCode(t, c))
  {
    if c.Nested? {
      assert !PlainEquivalent(t, c.payload, c);
      assert DoEquivalent(t, c, c) == DoEquivalent(t, c.payload, c);
      QueryIsClaim(t, c, GenericCode(t, c));
      assert Equivalent(t, c, c) <==> MatchesGenericOf(t, c, c);
    } else {
      assert DoEquivalent(t, c, c);
    }
  }

  /** Wrapping hides a code from other domains' direct matches and changes nothing else: the answer
      survives unless only the other operand's strict query said yes. */
  lemma WrappingLosesOnlyForeignMatches(t: Tables, c: Code, x: Code)
    requires Nestable(x)
    ensures Equivalent(t, Nested(c), x) ==> Equivalent(t, c, x)
    ensures Equivalent(t, Nested(c), x) == Equivalent(t, c, x)
      <==> (DoEquivalent(t, x, c)
            ==> DoEquivalent(t, c, x) || MatchesGenericOf(t, c, x) || MatchesGenericOf(t, x, c))
  {
    assert !DoEquivalent(t, x, Nested(c));
    assert DoEquivalent(t, Nested(c), x) == DoEquivalent(t, c, x);
    assert MatchesGenericOf(t, Nested(c), x) == MatchesGenericOf(t, c, x);
    assert MatchesGenericOf(t, x, Nested(c)) == MatchesGenericOf(t, x, c);
  }

  /** Two wrapped codes never match directly: only what the inner domains say of each other's generic
      codes is left, and each wrapping can only lose an equivalence. */
  lemma WrappingBothLeavesGenericQueries(t: Tables, c: Code, q: Code)
    requires Nestable(c) && Nestable(q)
    ensures Equivalent(t, Nested(c), Nested(q)) <==> MatchesGenericOf(t, c, q) || MatchesGenericOf(t, q, c)
    ensures Equivalent(t, Nested(c), Nested(q)) ==> Equivalent(t, c, Nested(q))
    ensures Equivalent(t, c, Nested(q)) ==> Equivalent(t, c, q)
  {
    assert !PlainEquivalent(t, c, Nested(q)) && !PlainEquivalent(t, q, Nested(c));
    assert MatchesGenericOf(t, Nested(c), Nested(q)) == MatchesGenericOf(t, c, q);
    assert MatchesGenericOf(t, Nested(q), Nested(c)) == MatchesGenericOf(t, q, c);
    assert DoEquivalent(t, Nested(c), Nested(q)) == DoEquivalent(t, c, Nested(q)) == PlainEquivalent(t, c, Nested(q));
    assert DoEquivalent(t, Nested(q), Nested(c)) == DoEquivalent(t, q, Nested(c)) == PlainEquivalent(t, q, Nested(c));
    WrappingLosesOnlyForeignMatches(t, q, c);
    SymmetricAlways(t, c, q);
    SymmetricAlways(t, c, Nested(q));
  }

  /** Against a wrapped `std::error_code`, which is compared once more as the code it stands for, the
      queries left are those in which the wrapped code's own domain or a generic code decides. */
  lemma WrappingAgainstStdError(t: Tables, c: Code, x: Code)
    requires Nestable(c) && x.StdError?
    ensures var u := Unwrapped(t, x.category, x.value);
      var kept := DoEquivalent(t, c, x) || MatchesGenericOf(t, c, x) || MatchesGenericOf(t, x, c)
        || (u.Some? && DoEquivalent(t, c, u.value))
        || (u.Some? && (MatchesGenericOf(t, c, u.value) || MatchesGenericOf(t, u.value, c)));
      && (Equivalent(t, Nested(c), x) <==> kept)
      && (Equivalent(t, c, x) <==> kept || (u.Some? && PlainEquivalent(t, u.value, c)))
  {
    var u := Unwrapped(t, x.category, x.value);
    assert DoEquivalent(t, Nested(c), x) == DoEquivalent(t, c, x);
    assert MatchesGenericOf(t, Nested(c), x) == MatchesGenericOf(t, c, x);
    assert MatchesGenericOf(t, x, Nested(c)) == MatchesGenericOf(t, x, c);
    if u.Some? {
      assert MatchesGenericOf(t, Nested(c), u.value) == MatchesGenericOf(t, c, u.value);
      assert MatchesGenericOf(t, u.value, Nested(c)) == MatchesGenericOf(t, u.value, c);
      assert DoEquivalent(t, u.value, c) == PlainEquivalent(t, u.value, c);
      assert DoEquivalent(t, Nested(c), u.value) == DoEquivalent(t, c, u.value);
      assert !DoEquivalent(t, u.value, Nested(c));
      assert DoEquivalent(t, x, c) == Equivalent(t, u.value, c);
      assert DoEquivalent(t, x, Nested(c)) == Equivalent(t, u.value, Nested(c));
    }
  }

  /** So two wrapped HTTP 404s, equal before wrapping, are not. */
  lemma WrappedHttpCodesDiffer(t: Tables)
    ensures Equivalent(t, Http(404), Http(404)) && !Equivalent(t, Nested(Http(404)), Nested(Http(404)))
  {
    WrappingBothLeavesGenericQueries(t, Http(404), Http(404));
    assert DoEquivalent(t, Http(404), Http(404));
    QueryIsClaim(t, Http(404), ENOENT);
  }

  /** On the canonical class wrapping either operand, or both, changes no answer. */
  lemma WrappingPreserves(t: Tables, c: Code, x: Code)
    requires NtTablesAgree(t) && Canonical(t, c) && Canonical(t, x)
    ensures Equivalent(t, Nested(c), x) == Equivalent(t, c, x)
    ensures Equivalent(t, Nested(c), Nested(x)) == Equivalent(t, c, x)
    ensures DoFailure(t, Nested(c)) == DoFailure(t, c)
  {
    SameGenericOnClass(t, c, x);
    SameGenericOnClass(t, Nested(c), x);
    SameGenericOnClass(t, Nested(c), Nested(x));
  }

  // ----------------------------------------------------------------- success

  /** Success agrees with being equivalent to `errc::success`. */
  predicate SuccessLaw(t: Tables, c: Code) { !DoFailure(t, c) <==> Equivalent(t, c, Generic(SUCCESS)) }

  /** No table maps an error to success. */
  ghost predicate ErrorsStayErrors(t: Tables) {
    && (forall v: bv32 :: v != 0 ==> t.win32(v) != SUCCESS)
    && (forall v: bv32 :: Negative(v) ==> t.nt(v) != SUCCESS)
  }

  predicate SuccessAligned(t: Tables, c: Code) {
    match c
    case Com(v) =>
      || v == 0
      || HasNtBit(v)
      || (Negative(v) <==> (Facility(v) == FACILITY_WIN32 ==> CodePart(v) != 0))
    case Http(v) => v >= 400
    case StdError(cat, v) =>
      var u := Unwrapped(t, cat, v);
      v == 0 <==> GenericCode(t, c) == SUCCESS || (u.Some? && GenericCode(t, u.value) == SUCCESS)
    case Nested(p) => SuccessAligned(t, p)
    case _ => true
  }

  lemma NtBitKeepsSign(v: bv32)
    ensures Negative(WithoutNtBit(v)) == Negative(v)
  {}

  lemma {:induction false} SuccessLawIff(t: Tables, c: Code)
    requires ErrorsStayErrors(t)
    ensures SuccessLaw(t, c) <==> SuccessAligned(t, c)
  {
    EquivalentToErrc(t, c, SUCCESS);
    match c
    case Com(v) => NtBitKeepsSign(v); ZeroHasNoFacility();
    case Nested(p) =>
      SuccessLawIff(t, p);
      EquivalentToErrc(t, p, SUCCESS);
    case _ =>
  }

  /** 0x80070000 is a failure and equivalent to success; S_FALSE is a success and equivalent to
      nothing. */
  lemma ComBreaksSuccessLaw(t: Tables)
    ensures DoFailure(t, Com(0x8007_0000)) && Equivalent(t, Com(0x8007_0000), Generic(SUCCESS))
    ensures !DoFailure(t, Com(1)) && !Equivalent(t, Com(1), Generic(SUCCESS))
  {
    assert Facility(0x8007_0000) == FACILITY_WIN32 && !HasNtBit(0x8007_0000) && CodePart(0x8007_0000) == 0;
    assert Facility(1) == 0 && !HasNtBit(1);
    EquivalentToErrc(t, Com(0x8007_0000), SUCCESS);
    EquivalentToErrc(t, Com(1), SUCCESS);
  }
}
