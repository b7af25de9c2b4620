/** Fetching a Windows message: convert to UTF-8 into a scratch buffer that grows by a quarter while
    the system says it is too small, then trim the line end.  The system's conversion and the
    allocator's failures are oracles. */
module MessageBuffer {
  import opened Codes

  const ENOMEM: Errc := 12
  const EILSEQ: Errc := 84

  /** What converting the wide message and its terminator comes to. */
  datatype Conversion = Converts(bytes: string) | Unconvertible

  /** What the caller gets: the text; the literal "failed to get message from system" with an errno, or
      with errcode still 0 when the reference's own allocation failed; or nothing, the trimming loop
      having read before its buffer. */
  datatype Message = Text(text: string) | Failed(errcode: Errc) | Unreferenced | BeforeBuffer

  function FirstSize(wlen: nat): nat { wlen + wlen / 2 }

  function Grow(size: nat): nat { size + size / 4 }

  function Grown(size: nat, rounds: nat): nat
    decreases rounds
  {
    if rounds == 0 then size else Grown(Grow(size), rounds - 1)
  }

  // ------------------------------------------------------------------ growth

  lemma {:induction false} StuckBelowFour(size: nat, rounds: nat)
    requires size < 4
    ensures Grown(size, rounds) == size
    decreases rounds
  {
    if rounds > 0 { StuckBelowFour(size, rounds - 1); }
  }

  lemma {:induction false} ReachesFromFour(size: nat, rounds: nat)
    requires size >= 4
    ensures Grown(size, rounds) >= size + rounds
    decreases rounds
  {
    if rounds > 0 { ReachesFromFour(Grow(size), rounds - 1); }
  }

  ghost predicate SomeRoundFits(wlen: nat, need: nat) {
    exists rounds: nat :: Grown(FirstSize(wlen), rounds) >= need
  }

  /** The buffer grows to any need exactly when it starts with four bytes or more, which takes three
      wide characters; one or two characters must fit at once. */
  lemma GrowthReachesIff(wlen: nat, need: nat)
    ensures SomeRoundFits(wlen, need) <==> wlen >= 3 || need <= FirstSize(wlen)
  {
    if wlen >= 3 {
      ReachesFromFour(FirstSize(wlen), need);
    } else if need <= FirstSize(wlen) {
      assert Grown(FirstSize(wlen), 0) >= need;
    } else {
      forall rounds: nat ensures Grown(FirstSize(wlen), rounds) < need {
        StuckBelowFour(FirstSize(wlen), rounds);
      }
    }
  }

  /** A one-character message and its terminator never fit. */
  lemma OneCharacterNeverFits(need: nat)
    requires need >= 2
    ensures !SomeRoundFits(1, need)
  {
    GrowthReachesIff(1, need);
  }

  // ---------------------------------------------------------------- trimming

  predicate IsLineEnd(c: char) { c == '\n' || c == '\r' }

  function UpToNul(s: string): (t: string)
    ensures t <= s && '\0' !in t && (|t| == |s| || s[|t|] == '\0')
  {
    if s == [] || s[0] == '\0' then [] else [s[0]] + UpToNul(s[1..])
  }

  /** The text without the line ends at its end. */
  predicate IsTrimOf(r: string, s: string) {
    && r <= s
    && (r != [] ==> !IsLineEnd(r[|r| - 1]))
    && forall i | |r| <= i < |s| :: IsLineEnd(s[i])
  }

  lemma TrimIsUnique(r: string, q: string, s: string)
    requires IsTrimOf(r, s) && IsTrimOf(q, s)
    ensures r == q
  {
    assert r == s[..|r|] && q == s[..|q|];
  }

  /** The loop from `end`: where it stops, or none if it reads the character before the text. */
  function TrimFrom(s: string, end: nat): Option<nat>
    requires end <= |s|
  {
    if end == 0 then None
    else if IsLineEnd(s[end - 1]) then TrimFrom(s, end - 1)
    else Some(end)
  }

  /** Some character before the first terminator is not a line end. */
  predicate HasBody(s: string) { exists i | 0 <= i < |UpToNul(s)| :: !IsLineEnd(UpToNul(s)[i]) }

  lemma {:induction false} TrimFromMeans(s: string, end: nat)
    requires end <= |s|
    ensures TrimFrom(s, end).None? <==> forall i | 0 <= i < end :: IsLineEnd(s[i])
    ensures TrimFrom(s, end).Some? ==>
      var e := TrimFrom(s, end).value;
      0 < e <= end && !IsLineEnd(s[e - 1]) && forall i | e <= i < end :: IsLineEnd(s[i])
  {
    if end > 0 { TrimFromMeans(s, end - 1); }
  }

  /** The loop stays inside its buffer exactly when the text has a character that is no line end, and
      then it ends at the trimmed text. */
  lemma TrimStaysInsideIff(p: string)
    ensures var s := UpToNul(p); var e := TrimFrom(s, |s|);
      && (e.Some? <==> HasBody(p))
      && (e.Some? ==> 0 < e.value <= |s| && IsTrimOf(s[..e.value], s))
  {
    TrimFromMeans(UpToNul(p), |UpToNul(p)|);
  }

  /** A message that is only a line end is read before its first character. */
  lemma LineEndAloneReadsBeforeBuffer()
    ensures TrimFrom(UpToNul("\r\n\0"), |UpToNul("\r\n\0")|).None?
  {
    assert UpToNul("\r\n\0") == "\r\n" by {
      assert "\r\n\0"[1..][1..] == "\0" && "\r\n\0"[1..][0] == '\n';
    }
    TrimStaysInsideIff("\r\n\0");
  }

  /** Line feeds and carriage returns, by their codes. */
  predicate OnlyLineEnds(e: string) { forall i | 0 <= i < |e| :: e[i] as int == 10 || e[i] as int == 13 }

  /** A text that has no terminator and does not end in a line feed or carriage return. */
  predicate IsBody(b: string) {
    && b != []
    && b[|b| - 1] as int != 10 && b[|b| - 1] as int != 13
    && forall i | 0 <= i < |b| :: b[i] as int != 0
  }

  lemma {:induction false} UpToNulStops(s: string, rest: string)
    requires forall i | 0 <= i < |s| :: s[i] as int != 0
    ensures UpToNul(s + ['\0'] + rest) == s
  {
    if s != [] {
      UpToNulStops(s[1..], rest);
      assert (s + ['\0'] + rest)[1..] == s[1..] + ['\0'] + rest;
    }
  }

  lemma LineEndsByCode(c: char)
    ensures IsLineEnd(c) <==> c as int == 10 || c as int == 13
  {}

  /** Of a body, line ends, the terminator and whatever follows, exactly the body is left; with no body
      the loop reads before the text. */
  lemma TrimLeavesBody(b: string, e: string, rest: string)
    requires IsBody(b) || b == []
    requires OnlyLineEnds(e)
    ensures var p := b + e + ['\0'] + rest;
      && UpToNul(p) == b + e
      && TrimFrom(b + e, |b + e|) == (if b == [] then None else Some(|b|))
      && (HasBody(p) <==> b != [])
      && (forall text | b != [] && IsTrimOf(text, b + e) :: text == b)
  {
    var s := b + e;
    UpToNulStops(s, rest);
    assert s + ['\0'] + rest == b + e + ['\0'] + rest;
    TrimFromMeans(s, |s|);
    TrimStaysInsideIff(b + e + ['\0'] + rest);
    forall i | |b| <= i < |s| ensures IsLineEnd(s[i]) { LineEndsByCode(e[i - |b|]); }
    if b != [] {
      LineEndsByCode(b[|b| - 1]);
      assert s[|b| - 1] == b[|b| - 1];
      assert IsTrimOf(b, s);
      forall text | IsTrimOf(text, s) ensures text == b { TrimIsUnique(text, b, s); }
    }
  }

  // -------------------------------------------------------------------- loop

  /** The scratch buffers: the sizes asked for in order, and which of them are still allocated. */
  class Scratch {
    var sizes: seq<nat>
    var live: set<nat>
    var frees: nat

    constructor ()
      ensures sizes == [] && live == {} && frees == 0
    {
      sizes, live, frees := [], {}, 0;
    }

    method Malloc(size: nat, fails: bool) returns (p: Option<nat>)
      modifies this
      ensures p.None? <==> fails
      ensures frees == old(frees)
      ensures fails ==> sizes == old(sizes) && live == old(live)
      ensures !fails ==>
        p.value == |old(sizes)| && sizes == old(sizes) + [size] && live == old(live) + {p.value}
    {
      if fails {
        return None;
      }
      p := Some(|sizes|);
      sizes, live := sizes + [size], live + {|sizes|};
    }

    method Free(p: nat)
      requires p in live
      modifies this
      ensures sizes == old(sizes) && live == old(live) - {p} && frees == old(frees) + 1
    {
      live, frees := live - {p}, frees + 1;
    }
  }

  /** Every input on which the loop ends: with one or two characters that do not fit, only a failing
      allocation ends it. */
  ghost predicate Ends(wlen: nat, os: Conversion, mallocFails: nat -> bool) {
    || os.Unconvertible?
    || wlen == 0 || wlen >= 3 || |os.bytes| <= FirstSize(wlen)
    || exists k: nat :: mallocFails(k)
  }

  ghost function Rank(wlen: nat, need: nat, size: nat, tries: nat, failing: nat): int {
    if wlen >= 3 then need - size else failing - tries
  }

  /** Every size asked for is the next growth of the first, and all but the last were too small. */
  ghost predicate GrewWhileTooSmall(wlen: nat, os: Conversion, sizes: seq<nat>) {
    && (forall k | 0 <= k < |sizes| :: sizes[k] == Grown(FirstSize(wlen), k))
    && (forall k | 0 <= k < |sizes| - 1 :: os.Converts? && sizes[k] < |os.bytes|)
  }

  lemma GrowBelow(size: nat, need: nat)
    requires size < need
    ensures Grow(size) <= 5 * need / 4
  {}

  /** Growing only while too small, no buffer is larger than the first or 5/4 of the need. */
  lemma PeakBound(wlen: nat, os: Conversion, sizes: seq<nat>, k: nat)
    requires GrewWhileTooSmall(wlen, os, sizes) && k < |sizes|
    ensures sizes[k] <= FirstSize(wlen) || (os.Converts? && sizes[k] <= 5 * |os.bytes| / 4)
  {
    if k > 0 {
      GrownStep(FirstSize(wlen), k - 1);
      assert sizes[k] == Grow(sizes[k - 1]);
      GrowBelow(sizes[k - 1], |os.bytes|);
    }
  }

  predicate Converted(os: Conversion, sizes: seq<nat>) {
    sizes != [] && os.Converts? && |os.bytes| <= sizes[|sizes| - 1]
  }

  /** Between rounds: the sizes asked for were allocated and too small, and `allocation` is next. */
  ghost predicate Between(wlen: nat, os: Conversion, mallocFails: nat -> bool, sizes: seq<nat>, allocation: nat) {
    && GrewWhileTooSmall(wlen, os, sizes)
    && allocation == Grown(FirstSize(wlen), |sizes|)
    && (forall k | 0 <= k < |sizes| :: !mallocFails(k))
    && (sizes != [] ==> os.Converts? && sizes[|sizes| - 1] < |os.bytes| && FirstSize(wlen) < |os.bytes|)
    && (wlen >= 3 ==> allocation >= 4)
  }

  lemma RoundExtends(wlen: nat, os: Conversion, mallocFails: nat -> bool, sizes: seq<nat>, allocation: nat)
    requires Between(wlen, os, mallocFails, sizes, allocation)
    ensures GrewWhileTooSmall(wlen, os, sizes + [allocation])
    ensures !mallocFails(|sizes|) && os.Converts? && allocation < |os.bytes| ==>
      Between(wlen, os, mallocFails, sizes + [allocation], Grow(allocation))
  {
    GrownStep(FirstSize(wlen), |sizes|);
    if sizes == [] { assert allocation == FirstSize(wlen); }
  }

  ghost predicate FailsThereIfAnywhere(mallocFails: nat -> bool, failing: nat) {
    (exists k: nat :: mallocFails(k)) ==> mallocFails(failing)
  }

  lemma RankFalls(wlen: nat, os: Conversion, mallocFails: nat -> bool, sizes: seq<nat>, allocation: nat, failing: nat)
    requires Ends(wlen, os, mallocFails) && wlen != 0
    requires Between(wlen, os, mallocFails, sizes, allocation) && os.Converts? && allocation < |os.bytes|
    requires !mallocFails(|sizes|) && FailsThereIfAnywhere(mallocFails, failing)
    ensures 0 <= Rank(wlen, |os.bytes|, allocation, |sizes|, failing)
    ensures Rank(wlen, |os.bytes|, Grow(allocation), |sizes| + 1, failing)
      < Rank(wlen, |os.bytes|, allocation, |sizes|, failing)
  {
    if wlen < 3 {
      StuckBelowFour(FirstSize(wlen), |sizes|);
      assert mallocFails(failing);
    }
  }

  /** What becomes of converted bytes. */
  ghost predicate IsMessageOf(m: Message, bytes: string, refFails: bool) {
    if !HasBody(bytes) then m == BeforeBuffer
    else if refFails then m == Unreferenced
    else m.Text? && m.text != [] && IsTrimOf(m.text, UpToNul(bytes))
  }

  method MakeStringRef(wlen: nat, os: Conversion, mallocFails: nat -> bool, refFails: bool, scratch: Scratch)
      returns (m: Message)
    requires Ends(wlen, os, mallocFails)
    requires scratch.sizes == [] && scratch.live == {} && scratch.frees == 0
    modifies scratch
    ensures wlen == 0 ==> m == Failed(ENOENT)
    ensures wlen != 0 && Converted(os, scratch.sizes) ==> IsMessageOf(m, os.bytes, refFails)
    ensures wlen != 0 && !Converted(os, scratch.sizes) ==>
      m == Failed(if os.Unconvertible? && !mallocFails(0) then EILSEQ else ENOMEM)
    ensures m == Failed(ENOMEM) ==> mallocFails(|scratch.sizes|)
    ensures wlen != 0 && os.Converts? && (forall k: nat :: !mallocFails(k)) ==> Converted(os, scratch.sizes)
    ensures GrewWhileTooSmall(wlen, os, scratch.sizes)
    ensures scratch.sizes != [] ==> scratch.sizes[0] == wlen + wlen / 2
    ensures m != BeforeBuffer ==> scratch.live == {} && scratch.frees == |scratch.sizes|
  {
    var allocation: nat := FirstSize(wlen);
    if wlen == 0 {
      return Failed(ENOENT);
    }
    ghost var need := if os.Converts? then |os.bytes| else 0;
    ghost var failing: nat := 0;
    if k: nat :| mallocFails(k) { failing := k; }
    while true
      invariant scratch.live == {} && scratch.frees == |scratch.sizes|
      invariant Between(wlen, os, mallocFails, scratch.sizes, allocation)
      decreases Rank(wlen, need, allocation, |scratch.sizes|, failing)
    {
      ghost var before := scratch.sizes;
      RoundExtends(wlen, os, mallocFails, before, allocation);
      var p := scratch.Malloc(allocation, mallocFails(|scratch.sizes|));
      if p.None? {
        return Failed(ENOMEM);
      }
      if os.Converts? && allocation >= |os.bytes| {
        m := MakeReference(os.bytes, refFails);
        if m != BeforeBuffer {
          scratch.Free(p.value);
        }
        return m;
      }
      scratch.Free(p.value);
      if os.Unconvertible? {
        return Failed(EILSEQ);
      }
      RankFalls(wlen, os, mallocFails, before, allocation, failing);
      allocation := allocation + allocation / 4;
    }
  }

  /** So a message of a body and line ends arrives as its body, to the last character, or as the literal
      when its reference is not allocated; one of line ends alone is read before its start. */
  lemma MessageIsBody(m: Message, b: string, e: string, rest: string, refFails: bool)
    requires (IsBody(b) || b == []) && OnlyLineEnds(e)
    requires IsMessageOf(m, b + e + ['\0'] + rest, refFails)
    ensures m == if b == [] then BeforeBuffer else if refFails then Unreferenced else Text(b)
  {
    TrimLeavesBody(b, e, rest);
  }

  /** The converted bytes trimmed, then copied into a counted reference, which allocates for itself. */
  method MakeReference(bytes: string, refFails: bool) returns (m: Message)
    ensures IsMessageOf(m, bytes, refFails)
  {
    var text := Trim(bytes);
    TrimStaysInsideIff(bytes);
    return if text.None? then BeforeBuffer else if refFails then Unreferenced else Text(text.value);
  }

  lemma {:induction false} GrownStep(size: nat, rounds: nat)
    ensures Grown(size, rounds + 1) == Grow(Grown(size, rounds))
    decreases rounds
  {
    if rounds > 0 { GrownStep(Grow(size), rounds - 1); }
  }

  /** `strchr` for the terminator, then stepping back over line ends; none when that leaves the text. */
  method Trim(p: string) returns (text: Option<string>)
    ensures var s := UpToNul(p); var e := TrimFrom(s, |s|);
      text == if e.Some? && e.value <= |s| then Some(s[..e.value]) else None
    ensures text.None? <==> !HasBody(p)
    ensures text.Some? ==> text.value != [] && IsTrimOf(text.value, UpToNul(p))
  {
    TrimStaysInsideIff(p);
    var s := UpToNul(p);
    var end := |s|;
    while end > 0 && IsLineEnd(s[end - 1])
      invariant 0 <= end <= |s|
      invariant TrimFrom(s, end) == TrimFrom(s, |s|)
      decreases end
    {
      end := end - 1;
    }
    return if end == 0 then None else Some(s[..end]);
  }
}
