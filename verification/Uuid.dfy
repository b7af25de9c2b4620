/** Domain ids parsed from UUID text: the 16 hex digits of each half are the nibbles of two 64-bit
    words, least significant first, and the id is their exclusive or. */
module Uuid {
  import opened Codes

  /** The numeric value of a hexadecimal digit. */
  function HexValue(c: char): (v: Option<nat>)
    ensures v.Some? ==> v.value < 16
  {
    if '0' <= c <= '9' then Some(c as int - '0' as int)
    else if 'a' <= c <= 'f' then Some(10 + c as int - 'a' as int)
    else if 'A' <= c <= 'F' then Some(10 + c as int - 'A' as int)
    else None
  }

  const WORDS: seq<bv64> := [0, 1, 2, 3, 4, 5, 6, 7, 8, 9, 10, 11, 12, 13, 14, 15]

  /** `parse_hex_byte`, as a 64-bit word; any other character throws. */
  function HexDigit(c: char): (d: Option<bv64>)
    ensures d.Some? ==> d.value < 16
  {
    var v := HexValue(c);
    if v.Some? then Some(WORDS[v.value]) else None
  }

  /** Where the digits of the two halves stand; the characters between them are not looked at. */
  const FIRST: seq<nat> := [0, 1, 2, 3, 4, 5, 6, 7, 9, 10, 11, 12, 14, 15, 16, 17]
  const SECOND: seq<nat> := [19, 20, 21, 22, 24, 25, 26, 27, 28, 29, 30, 31, 32, 33, 34, 35]

  predicate DigitsAt(s: string, at: seq<nat>) {
    forall k | 0 <= k < |at| :: at[k] < |s| && HexDigit(s[at[k]]).Some?
  }

  function Digits(s: string, at: seq<nat>): (d: seq<bv64>)
    requires DigitsAt(s, at)
    ensures |d| == |at| && forall k | 0 <= k < |d| :: d[k] < 16
    ensures forall k | 0 <= k < |d| :: HexDigit(s[at[k]]) == Some(d[k])
  {
    seq(|at|, k requires 0 <= k < |at| => HexDigit(s[at[k]]).value)
  }

  function Word(d: seq<bv64>): bv64
    requires |d| == 16
  {
    (d[0] << 0) | (d[1] << 4) | (d[2] << 8) | (d[3] << 12) |
    (d[4] << 16) | (d[5] << 20) | (d[6] << 24) | (d[7] << 28) |
    (d[8] << 32) | (d[9] << 36) | (d[10] << 40) | (d[11] << 44) |
    (d[12] << 48) | (d[13] << 52) | (d[14] << 56) | (d[15] << 60)
  }

  function ParseAt(s: string, first: seq<nat>, second: seq<nat>): Option<bv64>
    requires |first| == |second| == 16
  {
    if DigitsAt(s, first) && DigitsAt(s, second) then
      Some(Word(Digits(s, first)) ^ Word(Digits(s, second)))
    else None
  }

  /** `parse_uuid2`. */
  function ParseUuid2(s: string): Option<bv64> {
    ParseAt(s, FIRST, SECOND)
  }

  /** The entry point for a literal, whose array length counts the terminator. */
  function ParseFromArray(s: string, n: nat): Option<bv64>
    requires |s| >= n - 1
  {
    if n == 37 then ParseUuid2(s) else if n == 39 then ParseUuid2(s[1..]) else None
  }

  /** The entry point for a pointer and a length without the terminator. */
  function ParseFromPointer(s: string, n: nat): Option<bv64>
    requires |s| >= n
  {
    if n == 36 then ParseUuid2(s) else if n == 38 then ParseUuid2(s[1..]) else None
  }

  /** The sixteen nibbles of a word, least significant first. */
  function Nibbles(x: bv64): (n: seq<bv64>)
    ensures |n| == 16
  {
    [x & 0xf, (x >> 4) & 0xf, (x >> 8) & 0xf, (x >> 12) & 0xf,
     (x >> 16) & 0xf, (x >> 20) & 0xf, (x >> 24) & 0xf, (x >> 28) & 0xf,
     (x >> 32) & 0xf, (x >> 36) & 0xf, (x >> 40) & 0xf, (x >> 44) & 0xf,
     (x >> 48) & 0xf, (x >> 52) & 0xf, (x >> 56) & 0xf, (x >> 60) & 0xf]
  }

  predicate AreDigits(d: seq<bv64>) { |d| == 16 && forall j | 0 <= j < 16 :: d[j] < 16 }

  function Xors(a: seq<bv64>, b: seq<bv64>): (x: seq<bv64>)
    requires |a| == |b|
    ensures |x| == |a| && forall k | 0 <= k < |a| :: x[k] == a[k] ^ b[k]
  {
    seq(|a|, k requires 0 <= k < |a| => a[k] ^ b[k])
  }

  lemma WordsXor(a: seq<bv64>, b: seq<bv64>, x: bv64)
    requires AreDigits(a) && AreDigits(b) && x == Word(a) ^ Word(b)
    ensures && (x >> 0) & 0xf == a[0] ^ b[0] && (x >> 4) & 0xf == a[1] ^ b[1]
      && (x >> 8) & 0xf == a[2] ^ b[2] && (x >> 12) & 0xf == a[3] ^ b[3]
      && (x >> 16) & 0xf == a[4] ^ b[4] && (x >> 20) & 0xf == a[5] ^ b[5]
      && (x >> 24) & 0xf == a[6] ^ b[6] && (x >> 28) & 0xf == a[7] ^ b[7]
      && (x >> 32) & 0xf == a[8] ^ b[8] && (x >> 36) & 0xf == a[9] ^ b[9]
      && (x >> 40) & 0xf == a[10] ^ b[10] && (x >> 44) & 0xf == a[11] ^ b[11]
      && (x >> 48) & 0xf == a[12] ^ b[12] && (x >> 52) & 0xf == a[13] ^ b[13]
      && (x >> 56) & 0xf == a[14] ^ b[14] && (x >> 60) & 0xf == a[15] ^ b[15]
  {}

  /** The nibbles of the exclusive or of two words are the exclusive ors of their digits. */
  lemma NibblesOfXor(a: seq<bv64>, b: seq<bv64>)
    requires AreDigits(a) && AreDigits(b)
    ensures Nibbles(Word(a) ^ Word(b)) == Xors(a, b)
  {
    var x := Word(a) ^ Word(b);
    WordsXor(a, b, x);
    NibblesAre(x, Xors(a, b));
  }

  lemma NibblesAre(x: bv64, y: seq<bv64>)
    requires |y| == 16
    requires (x >> 0) & 0xf == y[0] && (x >> 4) & 0xf == y[1] && (x >> 8) & 0xf == y[2] && (x >> 12) & 0xf == y[3]
        && (x >> 16) & 0xf == y[4] && (x >> 20) & 0xf == y[5] && (x >> 24) & 0xf == y[6] && (x >> 28) & 0xf == y[7]
        && (x >> 32) & 0xf == y[8] && (x >> 36) & 0xf == y[9] && (x >> 40) & 0xf == y[10] && (x >> 44) & 0xf == y[11]
        && (x >> 48) & 0xf == y[12] && (x >> 52) & 0xf == y[13] && (x >> 56) & 0xf == y[14] && (x >> 60) & 0xf == y[15]
    ensures Nibbles(x) == y
  {
    var n := Nibbles(x);
    assert n == [n[0], n[1], n[2], n[3], n[4], n[5], n[6], n[7], n[8], n[9], n[10], n[11], n[12], n[13], n[14], n[15]];
    assert y == [y[0], y[1], y[2], y[3], y[4], y[5], y[6], y[7], y[8], y[9], y[10], y[11], y[12], y[13], y[14], y[15]];
  }

  lemma NibblesDetermine(x: bv64, y: bv64)
    requires Nibbles(x) == Nibbles(y)
    ensures x == y
  {
    var n, m := Nibbles(x), Nibbles(y);
    assert n[0] == m[0] && n[1] == m[1] && n[2] == m[2] && n[3] == m[3];
    assert n[4] == m[4] && n[5] == m[5] && n[6] == m[6] && n[7] == m[7];
    assert n[8] == m[8] && n[9] == m[9] && n[10] == m[10] && n[11] == m[11];
    assert n[12] == m[12] && n[13] == m[13] && n[14] == m[14] && n[15] == m[15];
  }

  /** Nibble k of the id is digit k of the first half exclusive-or digit k of the second. */
  lemma IdNibbles(s: string)
    requires ParseUuid2(s).Some?
    ensures Nibbles(ParseUuid2(s).value) == Xors(Digits(s, FIRST), Digits(s, SECOND))
  {
    NibblesOfXor(Digits(s, FIRST), Digits(s, SECOND));
  }

  /** Two texts have the same id exactly when they have the same exclusive or at every place. */
  lemma SameIdIff(s: string, t: string)
    requires ParseUuid2(s).Some? && ParseUuid2(t).Some?
    ensures ParseUuid2(s) == ParseUuid2(t)
      <==> Xors(Digits(s, FIRST), Digits(s, SECOND)) == Xors(Digits(t, FIRST), Digits(t, SECOND))
  {
    IdNibbles(s);
    IdNibbles(t);
    if Nibbles(ParseUuid2(s).value) == Nibbles(ParseUuid2(t).value) {
      NibblesDetermine(ParseUuid2(s).value, ParseUuid2(t).value);
    }
  }

  lemma XorCancelsRight(a: bv64, b: bv64, c: bv64)
    ensures a ^ c == b ^ c <==> a == b
  {}

  lemma XorCancelsLeft(a: bv64, b: bv64, c: bv64)
    ensures c ^ a == c ^ b <==> a == b
  {}

  lemma XorIsZero(a: bv64, b: bv64)
    ensures a ^ b == 0 <==> a == b
  {}

  lemma FirstHalfAt(a: seq<bv64>, b: seq<bv64>, c: seq<bv64>, k: nat)
    requires |a| == |b| == |c| && k < |a| && Xors(a, c)[k] == Xors(b, c)[k]
    ensures a[k] == b[k]
  {
    XorCancelsRight(a[k], b[k], c[k]);
  }

  lemma SecondHalfAt(a: seq<bv64>, b: seq<bv64>, c: seq<bv64>, k: nat)
    requires |a| == |b| == |c| && k < |a| && Xors(c, a)[k] == Xors(c, b)[k]
    ensures a[k] == b[k]
  {
    XorCancelsLeft(a[k], b[k], c[k]);
  }

  lemma HalfDetermines(a: seq<bv64>, b: seq<bv64>, c: seq<bv64>)
    requires |a| == |b| == |c|
    requires Xors(a, c) == Xors(b, c) || Xors(c, a) == Xors(c, b)
    ensures a == b
  {
    forall k | 0 <= k < |a| ensures a[k] == b[k] {
      if Xors(a, c) == Xors(b, c) { FirstHalfAt(a, b, c, k); } else { SecondHalfAt(a, b, c, k); }
    }
  }

  /** Among texts sharing one half, different other halves always mean different ids: so changing the
      value of any one digit changes the id. */
  lemma ChangingOneHalfChangesId(s: string, t: string)
    requires ParseUuid2(s).Some? && ParseUuid2(t).Some?
    ensures Digits(s, SECOND) == Digits(t, SECOND) ==>
      (ParseUuid2(s) == ParseUuid2(t) <==> Digits(s, FIRST) == Digits(t, FIRST))
    ensures Digits(s, FIRST) == Digits(t, FIRST) ==>
      (ParseUuid2(s) == ParseUuid2(t) <==> Digits(s, SECOND) == Digits(t, SECOND))
  {
    SameIdIff(s, t);
    if Digits(s, SECOND) == Digits(t, SECOND) && ParseUuid2(s) == ParseUuid2(t) {
      HalfDetermines(Digits(s, FIRST), Digits(t, FIRST), Digits(t, SECOND));
    }
    if Digits(s, FIRST) == Digits(t, FIRST) && ParseUuid2(s) == ParseUuid2(t) {
      HalfDetermines(Digits(s, SECOND), Digits(t, SECOND), Digits(t, FIRST));
    }
  }

  lemma XorsAreZero(a: seq<bv64>, b: seq<bv64>, zeros: seq<bv64>)
    requires |a| == |b| == |zeros| && forall k | 0 <= k < |zeros| :: zeros[k] == 0
    ensures Xors(a, b) == zeros <==> a == b
  {
    if Xors(a, b) == zeros {
      forall k | 0 <= k < |a| ensures a[k] == b[k] {
        assert Xors(a, b)[k] == zeros[k];
        XorIsZero(a[k], b[k]);
      }
    }
    if a == b {
      forall k | 0 <= k < |a| ensures Xors(a, b)[k] == zeros[k] { XorIsZero(a[k], b[k]); }
    }
  }

  lemma ZeroXorIff(a: seq<bv64>, b: seq<bv64>, x: bv64)
    requires AreDigits(a) && AreDigits(b) && Nibbles(x) == Xors(a, b)
    ensures x == 0 <==> a == b
  {
    NibblesOfZero();
    XorsAreZero(a, b, Nibbles(0));
    if a == b { NibblesDetermine(x, 0); }
  }

  lemma ZeroAtIff(s: string, first: seq<nat>, second: seq<nat>)
    requires |first| == |second| == 16 && ParseAt(s, first, second).Some?
    ensures ParseAt(s, first, second).value == 0 <==> Digits(s, first) == Digits(s, second)
  {
    var a, b := Digits(s, first), Digits(s, second);
    NibblesOfXor(a, b);
    ZeroXorIff(a, b, ParseAt(s, first, second).value);
  }

  /** The id is zero, which a domain must not use, exactly when the two halves spell the same digits. */
  lemma ZeroIdIff(s: string)
    requires ParseUuid2(s).Some?
    ensures ParseUuid2(s).value == 0 <==> Digits(s, FIRST) == Digits(s, SECOND)
  {
    ZeroAtIff(s, FIRST, SECOND);
  }

  lemma NibblesOfZero()
    ensures forall k | 0 <= k < 16 :: Nibbles(0)[k] == 0
  {}

  lemma SameDigits(s: string, at: seq<nat>, t: string, ut: seq<nat>)
    requires |at| == |ut|
    requires forall k | 0 <= k < |at| ::
      at[k] < |s| && ut[k] < |t| && HexValue(s[at[k]]) == HexValue(t[ut[k]])
    ensures DigitsAt(s, at) == DigitsAt(t, ut)
    ensures DigitsAt(s, at) ==> Digits(s, at) == Digits(t, ut)
  {
    forall k | 0 <= k < |at| ensures HexDigit(s[at[k]]) == HexDigit(t[ut[k]]) {
      assert HexValue(s[at[k]]) == HexValue(t[ut[k]]);
    }
  }

  /** Halves spelt alike make the id zero. */
  lemma HalvesAlike(s: string)
    requires |s| >= 36
    requires forall k | 0 <= k < 16 :: HexValue(s[FIRST[k]]).Some? && s[FIRST[k]] == s[SECOND[k]]
    ensures ParseUuid2(s) == Some(0)
  {
    SameDigits(s, FIRST, s, SECOND);
    ZeroIdIff(s);
  }

  const SELF_TEST := "430f1201-94fc-06c7-430f-120194fc06c7"

  lemma SelfTestFirstQuarter()
    ensures forall k | 0 <= k < 8 :: SELF_TEST[FIRST[k]] == SELF_TEST[SECOND[k]]
  {}

  lemma SelfTestSecondQuarter()
    ensures forall k | 8 <= k < 16 :: SELF_TEST[FIRST[k]] == SELF_TEST[SECOND[k]]
  {}

  lemma SelfTestIsHex()
    ensures forall k | 0 <= k < 16 :: HexValue(SELF_TEST[FIRST[k]]).Some?
  {}

  /** The header's own self-test text, which the test domain uses, has the id zero. */
  lemma SelfTestIdIsZero(s: string)
    requires s == SELF_TEST
    ensures ParseFromArray(s, 37) == Some(0)
  {
    SelfTestFirstQuarter();
    SelfTestSecondQuarter();
    SelfTestIsHex();
    HalvesAlike(s);
  }

  /** The values at two position tables decide what is parsed there. */
  lemma SameHalves(s: string, t: string, first: seq<nat>, second: seq<nat>)
    requires |first| == |second| == 16
    requires forall k | 0 <= k < 16 ::
      && first[k] < |s| && first[k] < |t| && HexValue(s[first[k]]) == HexValue(t[first[k]])
      && second[k] < |s| && second[k] < |t| && HexValue(s[second[k]]) == HexValue(t[second[k]])
    ensures ParseAt(s, first, second) == ParseAt(t, first, second)
  {
    SameDigits(s, first, t, first);
    SameDigits(s, second, t, second);
  }

  /** The id depends on nothing but the values of the 32 digits. */
  lemma IdDependsOnDigitValues(s: string, t: string)
    requires |s| >= 36 && |t| >= 36
    requires forall k | 0 <= k < 16 ::
      HexValue(s[FIRST[k]]) == HexValue(t[FIRST[k]]) && HexValue(s[SECOND[k]]) == HexValue(t[SECOND[k]])
    ensures ParseUuid2(s) == ParseUuid2(t)
  {
    SameHalves(s, t, FIRST, SECOND);
  }

  function Upper(c: char): char {
    if 'a' <= c <= 'z' then (c as int - 'a' as int + 'A' as int) as char else c
  }

  /** Letter case never matters. */
  lemma CaseNeverMatters(s: string, t: string)
    requires |s| == |t| >= 36 && forall i | 0 <= i < |s| :: Upper(s[i]) == Upper(t[i])
    ensures ParseUuid2(s) == ParseUuid2(t)
  {
    forall i | 0 <= i < |s| ensures HexValue(s[i]) == HexValue(t[i]) {
      assert HexValue(s[i]) == HexValue(Upper(s[i]));
      assert HexValue(t[i]) == HexValue(Upper(t[i]));
    }
    assert forall k | 0 <= k < 16 :: FIRST[k] < 36 && SECOND[k] < 36;
    IdDependsOnDigitValues(s, t);
  }

  /** Neither braces nor the choice of entry point matter. */
  lemma EntryPointsAgree(s: string)
    requires |s| == 36
    ensures var braced := "{" + s + "}";
      ParseFromArray(s, 37) == ParseFromPointer(s, 36) == ParseFromArray(braced, 39)
        == ParseFromPointer(braced, 38) == ParseUuid2(s)
  {
    var inner := ("{" + s + "}")[1..];
    assert forall i | 0 <= i < 36 :: inner[i] == s[i];
    assert forall k | 0 <= k < 16 :: FIRST[k] < 36 && SECOND[k] < 36;
    IdDependsOnDigitValues(inner, s);
  }

  // --------------------------------------------------------- on the characters

  /** The hexadecimal digits, in order, in both cases. */
  const LOWER_DIGITS := "0123456789abcdef"
  const UPPER_DIGITS := "0123456789ABCDEF"

  /** The character is the digit of this number. */
  predicate Spells(c: char, d: int) { 0 <= d < 16 && (c == LOWER_DIGITS[d] || c == UPPER_DIGITS[d]) }

  lemma HexValueSpells(c: char, d: nat)
    ensures HexValue(c) == Some(d) <==> Spells(c, d)
  {}

  lemma WordsInOrder(d: nat)
    requires d < 16
    ensures WORDS[d] as int == d
  {}

  /** A digit parses to the number it spells, and no other character parses. */
  lemma HexDigitSpells(c: char)
    ensures HexDigit(c).Some? ==> Spells(c, HexDigit(c).value as int)
    ensures forall d: nat :: Spells(c, d) ==> HexDigit(c) == Some(WORDS[d]) && WORDS[d] as int == d
  {
    var v := HexValue(c);
    if v.Some? {
      HexValueSpells(c, v.value);
      WordsInOrder(v.value);
    }
    forall d: nat | Spells(c, d) ensures HexDigit(c) == Some(WORDS[d]) && WORDS[d] as int == d {
      HexValueSpells(c, d);
      WordsInOrder(d);
    }
  }

  /** A UUID in its 8-4-4-4-12 form: each half has sixteen digits. */
  function Form(a: string, b: string): (s: string)
    requires |a| == |b| == 16
    ensures |s| == 36
  {
    a[..8] + "-" + a[8..12] + "-" + a[12..] + "-" + b[..4] + "-" + b[4..]
  }

  lemma FirstInForm(a: string, b: string, k: nat)
    requires |a| == |b| == 16 && k < 16
    ensures FIRST[k] < 36 && Form(a, b)[FIRST[k]] == a[k]
  {}

  lemma SecondInForm(a: string, b: string, k: nat)
    requires |a| == |b| == 16 && k < 16
    ensures SECOND[k] < 36 && Form(a, b)[SECOND[k]] == b[k]
  {}

  predicate AllHex(a: string) { forall k | 0 <= k < |a| :: HexDigit(a[k]).Some? }

  /** The numbers a half spells. */
  function DigitsOf(a: string): (d: seq<bv64>)
    requires AllHex(a)
    ensures |d| == |a| && forall k | 0 <= k < |d| :: HexDigit(a[k]) == Some(d[k])
  {
    seq(|a|, k requires 0 <= k < |a| => HexDigit(a[k]).value)
  }

  lemma DigitsOfForm(a: string, b: string)
    requires |a| == |b| == 16
    ensures DigitsAt(Form(a, b), FIRST) <==> AllHex(a)
    ensures DigitsAt(Form(a, b), SECOND) <==> AllHex(b)
    ensures AllHex(a) ==> Digits(Form(a, b), FIRST) == DigitsOf(a)
    ensures AllHex(b) ==> Digits(Form(a, b), SECOND) == DigitsOf(b)
  {
    HalfAt(Form(a, b), FIRST, a) by {
      forall k | 0 <= k < 16 ensures FIRST[k] < 36 && Form(a, b)[FIRST[k]] == a[k] { FirstInForm(a, b, k); }
    }
    HalfAt(Form(a, b), SECOND, b) by {
      forall k | 0 <= k < 16 ensures SECOND[k] < 36 && Form(a, b)[SECOND[k]] == b[k] { SecondInForm(a, b, k); }
    }
  }

  lemma HalfAt(s: string, at: seq<nat>, a: string)
    requires |at| == |a| && forall k | 0 <= k < |at| :: at[k] < |s| && s[at[k]] == a[k]
    ensures DigitsAt(s, at) <==> AllHex(a)
    ensures AllHex(a) ==> Digits(s, at) == DigitsOf(a)
  {
    if DigitsAt(s, at) {
      forall k | 0 <= k < |a| ensures HexDigit(a[k]).Some? { assert HexDigit(s[at[k]]).Some?; }
    }
  }

  /** The same numbers are the same text up to letter case. */
  predicate SameButCase(a: string, b: string) {
    |a| == |b| && forall k | 0 <= k < |a| :: SpellAlike(a[k], b[k])
  }

  predicate SpellAlike(c: char, d: char) { exists n | 0 <= n < 16 :: Spells(c, n) && Spells(d, n) }

  lemma SameDigitIff(c: char, d: char)
    requires HexDigit(c).Some? && HexDigit(d).Some?
    ensures HexDigit(c) == HexDigit(d) <==> SpellAlike(c, d)
  {
    HexDigitSpells(c);
    HexDigitSpells(d);
    if HexDigit(c) == HexDigit(d) {
      assert Spells(c, HexDigit(c).value as int) && Spells(d, HexDigit(c).value as int);
    }
  }

  lemma DigitsOfAgree(a: string, b: string)
    requires AllHex(a) && AllHex(b) && |a| == |b|
    ensures DigitsOf(a) == DigitsOf(b) <==> SameButCase(a, b)
  {
    forall k | 0 <= k < |a| ensures DigitsOf(a)[k] == DigitsOf(b)[k] <==> SpellAlike(a[k], b[k]) {
      SameDigitIff(a[k], b[k]);
      assert HexDigit(a[k]) == Some(DigitsOf(a)[k]) && HexDigit(b[k]) == Some(DigitsOf(b)[k]);
    }
  }

  /** A UUID text has an id exactly when its halves are hexadecimal, and then nibble k of the id is the
      number the k-th digit of one half spells, exclusive-or that of the other. */
  lemma IdOfText(a: string, b: string)
    requires |a| == |b| == 16
    ensures ParseUuid2(Form(a, b)).Some? <==> AllHex(a) && AllHex(b)
    ensures AllHex(a) && AllHex(b) ==>
      && Nibbles(ParseUuid2(Form(a, b)).value) == Xors(DigitsOf(a), DigitsOf(b))
      && (forall k | 0 <= k < 16 :: Spells(a[k], DigitsOf(a)[k] as int) && Spells(b[k], DigitsOf(b)[k] as int))
  {
    DigitsOfForm(a, b);
    if AllHex(a) && AllHex(b) {
      IdNibbles(Form(a, b));
      forall k | 0 <= k < 16 ensures Spells(a[k], DigitsOf(a)[k] as int) && Spells(b[k], DigitsOf(b)[k] as int) {
        HexDigitSpells(a[k]);
        HexDigitSpells(b[k]);
      }
    }
  }

  /** With one half fixed, ids agree exactly when the other halves are the same text up to letter case: so
      changing one digit to any other always changes the id. */
  lemma ChangingTextChangesId(a: string, b: string, c: string)
    requires |a| == |b| == |c| == 16 && AllHex(a) && AllHex(b) && AllHex(c)
    ensures ParseUuid2(Form(a, c)) == ParseUuid2(Form(b, c)) <==> SameButCase(a, b)
    ensures ParseUuid2(Form(c, a)) == ParseUuid2(Form(c, b)) <==> SameButCase(a, b)
  {
    DigitsOfForm(a, c);
    DigitsOfForm(b, c);
    DigitsOfForm(c, a);
    DigitsOfForm(c, b);
    DigitsOfAgree(a, b);
    ChangingOneHalfChangesId(Form(a, c), Form(b, c));
    ChangingOneHalfChangesId(Form(c, a), Form(c, b));
  }
}
