/**
 StringToLong (strtol, section 7.22.1.4 of ISO/IEC 9899:2011, with the 0b
 prefix of C23 and only ' ' as white space), for a long of any width.
 */
module StringToLong {
  import opened Arithmetic
  import opened CStrings
  import opened Options

  // ------------------------------------------------------------------
  // Digits
  // ------------------------------------------------------------------

  // The value of a digit, or 36 for a character that is none.
  function DigitValue(c: char): (v: nat)
    ensures v <= 36
  {
    if '0' <= c <= '9' then c as int - '0' as int
    else if 'A' <= c <= 'Z' then c as int - 'A' as int + 10
    else if 'a' <= c <= 'z' then c as int - 'a' as int + 10
    else 36
  }

  predicate IsDigit(c: char, radix: nat) { DigitValue(c) < radix }

  // x & ~('a' ^ 'A') for a byte distance x.
  function ClearCaseBit(x: nat): nat {
    if (x / 32) % 2 == 1 then x - 32 else x
  }

  // A char as an int, on a machine where char is signed or not.
  function CharValue(c: char, signed: bool): int {
    if signed && c as int >= 128 then c as int - 256 else c as int
  }

  /** The digit arithmetic of the loop: None is its break for a character
      between '9' and 'A'. */
  function LoopDigit(p: int): Option<int> {
    if p >= 'A' as int then Some(ClearCaseBit(p - 'A' as int) + 10)
    else if p <= '9' as int then Some(p - '0' as int)
    else None
  }

  /** Signed or unsigned, the loop accepts exactly the digits of the base. */
  lemma LoopDigitIsDigit(c: char, signed: bool, radix: nat)
    requires c as int < 256 && radix <= 36
    ensures var d := LoopDigit(CharValue(c, signed));
            && (d.Some? && 0 <= d.value < radix <==> IsDigit(c, radix))
            && (IsDigit(c, radix) ==> d == Some(DigitValue(c)))
  {
  }

  // ------------------------------------------------------------------
  // What a numeral means
  // ------------------------------------------------------------------

  predicate AllDigits(t: string, radix: nat) {
    forall i :: 0 <= i < |t| ==> IsDigit(t[i], radix)
  }

  function ValueOf(t: string, radix: nat): nat {
    if t == [] then 0 else Times(ValueOf(t[..|t| - 1], radix), radix) + DigitValue(t[|t| - 1])
  }

  function Signed(negative: bool, v: nat): int { if negative then 0 - v else v }

  predicate IsSign(c: char) { c == '+' || c == '-' }

  predicate IsX(c: char) { c == 'x' || c == 'X' }

  predicate IsB(c: char) { c == 'b' || c == 'B' }

  /** The value of a string that as a whole has the expected form: digits of
      the base, after a 0x or 0b prefix where the base allows one. Base 0 takes
      the base from the string, as for an integer constant. */
  function Magnitude(t: string, base: int): Option<nat> {
    if |t| >= 3 && t[0] == '0' && IsX(t[1]) && (base == 16 || base == 0) then
      if AllDigits(t[2..], 16) then Some(ValueOf(t[2..], 16)) else None
    else if |t| >= 3 && t[0] == '0' && IsB(t[1]) && (base == 2 || base == 0) then
      if AllDigits(t[2..], 2) then Some(ValueOf(t[2..], 2)) else None
    else
      var radix := if base != 0 then base else if |t| > 0 && t[0] == '0' then 8 else 10;
      if |t| >= 1 && radix >= 0 && AllDigits(t, radix) then Some(ValueOf(t, radix)) else None
  }

  /** The value of a subject sequence: an optional sign and a magnitude. */
  function Subject(t: string, base: int): Option<int> {
    if |t| > 0 && IsSign(t[0]) then
      match Magnitude(t[1..], base)
      case Some(v) => Some(Signed(t[0] == '-', v))
      case None => None
    else
      match Magnitude(t, base)
      case Some(v) => Some(v)
      case None => None
  }

  /** The digits: '0' to '9', and the letters in both cases from 10 on. */
  lemma DigitsAre(c: char, v: nat)
    requires v < 36
    ensures DigitValue(c) == v <==>
            if v < 10 then c as int == '0' as int + v
            else c as int == 'A' as int + v - 10 || c as int == 'a' as int + v - 10
  {
  }

  /** A plus sign changes nothing, a minus sign negates, and no other character
      is a sign. */
  lemma SignForms(t: string, base: int)
    requires t == "" || (t[0] != '+' && t[0] != '-')
    ensures Subject("+" + t, base) == Subject(t, base)
    ensures Subject("-" + t, base) ==
            match Subject(t, base)
            case Some(v) => Some(0 - v)
            case None => None
  {
    assert ("+" + t)[1..] == t && ("-" + t)[1..] == t;
    hide Magnitude;
  }

  /** Hexadecimal digits may follow 0x or 0X in base 16 and in base 0. */
  lemma HexForms(x: char, t: string, base: int)
    requires (x == 'x' || x == 'X') && t != "" && (base == 16 || base == 0)
    ensures Magnitude(['0', x] + t, base) == if AllDigits(t, 16) then Some(ValueOf(t, 16)) else None
  {
    hide AllDigits, ValueOf;
    assert (['0', x] + t)[2..] == t;
  }

  /** Binary digits may follow 0b or 0B in base 2 and in base 0. */
  lemma BinaryForms(x: char, t: string, base: int)
    requires (x == 'b' || x == 'B') && t != "" && (base == 2 || base == 0)
    ensures Magnitude(['0', x] + t, base) == if AllDigits(t, 2) then Some(ValueOf(t, 2)) else None
  {
    hide AllDigits, ValueOf;
    assert (['0', x] + t)[2..] == t;
  }

  /** Without such a prefix base 0 is octal after a zero and otherwise decimal. */
  lemma PlainForms(t: string)
    requires t != "" && (t[0] == '0' ==> |t| == 1 || t[1] !in {'x', 'X', 'b', 'B'})
    ensures Magnitude(t, 0) == Magnitude(t, if t[0] == '0' then 8 else 10)
  {
    hide AllDigits, ValueOf;
  }

  predicate ValidBase(base: int) { base == 0 || 2 <= base <= 36 }

  function LeadingSpaces(s: string): (n: nat)
    ensures n <= |s|
    ensures forall i :: 0 <= i < n ==> s[i] == ' '
    ensures n < |s| ==> s[n] != ' '
  {
    if s == [] || s[0] != ' ' then 0 else 1 + LeadingSpaces(s[1..])
  }

  function Clamp(v: int, longMax: nat): int {
    if v > longMax then longMax else if v < 0 - longMax - 1 then 0 - longMax - 1 else v
  }

  // ------------------------------------------------------------------
  // The scan, as a function
  // ------------------------------------------------------------------

  // End of the run of digits that starts at p.
  function RunEnd(s: string, p: nat, radix: nat): (e: nat)
    requires p <= |s|
    ensures p <= e <= |s|
    ensures forall i :: p <= i < e ==> IsDigit(s[i], radix)
    ensures e < |s| ==> !IsDigit(s[e], radix)
    decreases |s| - p
  {
    if p < |s| && IsDigit(s[p], radix) then RunEnd(s, p + 1, radix) else p
  }

  // Where the digits start, in which radix, and where the end pointer stays
  // when no digit follows.
  datatype Prefix = Prefix(radix: nat, digits: nat, fallback: nat)

  function SignLength(s: CString, w: nat): (n: nat)
    requires w <= |s|
    ensures w + n <= |s|
  {
    if IsSign(At(s, w)) then 1 else 0
  }

  function PrefixAt(s: CString, p: nat, base: int): (f: Prefix)
    requires p <= |s| && ValidBase(base)
    ensures 2 <= f.radix <= 36 && p <= f.digits <= |s| && f.fallback <= f.digits
  {
    if At(s, p) == '0' then
      if IsX(At(s, p + 1)) && (base == 16 || base == 0) then Prefix(16, p + 2, p + 1)
      else if IsB(At(s, p + 1)) && (base == 2 || base == 0) then Prefix(2, p + 2, p + 1)
      else Prefix(if base == 0 then 8 else base, p + 1, p + 1)
    else
      Prefix(if base == 0 then 10 else base, p, 0)
  }

  /** Value and end pointer for a valid base. */
  function Scan(s: CString, base: int, longMax: nat): (r: (int, nat))
    requires ValidBase(base)
    ensures r.1 <= |s|
  {
    var w := LeadingSpaces(s);
    var f := PrefixAt(s, w + SignLength(s, w), base);
    var e := RunEnd(s, f.digits, f.radix);
    var v := ValueOf(s[f.digits..e], f.radix);
    (Clamp(Signed(At(s, w) == '-', v), longMax), if e > f.digits then e else f.fallback)
  }

  // ------------------------------------------------------------------
  // StringToLong
  // ------------------------------------------------------------------

  // Unsigned long arithmetic.
  function ToUnsigned(x: int, longMax: nat): nat { Rem(x, 2 * (longMax + 1)) }

  lemma ToUnsignedWraps(x: int, longMax: nat)
    requires 0 - longMax - 1 <= x < 2 * (longMax + 1)
    ensures ToUnsigned(x, longMax) == if x >= 0 then x else x + 2 * (longMax + 1)
  {
    var m := 2 * (longMax + 1);
    assert Times(0, m) == 0 && Times(-1, m) == -m;
    hide Times, Quot, Rem;
    if x >= 0 { DivisionIs(x, 0, x, m); } else { DivisionIs(x, -1, x + m, m); }
  }

  // Conversion of an unsigned long to a long.
  function ToSigned(n: nat, longMax: nat): int {
    if n <= longMax then n else n - 2 * (longMax + 1)
  }

  method SkipSpaces(s: CString) returns (p: nat)
    ensures p == LeadingSpaces(s)
  {
    p := 0;
    while At(s, p) == ' '
      invariant p <= |s| && LeadingSpaces(s) == p + LeadingSpaces(s[p..])
      decreases |s| - p
    {
      assert s[p..][1..] == s[p + 1..];
      p := p + 1;
    }
  }

  // Reads spaces, sign and base prefix.
  method SkipPrefix(s: CString, baseArgument: int)
    returns (p: nat, endp: nat, base: nat, isNegative: bool)
    requires ValidBase(baseArgument)
    ensures var w := LeadingSpaces(s);
            && isNegative == (At(s, w) == '-')
            && Prefix(base, p, endp) == PrefixAt(s, w + SignLength(s, w), baseArgument)
  {
    hide LeadingSpaces, IsCString;
    base, endp := baseArgument, 0;
    p := SkipSpaces(s);
    isNegative := false;
    if At(s, p) == '+' {
      p := p + 1;
    } else if At(s, p) == '-' {
      isNegative, p := true, p + 1;
    }
    if At(s, p) == '0' {
      p := p + 1;
      endp := p;
      if base == 16 && (At(s, p) == 'X' || At(s, p) == 'x') {
        p := p + 1;
      } else if base == 2 && (At(s, p) == 'B' || At(s, p) == 'b') {
        p := p + 1;
      } else if base == 0 {
        if At(s, p) == 'X' || At(s, p) == 'x' {
          base, p := 16, p + 1;
        } else if At(s, p) == 'B' || At(s, p) == 'b' {
          base, p := 2, p + 1;
        } else {
          base := 8;
        }
      }
    } else if base == 0 {
      base := 10;
    }
  }

  // Adds one digit to the number, unless that exceeds the limit. Unsigned long
  // has room for the product.
  method AddDigit(n: nat, c: nat, base: nat, cutoff: nat, cutlim: nat, ghost limit: nat, longMax: nat)
    returns (n': nat, overflow: bool)
    requires 2 <= base <= 36 && c < base && limit <= longMax + 1
    requires cutoff == Quot(limit, base) && cutlim == Rem(limit, base)
    ensures overflow == (Times(n, base) + c > limit)
    ensures n' == if overflow then n else Times(n, base) + c
  {
    hide ToUnsigned, Times, Quot, Rem;
    CutoffTest(n, c, base, limit);
    if n > cutoff || (n == cutoff && c > cutlim) {
      return n, true;
    }
    ToUnsignedWraps(Times(n, base) + c, longMax);
    return ToUnsigned(Times(n, base) + c, longMax), false;
  }

  // Accumulates the run of digits at start, saturating above the limit.
  method AccumulateDigits(s: CString, start: nat, fallback: nat, base: nat, limit: nat,
                          longMax: nat, wantEnd: bool, charIsSigned: bool)
    returns (n: nat, overflow: bool, endp: nat)
    requires start <= |s| && 2 <= base <= 36 && limit <= longMax + 1
    ensures var e := RunEnd(s, start, base);
            var v := ValueOf(s[start..e], base);
            && overflow == (v > limit)
            && (!overflow ==> n == v)
            && (wantEnd ==> endp == if e > start then e else fallback)
  {
    hide ToUnsigned, ValueOf, LoopDigit, CharValue, DigitValue, IsDigit, RunEnd, Times, Quot, Rem;
    EmptyValue(s, start, base);
    var cutoff, cutlim := Quot(limit, base), Rem(limit, base);
    var p := start;
    n, overflow, endp := 0, false, fallback;
    ghost var stop := RunEnd(s, start, base);
    while true
      invariant start <= p <= stop
      invariant endp == if p > start then p else fallback
      invariant if overflow then ValueOf(s[start..p], base) > limit
                else n == ValueOf(s[start..p], base) <= limit
      decreases stop - p
    {
      LoopDigitIsDigit(At(s, p), charIsSigned, base);
      var digit := LoopDigit(CharValue(At(s, p), charIsSigned));
      if digit.None? || digit.value < 0 || digit.value >= base {
        break;
      }
      var c := digit.value;
      NulIsNoDigit(base);
      assert p < |s|;
      OneMoreDigit(s, start, p, base);
      p := p + 1;
      endp := p;
      if overflow {
        if wantEnd {
          continue;
        }
        break;
      }
      n, overflow := AddDigit(n, c, base, cutoff, cutlim, limit, longMax);
    }
    ValueGrowsWithRun(s, start, p, stop, base);
  }

  lemma NulIsNoDigit(radix: nat)
    requires radix <= 36
    ensures !IsDigit('\0', radix)
  {
  }

  lemma OneMoreDigit(s: string, start: nat, p: nat, base: nat)
    requires start <= p < |s| && base >= 2
    ensures ValueOf(s[start..p + 1], base) == Times(ValueOf(s[start..p], base), base) + DigitValue(s[p])
    ensures ValueOf(s[start..p + 1], base) >= ValueOf(s[start..p], base)
  {
    hide Times, DigitValue;
    var t, v := s[start..p + 1], ValueOf(s[start..p], base);
    assert t[..|t| - 1] == s[start..p];
    TimesMonotone(1, base, v);
    TimesOne(v);
    TimesCommutes(v, base);
  }

  lemma {:induction false} ValueGrowsWithRun(s: string, start: nat, p: nat, stop: nat, base: nat)
    requires start <= p <= stop <= |s| && base >= 2
    ensures ValueOf(s[start..stop], base) >= ValueOf(s[start..p], base)
    decreases stop - p
  {
    if p < stop {
      OneMoreDigit(s, start, p, base);
      ValueGrowsWithRun(s, start, p + 1, stop, base);
    }
  }

  // The overflow test is exact.
  lemma CutoffTest(n: nat, c: nat, base: nat, limit: nat)
    requires 2 <= base && c < base
    ensures Times(n, base) + c > limit <==>
            n > Quot(limit, base) || (n == Quot(limit, base) && c > Rem(limit, base))
  {
    hide Times, Quot, Rem;
    var q := Quot(limit, base);
    Division(limit, base);
    if n > q {
      TimesMonotone(q + 1, n, base);
      TimesNext(q, base);
    } else if n < q {
      TimesMonotone(n + 1, q, base);
      TimesNext(n, base);
    }
  }

  lemma ClampIsSaturation(v: nat, negative: bool, longMax: nat)
    ensures var limit: nat := if negative then longMax + 1 else longMax;
            Clamp(Signed(negative, v), longMax) ==
            if v > limit then if negative then 0 - longMax - 1 else longMax
            else var m: int := v; ToSigned(if negative then ToUnsigned(-m, longMax) else v, longMax)
  {
    var m: int := v;
    if negative && v <= longMax + 1 { ToUnsignedWraps(-m, longMax); }
  }

  /** Converts the text at nptr. The end pointer is stored when one is wanted
      and the base is valid; the value does not depend on it, nor on whether
      char is signed. */
  method Convert(s: CString, wantEnd: bool, base: int, longMax: nat, charIsSigned: bool)
    returns (value: int, end: Option<nat>)
    ensures base < 0 || base == 1 || base > 36 <==> !ValidBase(base)
    ensures !ValidBase(base) ==> value == 0 && end == None
    ensures ValidBase(base) ==> value == Scan(s, base, longMax).0
    ensures ValidBase(base) ==> end == if wantEnd then Some(Scan(s, base, longMax).1) else None
  {
    if base < 0 || base == 1 || base > 36 {
      return 0, None;
    }
    hide ToUnsigned, ToSigned, ValueOf, PrefixAt, LeadingSpaces, Clamp, Signed, IsCString;
    var p, endp, radix, isNegative := SkipPrefix(s, base);
    var limit := if isNegative then longMax + 1 else longMax;
    var n, overflow;
    n, overflow, endp := AccumulateDigits(s, p, endp, radix, limit, longMax, wantEnd, charIsSigned);
    end := if wantEnd then Some(endp) else None;
    ClampIsSaturation(ValueOf(s[p..RunEnd(s, p, radix)], radix), isNegative, longMax);
    if overflow {
      value := if isNegative then 0 - longMax - 1 else longMax;
    } else {
      var m: int := n;
      value := ToSigned(if isNegative then ToUnsigned(-m, longMax) else n, longMax);
    }
  }

  // ------------------------------------------------------------------
  // The scan takes the longest subject sequence
  // ------------------------------------------------------------------

  lemma RunIsMaximal(s: string, p: nat, k: nat, radix: nat)
    requires p <= k <= |s|
    ensures AllDigits(s[p..k], radix) <==> k <= RunEnd(s, p, radix)
  {
    var e := RunEnd(s, p, radix);
    if k > e {
      assert s[p..k][e - p] == s[e];
    }
  }

  lemma {:induction false} LeadingZero(t: string, radix: nat)
    requires |t| > 0 && t[0] == '0'
    ensures ValueOf(t, radix) == ValueOf(t[1..], radix)
    decreases |t|
  {
    if |t| == 1 {
      assert t[..0] == "";
      assert ValueOf(t, radix) == Times(0, radix) + 0;
      TimesOne(radix);
    } else {
      LeadingZero(t[..|t| - 1], radix);
      assert t[..|t| - 1][1..] == t[1..][..|t| - 2];
    }
  }

  // The magnitude of the prefixes of the text at p: after a base prefix, after
  // a leading zero, and otherwise.
  lemma MagnitudeAfterPrefix(s: CString, p: nat, k: nat, base: int)
    requires p < k <= |s| && ValidBase(base) && PrefixAt(s, p, base).digits == p + 2
    ensures var f := PrefixAt(s, p, base);
            Magnitude(s[p..k], base) ==
            if k == p + 1 then Some(0)
            else if p + 2 < k <= RunEnd(s, p + 2, f.radix)
            then Some(ValueOf(s[p + 2..k], f.radix)) else None
  {
    var f, t := PrefixAt(s, p, base), s[p..k];
    assert t[0] == '0';
    if k >= p + 3 {
      assert t[1] == s[p + 1] && t[2..] == s[p + 2..k];
      RunIsMaximal(s, p + 2, k, f.radix);
      hide ValueOf, AllDigits, RunEnd;
    } else if k == p + 2 {
      assert t[1] == s[p + 1] && !IsDigit(t[1], f.radix) && !IsDigit(t[1], 8);
      hide ValueOf, RunEnd;
    } else {
      LoneZero(t, f.radix);
      LoneZero(t, 8);
      hide ValueOf, RunEnd;
    }
  }

  lemma LoneZero(t: string, radix: nat)
    requires t == "0" && radix >= 2
    ensures AllDigits(t, radix) && ValueOf(t, radix) == 0
  {
    assert t[..0] == "";
    assert ValueOf(t, radix) == Times(0, radix) + 0;
    TimesOne(radix);
  }

  lemma MagnitudeAfterZero(s: CString, p: nat, k: nat, base: int)
    requires p < k <= |s| && ValidBase(base) && PrefixAt(s, p, base).digits == p + 1
    ensures var f := PrefixAt(s, p, base);
            Magnitude(s[p..k], base) ==
            if k <= RunEnd(s, p + 1, f.radix) then Some(ValueOf(s[p + 1..k], f.radix)) else None
  {
    var f, t := PrefixAt(s, p, base), s[p..k];
    assert t[0] == '0' && t[1..] == s[p + 1..k];
    RunIsMaximal(s, p + 1, k, f.radix);
    LeadingZero(t, f.radix);
    assert AllDigits(t, f.radix) <==> AllDigits(t[1..], f.radix) by {
      assert forall i :: 0 < i < |t| ==> t[i] == t[1..][i - 1];
    }
    hide ValueOf, AllDigits, RunEnd;
    if k > p + 1 { assert t[1] == s[p + 1]; }
  }

  lemma MagnitudePlain(s: CString, p: nat, k: nat, base: int)
    requires p < k <= |s| && ValidBase(base) && PrefixAt(s, p, base).digits == p
    ensures var f := PrefixAt(s, p, base);
            Magnitude(s[p..k], base) ==
            if k <= RunEnd(s, p, f.radix) then Some(ValueOf(s[p..k], f.radix)) else None
  {
    RunIsMaximal(s, p, k, PrefixAt(s, p, base).radix);
    hide ValueOf, AllDigits, RunEnd;
  }

  lemma MagnitudeOfPrefix(s: CString, p: nat, k: nat, base: int)
    requires p < k <= |s| && ValidBase(base)
    ensures var f := PrefixAt(s, p, base);
            Magnitude(s[p..k], base) ==
            if k == f.fallback then Some(0)
            else if f.digits < k <= RunEnd(s, f.digits, f.radix)
            then Some(ValueOf(s[f.digits..k], f.radix)) else None
  {
    var f := PrefixAt(s, p, base);
    if f.digits == p + 2 {
      MagnitudeAfterPrefix(s, p, k, base);
    } else if f.digits == p + 1 {
      MagnitudeAfterZero(s, p, k, base);
      assert ValueOf(s[p + 1..p + 1], f.radix) == 0;
    } else {
      MagnitudePlain(s, p, k, base);
    }
    hide ValueOf, RunEnd, Magnitude;
  }

  // Too short a prefix is no subject; beyond the sign it is its magnitude, signed.
  lemma NoSubject(s: CString, w: nat, k: nat, base: int)
    requires w <= k <= |s| && k <= w + SignLength(s, w)
    ensures Subject(s[w..k], base) == None
  {
    NoMagnitude(base);
    hide Magnitude;
    assert s[w..k] == [] || s[w..k][1..] == [];
  }

  lemma SubjectIsSigned(s: CString, w: nat, k: nat, base: int)
    requires w <= |s| && w + SignLength(s, w) < k <= |s|
    ensures var p := w + SignLength(s, w);
            Subject(s[w..k], base) ==
            match Magnitude(s[p..k], base)
            case Some(v) => Some(Signed(At(s, w) == '-', v))
            case None => None
  {
    hide Magnitude;
    var p := w + SignLength(s, w);
    if p == w + 1 { assert s[w..k][1..] == s[p..k]; }
  }

  // The subject of every prefix of the text after the spaces.
  lemma SubjectOfPrefix(s: CString, k: nat, base: int)
    requires LeadingSpaces(s) <= k <= |s| && ValidBase(base)
    ensures var w := LeadingSpaces(s);
            var p := w + SignLength(s, w);
            var f := PrefixAt(s, p, base);
            Subject(s[w..k], base) ==
            if k <= p then None
            else if k == f.fallback then Some(0)
            else if f.digits < k <= RunEnd(s, f.digits, f.radix)
            then Some(Signed(At(s, w) == '-', ValueOf(s[f.digits..k], f.radix))) else None
  {
    var w := LeadingSpaces(s);
    var p := w + SignLength(s, w);
    assert Signed(true, 0) == Signed(false, 0) == 0;
    hide *;
    if k <= p {
      NoSubject(s, w, k, base);
    } else {
      SubjectIsSigned(s, w, k, base);
      MagnitudeOfPrefix(s, p, k, base);
    }
  }

  lemma NoMagnitude(base: int)
    ensures Magnitude("", base) == None
  {
  }

  lemma NothingBeyondScan(s: CString, k: nat, base: int, longMax: nat)
    requires ValidBase(base) && LeadingSpaces(s) <= k <= |s|
    requires k > Scan(s, base, longMax).1 || Scan(s, base, longMax).1 == 0
    ensures Subject(s[LeadingSpaces(s)..k], base).None?
  {
    hide *;
    var w := LeadingSpaces(s);
    FallbackPlace(s, w + SignLength(s, w), base);
    ScanCases(s, base, longMax);
    SubjectOfPrefix(s, k, base);
  }

  lemma ClampZero(longMax: nat)
    ensures Clamp(0, longMax) == 0
  {
  }

  lemma FallbackPlace(s: CString, p: nat, base: int)
    requires p <= |s| && ValidBase(base)
    ensures var f := PrefixAt(s, p, base); f.fallback == 0 || p < f.fallback <= f.digits
  {
  }

  lemma ScanCases(s: CString, base: int, longMax: nat)
    requires ValidBase(base)
    ensures var w := LeadingSpaces(s);
            var f := PrefixAt(s, w + SignLength(s, w), base);
            var e := RunEnd(s, f.digits, f.radix);
            Scan(s, base, longMax) ==
            if e == f.digits then (0, f.fallback)
            else (Clamp(Signed(At(s, w) == '-', ValueOf(s[f.digits..e], f.radix)), longMax), e)
  {
    hide PrefixAt, ValueOf, SignLength, Clamp, IsCString, At, LeadingSpaces, Signed, RunEnd;
    var w := LeadingSpaces(s);
    var f := PrefixAt(s, w + SignLength(s, w), base);
    EmptyValue(s, f.digits, f.radix);
    SignedZero(At(s, w) == '-');
    ClampZero(longMax);
  }

  lemma EmptyValue(s: string, p: nat, radix: nat)
    requires p <= |s|
    ensures ValueOf(s[p..p], radix) == 0
  {
  }

  lemma SignedZero(negative: bool)
    ensures Signed(negative, 0) == 0
  {
  }

  lemma SubjectAtScanEnd(s: CString, base: int, longMax: nat)
    requires ValidBase(base)
    ensures var w := LeadingSpaces(s);
            var (value, end) := Scan(s, base, longMax);
            if end == 0 then value == 0
            else w < end && Subject(s[w..end], base).Some?
                 && value == Clamp(Subject(s[w..end], base).value, longMax)
  {
    hide *;
    var w := LeadingSpaces(s);
    ScanCases(s, base, longMax);
    FallbackPlace(s, w + SignLength(s, w), base);
    ClampZero(longMax);
    var end := Scan(s, base, longMax).1;
    if end > 0 {
      SubjectOfPrefix(s, end, base);
    }
  }

  /** Of all prefixes of the text after the leading spaces, the scan takes the
      longest that is a subject sequence, returns its value clamped to a long,
      and ends just past it. When there is none it returns 0 and ends at the
      start. */
  lemma ScanIsLongestSubject(s: CString, base: int, longMax: nat)
    requires ValidBase(base)
    ensures var w := LeadingSpaces(s);
            var (value, end) := Scan(s, base, longMax);
            || (end == 0 && value == 0 && forall k :: w <= k <= |s| ==> Subject(s[w..k], base).None?)
            || (w < end && Subject(s[w..end], base).Some?
                && value == Clamp(Subject(s[w..end], base).value, longMax)
                && forall k :: end < k <= |s| ==> Subject(s[w..k], base).None?)
  {
    hide *;
    SubjectAtScanEnd(s, base, longMax);
    var w, end := LeadingSpaces(s), Scan(s, base, longMax).1;
    forall k | w <= k <= |s| && (k > end || end == 0)
      ensures Subject(s[w..k], base).None?
    {
      NothingBeyondScan(s, k, base, longMax);
    }
  }
}
