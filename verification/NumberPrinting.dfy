/**
 The digit printers: the recursive terminal printers, the rotating
 rt_to_string, and their round trips through StringToLong.
 */
module NumberPrinting {
  import opened Arithmetic
  import opened CStrings
  import S = StringToLong

  const K_NUMBERS: string := "0123456789ABCDEF\0"

  function ToChar(x: nat, limit: nat): char
    requires 1 <= limit <= 17
  {
    K_NUMBERS[x % limit]
  }

  function Digit(d: nat): (c: char)
    requires d < 16
    ensures 0 < c as int < 256
  {
    K_NUMBERS[d]
  }

  /** The numeral of a number, most significant digit first. */
  function Numeral(n: nat, base: nat): (t: CString)
    requires base == 10 || base == 16
    ensures |t| >= 1
  {
    if n < base then [Digit(n)] else Numeral(n / base, base) + [Digit(n % base)]
  }

  // The digit characters are '0' to '9' and 'A' to 'F'.
  lemma DigitIs(d: nat)
    requires d < 16
    ensures Digit(d) as int == if d < 10 then '0' as int + d else 'A' as int + d - 10
  {
  }

  /** What rt_to_char answers: the digit of the remainder, and NUL for 16, which
      only a limit of 17 leaves. */
  lemma ToCharIs(x: nat, limit: nat)
    requires 1 <= limit <= 17
    ensures var d := x % limit;
            ToChar(x, limit) as int == if d < 10 then '0' as int + d else if d < 16 then 'A' as int + d - 10 else 0
  {
    var d := x % limit;
    assert ToChar(x, limit) == K_NUMBERS[d];
    if d < 16 { DigitIs(d); }
  }

  /** A numeral is written in '0' to '9' and the capital letters 'A' to 'F'. */
  lemma {:induction false} NumeralCharacters(n: nat, base: nat, i: nat)
    requires (base == 10 || base == 16) && i < |Numeral(n, base)|
    ensures var c := Numeral(n, base)[i]; '0' <= c <= '9' || 'A' <= c <= 'F'
    decreases n
  {
    hide Digit;
    if n < base {
      DigitIs(n);
    } else if i == |Numeral(n, base)| - 1 {
      DigitIs(n % base);
    } else {
      NumeralCharacters(n / base, base, i);
    }
  }

  // ------------------------------------------------------------------
  // _write_number, _write_number_hex, hex_number
  // ------------------------------------------------------------------

  const LONG_MAX: nat := 0x7FFF_FFFF_FFFF_FFFF

  function Abs(x: int): nat { if x > 0 then x else -x }

  // A long whose negation is a long.
  predicate IsLong(x: int) { Abs(x) <= LONG_MAX }

  // What the terminal shows afterwards.
  function WriteNumber(x: int, term: CString): CString
    requires IsLong(x)
    decreases Abs(x)
  {
    var y, h := Abs(x) / 10, Abs(x) % 10;
    (if y != 0 then WriteNumber(y, term) else term) + [Digit(h)]
  }

  function WriteNumberHex(x: int, term: CString): CString
    requires IsLong(x)
    decreases Abs(x)
  {
    var y, h := Abs(x) / 16, Abs(x) % 16;
    (if y != 0 then WriteNumberHex(y, term) else term) + [Digit(h)]
  }

  function HexNumber(x: int, term: CString): CString
    requires IsLong(x)
  {
    WriteNumberHex(x, term) + "h"
  }

  lemma {:induction false} WritesNumeral(x: int, term: CString)
    requires IsLong(x)
    ensures WriteNumber(x, term) == term + Numeral(Abs(x), 10)
    decreases Abs(x)
  {
    if Abs(x) >= 10 {
      WritesNumeral(Abs(x) / 10, term);
    }
  }

  lemma {:induction false} WritesHexNumeral(x: int, term: CString)
    requires IsLong(x)
    ensures WriteNumberHex(x, term) == term + Numeral(Abs(x), 16)
    decreases Abs(x)
  {
    if Abs(x) >= 16 {
      WritesHexNumeral(Abs(x) / 16, term);
    }
  }

  // ------------------------------------------------------------------
  // Parsing what was printed
  // ------------------------------------------------------------------

  lemma DigitCharacter(d: nat)
    requires d < 16
    ensures S.DigitValue(Digit(d)) == d
  {
  }

  lemma {:induction false} NumeralMeans(n: nat, base: nat)
    requires base == 10 || base == 16
    ensures var t := Numeral(n, base);
            && S.AllDigits(t, base) && S.ValueOf(t, base) == n
            && (t[0] == '0' <==> n == 0)
    decreases n
  {
    var t := Numeral(n, base);
    if n < base {
      DigitCharacter(n);
      assert t[..0] == "";
    } else {
      NumeralMeans(n / base, base);
      DigitCharacter(n % base);
      assert t[..|t| - 1] == Numeral(n / base, base);
    }
  }

  predicate EndsNumeral(tail: CString, base: nat) {
    tail == "" || (!S.IsDigit(tail[0], base) && !S.IsX(tail[0]) && !S.IsB(tail[0]))
  }

  lemma NumeralPrefix(n: nat, base: nat, tail: CString)
    requires (base == 10 || base == 16) && EndsNumeral(tail, base)
    ensures var s: CString := Numeral(n, base) + tail;
            && S.LeadingSpaces(s) == 0 && S.SignLength(s, 0) == 0 && At(s, 0) != '-'
            && S.PrefixAt(s, 0, base) == (if n == 0 then S.Prefix(base, 1, 1) else S.Prefix(base, 0, 0))
  {
    var t := Numeral(n, base);
    var s: CString := t + tail;
    NumeralMeans(n, base);
    assert s[0] == t[0] && S.IsDigit(s[0], base);
    if n == 0 { assert t == [Digit(0)]; }
    hide Numeral, IsCString;
  }

  lemma NumeralRun(n: nat, base: nat, tail: CString, from: nat)
    requires (base == 10 || base == 16) && EndsNumeral(tail, base) && from <= |Numeral(n, base)|
    ensures S.RunEnd(Numeral(n, base) + tail, from, base) == |Numeral(n, base)|
  {
    var t := Numeral(n, base);
    NumeralMeans(n, base);
    hide Numeral, S.ValueOf, S.DigitValue;
    assert forall i :: from <= i < |t| ==> (t + tail)[i] == t[i];
    assert |tail| > 0 ==> (t + tail)[|t|] == tail[0];
  }

  /** Parsing a numeral in its own base gives the number, clamped, and ends at
      the text that follows it. */
  lemma NumeralParses(n: nat, base: nat, tail: CString, longMax: nat)
    requires (base == 10 || base == 16) && EndsNumeral(tail, base)
    ensures S.Scan(Numeral(n, base) + tail, base, longMax) == (S.Clamp(n, longMax), |Numeral(n, base)|)
  {
    BothBasesAreValid();
    hide *;
    NumeralPrefix(n, base, tail);
    NumeralScans(n, base, tail, Append(Numeral(n, base), tail), longMax);
  }

  lemma BothBasesAreValid()
    ensures S.ValidBase(10) && S.ValidBase(16)
  {
  }

  lemma NumeralScans(n: nat, base: nat, tail: CString, s: CString, longMax: nat)
    requires (base == 10 || base == 16) && S.ValidBase(base) && EndsNumeral(tail, base)
    requires s == Numeral(n, base) + tail
    requires S.LeadingSpaces(s) == 0 && S.SignLength(s, 0) == 0 && At(s, 0) != '-'
    requires S.PrefixAt(s, 0, base) == (if n == 0 then S.Prefix(base, 1, 1) else S.Prefix(base, 0, 0))
    ensures S.Scan(s, base, longMax) == (S.Clamp(n, longMax), |Numeral(n, base)|)
  {
    hide *;
    var t := Numeral(n, base);
    NumeralRun(n, base, tail, if n == 0 then 1 else 0);
    S.ScanCases(s, base, longMax);
    if n == 0 {
      NumeralOfZero(base);
      S.ClampZero(longMax);
    } else {
      assert s[0..|t|] == t;
      NumeralMeans(n, base);
      NotNegative(n);
    }
  }

  lemma NumeralOfZero(base: nat)
    requires base == 10 || base == 16
    ensures |Numeral(0, base)| == 1
  {
  }

  lemma NotNegative(n: nat)
    ensures S.Signed(false, n) == n
  {
  }

  /** Reading back what _write_number printed gives the number exactly when it
      is not negative: the sign is never printed. */
  lemma DecimalRoundTrip(x: int, longMax: nat)
    requires IsLong(x) && Abs(x) <= longMax
    ensures S.Scan(WriteNumber(x, ""), 10, longMax) == (Abs(x), |WriteNumber(x, "")|)
    ensures S.Scan(WriteNumber(x, ""), 10, longMax).0 == x <==> x >= 0
  {
    WritesNumeral(x, "");
    NumeralParses(Abs(x), 10, "", longMax);
    hide WriteNumber, Numeral, S.Scan;
    assert "" + Numeral(Abs(x), 10) == Numeral(Abs(x), 10) + "";
  }

  /** Reading back what hex_number printed gives the number, and the end pointer
      is at the trailing 'h'. */
  lemma HexRoundTrip(x: int, longMax: nat)
    requires IsLong(x) && Abs(x) <= longMax
    ensures var text := HexNumber(x, "");
            var (value, end) := S.Scan(text, 16, longMax);
            && (value == x <==> x >= 0)
            && end == |text| - 1 && text[end] == 'h'
  {
    var tail: CString := "h";
    hide *;
    HexNumberIs(x, Numeral(Abs(x), 16));
    EndsAtH();
    NumeralParses(Abs(x), 16, tail, longMax);
    ClampedAbs(x, longMax);
  }

  lemma HexNumberIs(x: int, t: CString)
    requires IsLong(x) && t == Numeral(Abs(x), 16)
    ensures HexNumber(x, "") == t + "h"
  {
    hide Numeral, WriteNumberHex;
    WritesHexNumeral(x, "");
    assert "" + t == t;
  }

  lemma EndsAtH()
    ensures EndsNumeral("h", 16)
  {
  }

  lemma ClampedAbs(x: int, longMax: nat)
    requires Abs(x) <= longMax
    ensures S.Clamp(Abs(x), longMax) == Abs(x) && (Abs(x) == x <==> x >= 0)
  {
  }

  // ------------------------------------------------------------------
  // rt_to_string
  // ------------------------------------------------------------------

  function Pow10(k: nat): (p: nat)
    ensures p >= 1
  {
    if k == 0 then 1 else 10 * Pow10(k - 1)
  }

  lemma {:induction false} Pow10Adds(a: nat, b: nat)
    ensures Pow10(a + b) == Times(Pow10(a), Pow10(b))
    decreases a
  {
    hide Times;
    if a == 0 {
      TimesOne(Pow10(b));
    } else {
      Pow10Adds(a - 1, b);
      TimesTen(Pow10(a - 1), Pow10(b));
    }
  }

  lemma TimesTen(x: int, y: int)
    ensures Times(10 * x, y) == 10 * Times(x, y) == Times(x, 10 * y)
  {
    assert Times(10, x) == 10 * x && Times(10, y) == 10 * y && Times(10, Times(x, y)) == 10 * Times(x, y);
    hide Times;
    TimesScales(10, x, y);
  }

  // n cut below its digit of weight a, the lower part moved up by b.
  function Rotate(n: nat, a: nat, b: nat): nat
    requires a > 0
  {
    Times(Rem(n, a), b) + Quot(n, a)
  }

  // The number n of d digits after j rotations.
  function Rotated(n: nat, d: nat, j: nat): nat
    requires j <= d
  {
    Rotate(n, Pow10(d - j), Pow10(j))
  }

  function TurnOnce(f: nat, mult: nat): nat
    requires mult > 0
  {
    (f % mult) * 10 + f / mult
  }

  lemma TurnOnceIs(f: nat, mult: nat)
    requires mult > 0
    ensures TurnOnce(f, mult) == 10 * Rem(f, mult) + Quot(f, mult)
  {
  }

  // One turn, with the weights a of the next digit and b of those passed.
  lemma TurnRotates(n: nat, a: nat, b: nat)
    requires a > 0 && b > 0 && n < Times(b, 10 * a)
    ensures Times(a, b) > 0
    ensures TurnOnce(Rotate(n, 10 * a, b), Times(a, b)) == Rotate(n, a, 10 * b)
  {
    var high, low := Quot(n, 10 * a), Rem(n, 10 * a);
    assert Times(10, a) == 10 * a && Times(10, high) == 10 * high;
    hide Times, Quot, Rem, TurnOnce;
    QuotBound(n, 10 * a, b);
    QuotTwice(n, 10, a);
    ScaledDivision(low, a, b, high);
    TurnOnceIs(Times(low, b) + high, Times(a, b));
    TimesTen(Rem(low, a), b);
  }

  lemma RotatedStep(n: nat, d: nat, j: nat)
    requires j < d && n < Pow10(d)
    ensures TurnOnce(Rotated(n, d, j), Pow10(d - 1)) == Rotated(n, d, j + 1)
  {
    var a, b := Pow10(d - j - 1), Pow10(j);
    assert Pow10(d - j) == 10 * a && Pow10(j + 1) == 10 * b;
    hide Times, Rotate, TurnOnce, Pow10;
    Pow10Adds(d - j - 1, j);
    Pow10Adds(j, d - j);
    TurnRotates(n, a, b);
  }

  // The last digit after j rotations is digit j of the numeral.
  lemma RotatedLastDigit(n: nat, d: nat, j: nat)
    requires 0 < j <= d
    ensures Rotated(n, d, j) % 10 == Quot(n, Pow10(d - j)) % 10
  {
    var a, b := Pow10(d - j), Pow10(j - 1);
    assert Pow10(j) == 10 * b;
    hide Times, Quot, Rem, Pow10;
    TimesTen(Rem(n, a), b);
    MultipleOfTen(Times(Rem(n, a), b), Quot(n, a));
  }

  lemma MultipleOfTen(x: int, y: int)
    ensures (10 * x + y) % 10 == y % 10
  {
  }

  function DigitAt(n: nat, a: nat): char
    requires a > 0
  {
    Digit(Quot(n, a) % 10)
  }

  lemma {:induction false} NumeralDigit(n: nat, j: nat)
    requires j < |Numeral(n, 10)|
    ensures Numeral(n, 10)[j] == DigitAt(n, Pow10(|Numeral(n, 10)| - 1 - j))
    decreases n
  {
    var d := |Numeral(n, 10)|;
    hide DigitAt;
    if j == d - 1 {
      UnitDigit(n);
    } else {
      NumeralDigit(n / 10, j);
      DivideTwice(n, Pow10(d - 2 - j));
    }
  }

  lemma UnitDigit(n: nat)
    ensures DigitAt(n, 1) == Digit(n % 10)
  {
    assert Quot(n, 1) == n;
  }

  lemma DivideTwice(n: nat, a: nat)
    requires a > 0
    ensures DigitAt(n / 10, a) == DigitAt(n, 10 * a)
  {
    assert Quot(n, 10) == n / 10 && Times(a, 10) == 10 * a;
    hide Times, Quot, Rem;
    QuotOfQuot(n, a, 10);
  }

  lemma {:induction false} NumeralLength(n: nat)
    ensures n < Pow10(|Numeral(n, 10)|)
    decreases n
  {
    if n >= 10 {
      NumeralLength(n / 10);
    }
  }

  // The C string in a buffer parses, in base 10, to a number, and is consumed.
  ghost predicate ReadsBack(buffer: seq<char>, n: nat) {
    var text := Text(buffer);
    IsCString(text) && forall longMax: nat :: n <= longMax ==> S.Scan(text, 10, longMax) == (n, |text|)
  }

  /** A buffer that holds the digits of a number and then zeros reads back as it. */
  lemma ToStringRoundTrip(buffer: seq<char>, n: nat)
    requires var t := Numeral(n, 10); |t| < |buffer| && buffer[..|t|] == t && buffer[|t|] == '\0'
    ensures ReadsBack(buffer, n)
  {
    hide Numeral, S.Scan;
    var t := Numeral(n, 10);
    assert forall i :: 0 <= i < |t| ==> buffer[i] == t[i];
    TextOfPrefix(buffer, |t|);
    forall longMax: nat | n <= longMax
      ensures S.Scan(t, 10, longMax) == (n, |t|)
    {
      NumeralParses(n, 10, "", longMax);
      assert t + "" == t;
    }
  }

  // The digits of base beyond the first, and the weight of the first.
  method CountDigits(base: nat) returns (mult: nat, elems: int)
    requires base < Pow10(10)
    ensures elems == |Numeral(base, 10)| - 1 && mult == Pow10(elems)
    ensures mult <= 0x7FFF_FFFF
  {
    mult, elems := 1, 0;
    var rest: nat := base / 10;
    ghost var leading: nat := base;
    while rest > 0
      invariant 0 <= elems && mult == Pow10(elems)
      invariant rest == leading / 10 && elems + |Numeral(leading, 10)| == |Numeral(base, 10)|
    {
      leading := rest;
      elems, mult, rest := elems + 1, mult * 10, rest / 10;
    }
    ShortNumeral(base, 10);
    Pow10Monotone(elems, 9);
    Pow10OfNine();
  }

  /** Writes into str the characters of base rotated once, twice, ... For limit
      10 they are the decimal digits, most significant first, and read back as
      base where a NUL follows; no terminator is written. mult is a 32-bit int,
      so base has at most ten digits. */
  method ToString(str: array<char>, base: nat, limit: nat) returns (ok: bool)
    requires base < Pow10(10) && 1 <= limit <= 17
    requires |Numeral(base, 10)| <= str.Length
    modifies str
    ensures ok
    ensures forall k :: 0 <= k < |Numeral(base, 10)| ==>
                          str[k] == ToChar(Rotated(base, |Numeral(base, 10)|, k + 1), limit)
    ensures limit == 10 ==> str[..|Numeral(base, 10)|] == Numeral(base, 10)
    ensures forall k :: |Numeral(base, 10)| <= k < str.Length ==> str[k] == old(str[k])
    ensures limit == 10 && |Numeral(base, 10)| < str.Length && old(str[|Numeral(base, 10)|]) == '\0' ==>
              ReadsBack(str[..], base)
  {
    hide Numeral, Pow10, Rotated, ToChar, IsCString, TurnOnce, ReadsBack;
    ghost var d := |Numeral(base, 10)|;
    var finalNumber := base;
    var mult, elems := CountDigits(base);
    NumeralLength(base);
    RotatedStart(base, d);
    var i := 0;
    while elems > -1
      invariant 0 <= i <= d && elems == d - 1 - i
      invariant finalNumber == Rotated(base, d, i)
      invariant forall k :: 0 <= k < i ==> str[k] == ToChar(Rotated(base, d, k + 1), limit)
      invariant forall k :: d <= k < str.Length ==> str[k] == old(str[k])
      decreases elems + 1
    {
      RotatedStep(base, d, i);
      finalNumber := TurnOnce(finalNumber, mult);
      str[i] := ToChar(finalNumber, limit);
      elems, i := elems - 1, i + 1;
    }
    if limit == 10 {
      forall k | 0 <= k < d
        ensures str[..d][k] == Numeral(base, 10)[k]
      {
        RotatedDigitIsNumeral(base, k);
      }
      if d < str.Length && str[d] == '\0' {
        assert str[..][..d] == str[..d];
        ToStringRoundTrip(str[..], base);
      }
    }
    return true;
  }

  lemma RotatedStart(n: nat, d: nat)
    requires n < Pow10(d)
    ensures Rotated(n, d, 0) == n
  {
    assert Pow10(0) == 1;
    hide Times, Quot, Rem, Pow10;
    TimesOne(Pow10(d));
    TimesOne(n);
    TimesCommutes(n, 1);
    DivisionIs(n, 0, n, Pow10(d));
  }

  lemma RotatedDigitIsNumeral(n: nat, k: nat)
    requires k < |Numeral(n, 10)|
    ensures ToChar(Rotated(n, |Numeral(n, 10)|, k + 1), 10) == Numeral(n, 10)[k]
  {
    RotatedLastDigit(n, |Numeral(n, 10)|, k + 1);
    NumeralDigit(n, k);
  }

  lemma {:induction false} Pow10Monotone(a: nat, b: nat)
    requires a <= b
    ensures Pow10(a) <= Pow10(b)
    decreases b
  {
    if a < b { Pow10Monotone(a, b - 1); }
  }

  lemma Pow10OfNine()
    ensures Pow10(9) == 1_000_000_000
  {
    assert Pow10(3) == 1000;
    assert Pow10(6) == 1_000_000;
  }

  lemma {:induction false} ShortNumeral(n: nat, d: nat)
    requires n < Pow10(d) && d >= 1
    ensures |Numeral(n, 10)| <= d
    decreases n
  {
    if n >= 10 {
      assert Pow10(1) == 10;
      ShortNumeral(n / 10, d - 1);
    }
  }
}
