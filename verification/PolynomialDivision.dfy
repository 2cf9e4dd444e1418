/**
 Division of polynomials over GF(2). The CRC-32C digest (section 12.1 of
 RFC 3720) is defined here by schoolbook long division, and shown equal to a
 32-bit shift register fed one coefficient at a time. A polynomial is the
 sequence of its coefficients, highest power first.
 */
module PolynomialDivision {

  type Polynomial = seq<bool>

  // x^32 + x^28 + x^27 + x^26 + x^25 + x^23 + x^22 + x^20 + x^19 + x^18 + x^14
  // + x^13 + x^11 + x^10 + x^9 + x^8 + x^6 + 1
  const DIVISOR: Polynomial := [
    true,
    false, false, false, true, true, true, true, false,
    true, true, false, true, true, true, false, false,
    false, true, true, false, true, true, true, true,
    false, true, false, false, false, false, false, true]

  function Add(a: Polynomial, b: Polynomial): (sum: Polynomial)
    requires |a| == |b|
    ensures |sum| == |a|
    ensures forall i :: 0 <= i < |a| ==> sum[i] == (a[i] != b[i])
  {
    seq(|a|, i requires 0 <= i < |a| => a[i] != b[i])
  }

  function Repeat(b: bool, n: nat): (p: Polynomial)
    ensures |p| == n && forall i :: 0 <= i < n ==> p[i] == b
  {
    seq(n, _ => b)
  }

  // ------------------------------------------------------------------
  // Long division
  // ------------------------------------------------------------------

  // One line of long division: cancel the leading coefficient and drop it.
  function Cancel(dividend: Polynomial): (rest: Polynomial)
    requires |dividend| > 32
    ensures |rest| == |dividend| - 1
  {
    if dividend[0] then Add(dividend[..33], DIVISOR)[1..] + dividend[33..] else dividend[1..]
  }

  function Remainder(dividend: Polynomial): (r: Polynomial)
    requires |dividend| >= 32
    ensures |r| == 32
    decreases |dividend|
  {
    if |dividend| == 32 then dividend else Remainder(Cancel(dividend))
  }

  /** The digest of a message: the remainder of message * x^32 with the 32
      leading coefficients complemented, itself complemented. */
  function Digest(message: Polynomial): (d: Polynomial)
    ensures |d| == 32
  {
    var shifted := message + Repeat(false, 32);
    var preset := Repeat(true, 32) + Repeat(false, |message|);
    Add(Remainder(Add(preset, shifted)), Repeat(true, 32))
  }

  // ------------------------------------------------------------------
  // The shift register
  // ------------------------------------------------------------------

  function StepIn(r: Polynomial, b: bool): (next: Polynomial)
    requires |r| == 32
    ensures |next| == 32
  {
    var shifted := r[1..] + [false];
    if r[0] != b then Add(shifted, DIVISOR[1..]) else shifted
  }

  function Feed(r: Polynomial, bits: Polynomial): (last: Polynomial)
    requires |r| == 32
    ensures |last| == 32
    decreases |bits|
  {
    if |bits| == 0 then r else Feed(StepIn(r, bits[0]), bits[1..])
  }

  lemma FeedOne(r: Polynomial, b: bool)
    requires |r| == 32
    ensures Feed(r, [b]) == StepIn(r, b)
  {
    hide StepIn;
    assert [b][1..] == [];
  }

  lemma {:induction false} FeedAppend(r: Polynomial, a: Polynomial, b: Polynomial)
    requires |r| == 32
    ensures Feed(r, a + b) == Feed(Feed(r, a), b)
    decreases |a|
  {
    hide StepIn;
    if |a| == 0 {
      assert a + b == b;
    } else {
      assert (a + b)[1..] == a[1..] + b;
      FeedAppend(StepIn(r, a[0]), a[1..], b);
    }
  }

  // The first line of the division of r * x^n + message * x^32 is one step of
  // the register.
  lemma CancelIsStep(r: Polynomial, message: Polynomial)
    requires |r| == 32 && |message| > 0
    ensures var n := |message|;
            Cancel(Add(r + Repeat(false, n), message + Repeat(false, 32)))
            == Add(StepIn(r, message[0]) + Repeat(false, n - 1), message[1..] + Repeat(false, 32))
  {
    assert |DIVISOR| == 33;
    hide DIVISOR;
    var n := |message|;
    var left, right := r + Repeat(false, n), message + Repeat(false, 32);
    var next := StepIn(r, message[0]);
    var dividend := Add(left, right);
    var rest := Cancel(dividend);
    assert dividend[0] == (r[0] != message[0]);
    forall i | 0 <= i < n + 31
      ensures rest[i] == Add(next + Repeat(false, n - 1), message[1..] + Repeat(false, 32))[i]
    {
      assert dividend[i + 1] == (left[i + 1] != right[i + 1]);
      if i < 32 {
        assert rest[i] == if dividend[0] then dividend[i + 1] != DIVISOR[i + 1] else dividend[i + 1];
      } else {
        assert rest[i] == dividend[i + 1];
      }
    }
  }

  /** Feeding a message to a preset register leaves the remainder of the long
      division of preset * x^n + message * x^32. */
  lemma {:induction false} RegisterIsRemainder(r: Polynomial, message: Polynomial)
    requires |r| == 32
    ensures Feed(r, message)
            == Remainder(Add(r + Repeat(false, |message|), message + Repeat(false, 32)))
    decreases |message|
  {
    hide Cancel, StepIn;
    if |message| == 0 {
      assert Add(r + Repeat(false, 0), message + Repeat(false, 32)) == r;
    } else {
      CancelIsStep(r, message);
      RegisterIsRemainder(StepIn(r, message[0]), message[1..]);
    }
  }

  // ------------------------------------------------------------------
  // Linearity, injectivity
  // ------------------------------------------------------------------

  lemma StepIsLinear(r: Polynomial, s: Polynomial, a: bool, b: bool)
    requires |r| == |s| == 32
    ensures StepIn(Add(r, s), a != b) == Add(StepIn(r, a), StepIn(s, b))
  {
    hide DIVISOR;
  }

  lemma {:induction false} FeedIsLinear(r: Polynomial, s: Polynomial, a: Polynomial, b: Polynomial)
    requires |r| == |s| == 32 && |a| == |b|
    ensures Feed(Add(r, s), Add(a, b)) == Add(Feed(r, a), Feed(s, b))
    decreases |a|
  {
    if |a| > 0 {
      hide StepIn;
      StepIsLinear(r, s, a[0], b[0]);
      assert Add(a, b)[1..] == Add(a[1..], b[1..]);
      FeedIsLinear(StepIn(r, a[0]), StepIn(s, b[0]), a[1..], b[1..]);
    }
  }

  lemma StepIsInjective(r: Polynomial, s: Polynomial, b: bool)
    requires |r| == |s| == 32
    requires StepIn(r, b) == StepIn(s, b)
    ensures r == s
  {
    assert StepIn(r, b)[31] == (r[0] != b) && StepIn(s, b)[31] == (s[0] != b);
    forall i | 1 <= i < 32
      ensures r[i] == s[i]
    {
      assert StepIn(r, b)[i - 1] == StepIn(s, b)[i - 1];
    }
  }

  lemma {:induction false} FeedIsInjective(r: Polynomial, s: Polynomial, bits: Polynomial)
    requires |r| == |s| == 32
    requires Feed(r, bits) == Feed(s, bits)
    ensures r == s
    decreases |bits|
  {
    if |bits| > 0 {
      hide StepIn;
      FeedIsInjective(StepIn(r, bits[0]), StepIn(s, bits[0]), bits[1..]);
      StepIsInjective(r, s, bits[0]);
    }
  }

  // A step after which the last place is empty only shifted.
  lemma StepOnlyShifted(r: Polynomial, b: bool, rest: Polynomial)
    requires |r| == 32 && |rest| == 31
    requires StepIn(r, b) == rest + [false]
    ensures r == [b] + rest
  {
    assert StepIn(r, b)[31] == (r[0] != b);
    assert r[0] == b && StepIn(r, b) == r[1..] + [false];
    assert r[1..] == (r[1..] + [false])[..31] && rest == (rest + [false])[..31];
    assert r == [r[0]] + r[1..];
  }

  // A message of at most 32 coefficients clears the register only when the
  // register held exactly that message.
  lemma {:induction false} ClearedOnlyByItself(r: Polynomial, bits: Polynomial)
    requires |r| == 32 && |bits| <= 32
    requires Feed(r, bits) == Repeat(false, 32)
    ensures r == bits + Repeat(false, 32 - |bits|)
    decreases |bits|
  {
    if |bits| == 0 {
      assert r == bits + Repeat(false, 32);
    } else {
      hide StepIn;
      ClearedOnlyByItself(StepIn(r, bits[0]), bits[1..]);
      var rest := bits[1..] + Repeat(false, 32 - |bits|);
      assert bits[1..] + Repeat(false, 33 - |bits|) == rest + [false];
      StepOnlyShifted(r, bits[0], rest);
      assert [bits[0]] + rest == bits + Repeat(false, 32 - |bits|);
    }
  }

  // A register that holds a message is cleared by being fed it.
  lemma {:induction false} ClearedByItself(bits: Polynomial)
    requires |bits| <= 32
    ensures Feed(bits + Repeat(false, 32 - |bits|), bits) == Repeat(false, 32)
    decreases |bits|
  {
    var r := bits + Repeat(false, 32 - |bits|);
    if |bits| == 0 {
      assert r == Repeat(false, 32);
    } else {
      ClearedByItself(bits[1..]);
      assert StepIn(r, bits[0]) == bits[1..] + Repeat(false, 33 - |bits|);
    }
  }

  /** Up to 32 coefficients may be fed one by one or added to the register at once. */
  lemma AllAtOnce(r: Polynomial, bits: Polynomial)
    requires |r| == 32 && |bits| <= 32
    ensures Feed(r, bits)
            == Feed(Add(r, bits + Repeat(false, 32 - |bits|)), Repeat(false, |bits|))
  {
    hide Feed;
    var held := bits + Repeat(false, 32 - |bits|);
    FeedIsLinear(r, held, bits, bits);
    ClearedByItself(bits);
    assert Add(bits, bits) == Repeat(false, |bits|);
    assert Add(Feed(r, bits), Repeat(false, 32)) == Feed(r, bits);
  }

  lemma ClearedExactlyByItself(r: Polynomial, bits: Polynomial)
    requires |r| == |bits| == 32
    ensures Feed(r, bits) == Repeat(false, 32) <==> r == bits
  {
    hide Feed;
    assert bits + Repeat(false, 0) == bits;
    ClearedByItself(bits);
    if Feed(r, bits) == Repeat(false, 32) { ClearedOnlyByItself(r, bits); }
  }

  lemma FirstOfEmpty(b: bool)
    ensures StepIn(Repeat(false, 32), b) == if b then DIVISOR[1..] else Repeat(false, 32)
  {
  }

  lemma DivisorLeads()
    ensures |DIVISOR| == 33 && DIVISOR[0]
  {
  }

  lemma RepeatTail(n: nat)
    requires n > 0
    ensures Repeat(false, n)[1..] == Repeat(false, n - 1)
  {
  }

  lemma EmptyIsFed(w: Polynomial)
    requires |w| == 33
    ensures Feed(Repeat(false, 32), w) == Feed(if w[0] then DIVISOR[1..] else Repeat(false, 32), w[1..])
  {
    hide StepIn, DIVISOR;
    FirstOfEmpty(w[0]);
  }

  lemma HeadAndTail(a: Polynomial, b: Polynomial)
    requires |a| == |b| > 0
    ensures a == b <==> a[0] == b[0] && a[1..] == b[1..]
  {
    assert a == [a[0]] + a[1..] && b == [b[0]] + b[1..];
  }

  /** Of all messages of 33 coefficients just the divisor, and the zero message,
      leave an empty register empty. */
  lemma ClearedByDivisor(w: Polynomial)
    requires |w| == 33
    ensures Feed(Repeat(false, 32), w) == Repeat(false, 32) <==> w == Repeat(false, 33) || w == DIVISOR
  {
    hide *;
    DivisorLeads();
    RepeatTail(33);
    EmptyIsFed(w);
    ClearedExactlyByItself(if w[0] then DIVISOR[1..] else Repeat(false, 32), w[1..]);
    HeadAndTail(w, DIVISOR);
    HeadAndTail(w, Repeat(false, 33));
  }

  // Feeding different short messages to one register leaves different registers.
  lemma ShortMessagesDiffer(s: Polynomial, u: Polynomial, v: Polynomial)
    requires |s| == 32 && |u| == |v| <= 32
    requires Feed(s, u) == Feed(s, v)
    ensures u == v
  {
    hide Feed;
    FeedIsLinear(s, s, u, v);
    SameSum(s, s);
    SameSum(Feed(s, u), Feed(s, v));
    SameSum(u, v);
    ClearedOnlyByItself(Repeat(false, 32), Add(u, v));
    ZeroPrefix(Add(u, v));
  }

  lemma ZeroPrefix(bits: Polynomial)
    requires |bits| <= 32 && Repeat(false, 32) == bits + Repeat(false, 32 - |bits|)
    ensures bits == Repeat(false, |bits|)
  {
    forall i | 0 <= i < |bits|
      ensures !bits[i]
    {
      assert bits[i] == (bits + Repeat(false, 32 - |bits|))[i];
    }
  }

  /** Two messages that agree except inside a window of at most 32
      coefficients leave different registers. */
  lemma BurstChangesRegister(r: Polynomial, before: Polynomial, u: Polynomial, v: Polynomial, after: Polynomial)
    requires |r| == 32 && |u| == |v| <= 32 && u != v
    ensures Feed(r, before + u + after) != Feed(r, before + v + after)
  {
    hide Feed;
    if Feed(r, before + u + after) == Feed(r, before + v + after) {
      var s := Feed(r, before);
      FeedAppend(r, before + u, after);
      FeedAppend(r, before + v, after);
      FeedAppend(r, before, u);
      FeedAppend(r, before, v);
      FeedIsInjective(Feed(s, u), Feed(s, v), after);
      ShortMessagesDiffer(s, u, v);
    }
  }

  /** Messages that agree except inside a window of 33 coefficients leave one
      register only when they are the same or differ by the divisor. */
  lemma LongerBurst(r: Polynomial, before: Polynomial, u: Polynomial, v: Polynomial, after: Polynomial)
    requires |r| == 32 && |u| == |v| == 33
    ensures Feed(r, before + u + after) == Feed(r, before + v + after) <==> u == v || Add(u, v) == DIVISOR
  {
    hide Feed, DIVISOR;
    var s := Feed(r, before);
    FeedAppend(r, before + u, after);
    FeedAppend(r, before + v, after);
    FeedAppend(r, before, u);
    FeedAppend(r, before, v);
    if Feed(Feed(s, u), after) == Feed(Feed(s, v), after) {
      FeedIsInjective(Feed(s, u), Feed(s, v), after);
    }
    FeedIsLinear(s, s, u, v);
    SameSum(s, s);
    SameSum(Feed(s, u), Feed(s, v));
    SameSum(u, v);
    ClearedByDivisor(Add(u, v));
  }

  lemma SameSum(a: Polynomial, b: Polynomial)
    requires |a| == |b|
    ensures Add(a, b) == Repeat(false, |a|) <==> a == b
  {
    if Add(a, b) == Repeat(false, |a|) {
      forall i | 0 <= i < |a|
        ensures a[i] == b[i]
      {
        assert Add(a, b)[i] == Repeat(false, |a|)[i];
      }
    }
  }

  // ------------------------------------------------------------------
  // Parity
  // ------------------------------------------------------------------

  // An odd number of the coefficients are one.
  function Odd(p: Polynomial): bool {
    if |p| == 0 then false else p[0] != Odd(p[1..])
  }

  lemma {:induction false} OddConcat(a: Polynomial, b: Polynomial)
    ensures Odd(a + b) == (Odd(a) != Odd(b))
    decreases |a|
  {
    if |a| == 0 {
      assert a + b == b;
    } else {
      assert (a + b)[1..] == a[1..] + b;
      OddConcat(a[1..], b);
    }
  }

  lemma {:induction false} OddAdd(a: Polynomial, b: Polynomial)
    requires |a| == |b|
    ensures Odd(Add(a, b)) == (Odd(a) != Odd(b))
    decreases |a|
  {
    if |a| > 0 {
      assert Add(a, b)[1..] == Add(a[1..], b[1..]);
      OddAdd(a[1..], b[1..]);
    }
  }

  lemma OddOne(b: bool)
    ensures Odd([b]) == b
  {
    assert [b][1..] == [];
  }

  lemma OddTwo(a: bool, b: bool)
    ensures Odd([a, b]) == (a != b)
  {
    assert [a, b][1..] == [b];
    OddOne(b);
  }

  lemma OddFour(a: bool, b: bool, c: bool, d: bool)
    ensures Odd([a, b, c, d]) == ((a != b) != (c != d))
  {
    hide Odd;
    OddTwo(a, b);
    OddTwo(c, d);
    OddConcat([a, b], [c, d]);
    assert [a, b, c, d] == [a, b] + [c, d];
  }

  lemma OddEight(a: bool, b: bool, c: bool, d: bool, e: bool, f: bool, g: bool, h: bool)
    ensures Odd([a, b, c, d, e, f, g, h]) == (((a != b) != (c != d)) != ((e != f) != (g != h)))
  {
    hide Odd;
    OddFour(a, b, c, d);
    OddFour(e, f, g, h);
    OddConcat([a, b, c, d], [e, f, g, h]);
    assert [a, b, c, d, e, f, g, h] == [a, b, c, d] + [e, f, g, h];
  }

  lemma OddParts(a: Polynomial, b: Polynomial, c: Polynomial, d: Polynomial)
    ensures Odd(a + b + c + d) == (((Odd(a) != Odd(b)) != Odd(c)) != Odd(d))
  {
    hide Odd;
    OddConcat(a, b);
    OddConcat(a + b, c);
    OddConcat(a + b + c, d);
  }

  lemma DivisorInParts()
    ensures |DIVISOR| == 33
    ensures DIVISOR[1..] == [false, false, false, true, true, true, true, false]
                            + [true, true, false, true, true, true, false, false]
                            + [false, true, true, false, true, true, true, true]
                            + [false, true, false, false, false, false, false, true]
  {
  }

  // The divisor has 18 terms, 17 of them after the first.
  lemma DivisorIsEven()
    ensures |DIVISOR| == 33 && Odd(DIVISOR[1..])
  {
    hide Odd, DIVISOR;
    DivisorInParts();
    OddEight(false, false, false, true, true, true, true, false);
    OddEight(true, true, false, true, true, true, false, false);
    OddEight(false, true, true, false, true, true, true, true);
    OddEight(false, true, false, false, false, false, false, true);
    OddParts([false, false, false, true, true, true, true, false],
             [true, true, false, true, true, true, false, false],
             [false, true, true, false, true, true, true, true],
             [false, true, false, false, false, false, false, true]);
  }

  lemma {:induction false} OddOnes(n: nat)
    ensures Odd(Repeat(true, n)) == (n % 2 == 1)
    decreases n
  {
    if n > 0 {
      assert Repeat(true, n)[1..] == Repeat(true, n - 1);
      OddOnes(n - 1);
    }
  }

  // A step changes the parity of the register by the coefficient fed.
  lemma StepParity(r: Polynomial, b: bool)
    requires |r| == 32
    ensures Odd(StepIn(r, b)) == (Odd(r) != b)
  {
    DivisorIsEven();
    hide DIVISOR;
    var shifted := r[1..] + [false];
    assert Odd(r) == (r[0] != Odd(r[1..]));
    hide Odd;
    OddOne(false);
    OddConcat(r[1..], [false]);
    OddAdd(shifted, DIVISOR[1..]);
  }

  lemma {:induction false} FeedParity(r: Polynomial, bits: Polynomial)
    requires |r| == 32
    ensures Odd(Feed(r, bits)) == (Odd(r) != Odd(bits))
    decreases |bits|
  {
    if |bits| > 0 {
      hide StepIn;
      StepParity(r, bits[0]);
      FeedParity(StepIn(r, bits[0]), bits[1..]);
    }
  }
}
