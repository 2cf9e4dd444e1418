/** Memory as bytes, and little-endian words of eight of them at any address. */
module WordMemory {
  import opened Arithmetic

  type Byte = x: nat | x < 256

  // What was never written is zero.
  type Memory = map<nat, Byte>

  function ByteAt(m: Memory, a: nat): Byte { if a in m then m[a] else 0 }

  // The i-th byte of a number.
  function ByteOf(w: nat, i: nat): Byte
    decreases i
  {
    if i == 0 then w % 256 else ByteOf(w / 256, i - 1)
  }

  function Pow256(n: nat): nat { if n == 0 then 1 else 256 * Pow256(n - 1) }

  function Read(m: Memory, a: nat, n: nat): (w: nat)
    ensures w < Pow256(n)
    decreases n
  {
    if n == 0 then 0 else ByteAt(m, a) + 256 * Read(m, a + 1, n - 1)
  }

  function Write(m: Memory, a: nat, w: nat, n: nat): Memory
    decreases n
  {
    if n == 0 then m else Write(m[a := w % 256], a + 1, w / 256, n - 1)
  }

  function Word(m: Memory, a: nat): (w: nat)
    ensures w < TWO_64
  {
    EightBytes();
    Read(m, a, 8)
  }

  function WriteWord(m: Memory, a: nat, w: nat): Memory { Write(m, a, w, 8) }

  lemma EightBytes()
    ensures Pow256(8) == TWO_64
  {
    assert Pow256(2) == 0x1_0000;
    assert Pow256(4) == 0x1_0000_0000;
    assert Pow256(6) == 0x1_0000_0000_0000;
  }

  lemma {:induction false} WrittenByte(m: Memory, a: nat, w: nat, n: nat, b: nat)
    ensures ByteAt(Write(m, a, w, n), b) == if a <= b < a + n then ByteOf(w, b - a) else ByteAt(m, b)
    decreases n
  {
    if n > 0 {
      WrittenByte(m[a := w % 256], a + 1, w / 256, n - 1, b);
    }
  }

  lemma {:induction false} SameBytesSameRead(m: Memory, m': Memory, a: nat, n: nat)
    requires forall b: nat :: a <= b < a + n ==> ByteAt(m, b) == ByteAt(m', b)
    ensures Read(m, a, n) == Read(m', a, n)
    decreases n
  {
    if n > 0 {
      hide ByteAt;
      SameBytesSameRead(m, m', a + 1, n - 1);
    }
  }

  lemma {:induction false} ReadBack(m: Memory, a: nat, w: nat, n: nat)
    requires w < Pow256(n)
    ensures Read(Write(m, a, w, n), a, n) == w
    decreases n
  {
    if n > 0 {
      ReadBack(m[a := w % 256], a + 1, w / 256, n - 1);
      WrittenByte(m, a, w, n, a);
      hide ByteAt, ByteOf;
      assert ByteOf(w, 0) == w % 256;
    }
  }

  lemma ByteOfSum(low: Byte, rest: nat, i: nat)
    ensures ByteOf(low + 256 * rest, i) == if i == 0 then low else ByteOf(rest, i - 1)
  {
    assert (low + 256 * rest) / 256 == rest;
  }

  lemma {:induction false} BytesOfRead(m: Memory, a: nat, n: nat, i: nat)
    requires i < n
    ensures ByteOf(Read(m, a, n), i) == ByteAt(m, a + i)
    decreases n
  {
    var low, rest := ByteAt(m, a), Read(m, a + 1, n - 1);
    assert Read(m, a, n) == low + 256 * rest;
    hide ByteAt, ByteOf, Read;
    ByteOfSum(low, rest, i);
    if i > 0 { BytesOfRead(m, a + 1, n - 1, i - 1); }
  }

  // ------------------------------------------------------------------
  // Words
  // ------------------------------------------------------------------

  lemma WordWritten(m: Memory, a: nat, w: nat)
    requires w < TWO_64
    ensures Word(WriteWord(m, a, w), a) == w
  {
    hide Read, Write, Pow256;
    EightBytes();
    ReadBack(m, a, w, 8);
  }

  lemma WordElsewhere(m: Memory, a: nat, w: nat, b: nat)
    requires b + 8 <= a || a + 8 <= b
    ensures Word(WriteWord(m, a, w), b) == Word(m, b)
  {
    hide ByteAt, ByteOf, Read, Write, Pow256;
    forall c: nat | b <= c < b + 8
      ensures ByteAt(WriteWord(m, a, w), c) == ByteAt(m, c)
    {
      WrittenByte(m, a, w, 8, c);
    }
    SameBytesSameRead(WriteWord(m, a, w), m, b, 8);
  }

  lemma ByteWriteElsewhere(m: Memory, a: nat, v: Byte, b: nat)
    requires a < b || b + 8 <= a
    ensures Word(m[a := v], b) == Word(m, b)
  {
    assert forall c: nat :: c != a ==> ByteAt(m[a := v], c) == ByteAt(m, c);
    hide ByteAt, Read, Pow256;
    SameBytesSameRead(m[a := v], m, b, 8);
  }

  lemma BytesOfWord(m: Memory, a: nat, i: nat)
    requires i < 8
    ensures ByteOf(Word(m, a), i) == ByteAt(m, a + i)
  {
    hide ByteAt, ByteOf, Read, Pow256;
    BytesOfRead(m, a, 8, i);
  }

  lemma {:induction false} WordOfNothing(a: nat, n: nat)
    ensures Read(map[], a, n) == 0
    decreases n
  {
    if n > 0 { WordOfNothing(a + 1, n - 1); }
  }

  lemma {:induction false} SmallNumberBytes(w: nat, i: nat)
    requires w < 256
    ensures ByteOf(w, i) == if i == 0 then w else 0
    decreases i
  {
    if i > 0 { SmallNumberBytes(0, i - 1); }
  }
}
