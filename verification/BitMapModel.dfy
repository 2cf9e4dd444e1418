/**
 The memory of the bitmap allocator: block headers, the walk that looks for a
 free block, and what allocating and freeing blocks of one size do to them.
 */
module BitMapModel {
  import opened Arithmetic
  import opened WordMemory

  const MAGIC: nat := 0x10210
  const PAGE_SIZE: nat := 0x1000

  // A header is three words: magic, size, used.
  const SIZE_OFFSET: nat := 8
  const USED_OFFSET: nat := 16
  const HEADER_SIZE: nat := 24

  // ------------------------------------------------------------------
  // Headers
  // ------------------------------------------------------------------

  predicate HasHeader(m: Memory, a: nat, size: nat, used: bool) {
    && Word(m, a) == MAGIC
    && Word(m, a + SIZE_OFFSET) == size
    && Word(m, a + USED_OFFSET) == if used then 1 else 0
  }

  // Takes the block at an address: the magic is written where it is missing.
  function Claim(m: Memory, a: nat, size: nat): Memory {
    var marked := if Word(m, a) == MAGIC then m else WriteWord(m, a, MAGIC);
    WriteWord(WriteWord(marked, a + SIZE_OFFSET, size), a + USED_OFFSET, 1)
  }

  function ClearUsed(m: Memory, a: nat): Memory {
    WriteWord(WriteWord(m, a, MAGIC), a + USED_OFFSET, 0)
  }

  lemma ClaimedHeader(m: Memory, a: nat, size: nat)
    requires size < TWO_64
    ensures HasHeader(Claim(m, a, size), a, size, true)
  {
    hide Word, WriteWord;
    var marked := if Word(m, a) == MAGIC then m else WriteWord(m, a, MAGIC);
    var sized := WriteWord(marked, a + SIZE_OFFSET, size);
    WordWritten(m, a, MAGIC);
    WordElsewhere(marked, a + SIZE_OFFSET, size, a);
    WordElsewhere(sized, a + USED_OFFSET, 1, a);
    WordWritten(marked, a + SIZE_OFFSET, size);
    WordElsewhere(sized, a + USED_OFFSET, 1, a + SIZE_OFFSET);
    WordWritten(sized, a + USED_OFFSET, 1);
  }

  lemma ClaimElsewhere(m: Memory, a: nat, size: nat, b: nat)
    requires b + 8 <= a || a + HEADER_SIZE <= b
    ensures Word(Claim(m, a, size), b) == Word(m, b)
  {
    hide Word, WriteWord;
    var marked := if Word(m, a) == MAGIC then m else WriteWord(m, a, MAGIC);
    WordElsewhere(m, a, MAGIC, b);
    WordElsewhere(marked, a + SIZE_OFFSET, size, b);
    WordElsewhere(WriteWord(marked, a + SIZE_OFFSET, size), a + USED_OFFSET, 1, b);
  }

  lemma ClearedHeader(m: Memory, a: nat, size: nat, used: bool)
    requires HasHeader(m, a, size, used)
    ensures HasHeader(ClearUsed(m, a), a, size, false)
  {
    hide Word, WriteWord;
    var marked := WriteWord(m, a, MAGIC);
    WordWritten(m, a, MAGIC);
    WordElsewhere(m, a, MAGIC, a + SIZE_OFFSET);
    WordElsewhere(marked, a + USED_OFFSET, 0, a);
    WordElsewhere(marked, a + USED_OFFSET, 0, a + SIZE_OFFSET);
    WordWritten(marked, a + USED_OFFSET, 0);
  }

  lemma ClearElsewhere(m: Memory, a: nat, b: nat)
    requires b + 8 <= a || a + HEADER_SIZE <= b
    ensures Word(ClearUsed(m, a), b) == Word(m, b)
  {
    hide Word, WriteWord;
    WordElsewhere(m, a, MAGIC, b);
    WordElsewhere(WriteWord(m, a, MAGIC), a + USED_OFFSET, 0, b);
  }

  // ------------------------------------------------------------------
  // The walk
  // ------------------------------------------------------------------

  // The walk for a size stops here: no header, or a free block that is not larger.
  predicate Fits(m: Memory, a: nat, size: nat) {
    Word(m, a) != MAGIC || (Word(m, a + SIZE_OFFSET) <= size && Word(m, a + USED_OFFSET) == 0)
  }

  // The address the walk looks at after k steps.
  function Place(m: Memory, base: nat, size: nat, k: nat): nat {
    if k == 0 then base
    else
      var a := Place(m, base, size, k - 1);
      a + if Word(m, a) != MAGIC then size else Word(m, a + SIZE_OFFSET)
  }

  ghost predicate StopsAfter(m: Memory, base: nat, size: nat, k: nat) {
    && Fits(m, Place(m, base, size, k), size)
    && forall j: nat :: j < k ==> !Fits(m, Place(m, base, size, j), size)
  }

  /** The walk ends. It does not where it meets a used block of size zero, say. */
  ghost predicate Ends(m: Memory, base: nat, size: nat) {
    exists k: nat :: StopsAfter(m, base, size, k)
  }

  ghost function FirstFit(m: Memory, base: nat, size: nat): nat
    requires Ends(m, base, size)
  {
    var k: nat :| StopsAfter(m, base, size, k);
    Place(m, base, size, k)
  }

  lemma FirstFitIs(m: Memory, base: nat, size: nat, k: nat)
    requires StopsAfter(m, base, size, k)
    ensures Ends(m, base, size) && FirstFit(m, base, size) == Place(m, base, size, k)
  {
    hide Fits, Place;
    var j: nat :| StopsAfter(m, base, size, j) && FirstFit(m, base, size) == Place(m, base, size, j);
    assert j == k;
  }

  // ------------------------------------------------------------------
  // Blocks of one size
  // ------------------------------------------------------------------

  function Block(start: nat, size: nat, k: nat): nat { start + Times(k, size) }

  lemma BlocksApart(start: nat, size: nat, j: nat, k: nat)
    requires j < k
    ensures Block(start, size, j) + size <= Block(start, size, k)
  {
    hide Times;
    TimesMonotone(j + 1, k, size);
    TimesNext(j, size);
  }

  lemma NextBlock(start: nat, size: nat, k: nat)
    ensures Block(start, size, 0) == start
    ensures Block(start, size, k + 1) == Block(start, size, k) + size
  {
    hide Times;
    TimesNext(k, size);
    TimesOne(size);
  }

  /** The first n blocks tile their area: every byte of it lies in exactly one. */
  lemma BlocksTile(start: nat, size: nat, n: nat, a: nat)
    requires size > 0 && start <= a < Block(start, size, n)
    ensures exists k :: 0 <= k < n && Block(start, size, k) <= a < Block(start, size, k) + size
    ensures forall j, k :: 0 <= j < k < n ==>
              !(Block(start, size, j) <= a < Block(start, size, j) + size
                && Block(start, size, k) <= a < Block(start, size, k) + size)
  {
    hide Times, Quot, Rem;
    var k := Quot(a - start, size);
    Division(a - start, size);
    QuotBound(a - start, size, n);
    assert Block(start, size, k) <= a < Block(start, size, k) + size;
    forall j, k | 0 <= j < k < n
      ensures Block(start, size, j) + size <= Block(start, size, k)
    {
      BlocksApart(start, size, j, k);
    }
  }

  /** Headers stand at the first |used| blocks. */
  ghost predicate Headers(m: Memory, start: nat, size: nat, used: seq<bool>) {
    forall k: nat :: k < |used| ==> HasHeader(m, Block(start, size, k), size, used[k])
  }

  // No magic lies where block number n or a later one would start.
  ghost predicate NoMagicFrom(m: Memory, start: nat, size: nat, n: nat) {
    forall k: nat :: n <= k ==> Word(m, Block(start, size, k)) != MAGIC
  }

  /** Headers stand exactly at the blocks below the frontier |used|. */
  ghost predicate Formed(m: Memory, start: nat, size: nat, used: seq<bool>) {
    && HEADER_SIZE <= size < TWO_64 && start >= PAGE_SIZE
    && Headers(m, start, size, used) && NoMagicFrom(m, start, size, |used|)
  }

  // The lowest block not in use: the frontier when all are.
  function FirstFree(used: seq<bool>): (k: nat)
    ensures k <= |used|
    ensures forall j :: 0 <= j < k ==> used[j]
    ensures k < |used| ==> !used[k]
  {
    if used == [] || !used[0] then 0 else 1 + FirstFree(used[1..])
  }

  function Taken(used: seq<bool>): (after: seq<bool>)
    ensures |used| <= |after| && FirstFree(used) < |after|
  {
    var k := FirstFree(used);
    if k < |used| then used[k := true] else used + [true]
  }

  // Memories that differ at most in the block numbered k agree on every other header.
  ghost predicate DifferInBlock(m: Memory, m': Memory, start: nat, size: nat, k: nat) {
    var a := Block(start, size, k);
    forall b: nat :: b + 8 <= a || a + size <= b ==> Word(m', b) == Word(m, b)
  }

  lemma OthersKept(m: Memory, m': Memory, start: nat, size: nat, used: seq<bool>, k: nat, after: seq<bool>)
    requires Formed(m, start, size, used) && DifferInBlock(m, m', start, size, k)
    requires k < |after| && |used| <= |after| <= |used| + 1 && (|after| > |used| ==> k == |used|)
    requires forall j :: 0 <= j < |used| && j != k ==> after[j] == used[j]
    requires HasHeader(m', Block(start, size, k), size, after[k])
    ensures Formed(m', start, size, after)
  {
    hide Word;
    forall j: nat
      ensures j < |after| ==> HasHeader(m', Block(start, size, j), size, after[j])
      ensures |after| <= j ==> Word(m', Block(start, size, j)) != MAGIC
    {
      if j < k { BlocksApart(start, size, j, k); } else if k < j { BlocksApart(start, size, k, j); }
      hide Block;
      if j < |used| { assert HasHeader(m, Block(start, size, j), size, used[j]); }
    }
  }

  lemma AllocateKeepsFormed(m: Memory, start: nat, size: nat, used: seq<bool>)
    requires Formed(m, start, size, used)
    ensures Formed(Claim(m, Block(start, size, FirstFree(used)), size), start, size, Taken(used))
  {
    hide Word, Block, Claim, FirstFree, Headers, NoMagicFrom, HasHeader;
    var a := Block(start, size, FirstFree(used));
    ClaimStaysInBlock(m, a, size);
    OthersKept(m, Claim(m, a, size), start, size, used, FirstFree(used), Taken(used));
  }

  lemma ClaimStaysInBlock(m: Memory, a: nat, size: nat)
    requires HEADER_SIZE <= size < TWO_64
    ensures HasHeader(Claim(m, a, size), a, size, true)
    ensures forall b: nat :: b + 8 <= a || a + size <= b ==> Word(Claim(m, a, size), b) == Word(m, b)
  {
    hide Word, Claim;
    ClaimedHeader(m, a, size);
    forall b: nat | b + 8 <= a || a + size <= b
      ensures Word(Claim(m, a, size), b) == Word(m, b)
    {
      ClaimElsewhere(m, a, size, b);
    }
  }

  lemma FreeKeepsFormed(m: Memory, start: nat, size: nat, used: seq<bool>, k: nat)
    requires Formed(m, start, size, used) && k < |used|
    ensures Formed(ClearUsed(m, Block(start, size, k)), start, size, used[k := false])
  {
    hide Word, Block, ClearUsed, Headers, NoMagicFrom, HasHeader;
    HeaderAt(m, start, size, used, k);
    ClearStaysInBlock(m, Block(start, size, k), size, used[k]);
    OthersKept(m, ClearUsed(m, Block(start, size, k)), start, size, used, k, used[k := false]);
  }

  lemma HeaderAt(m: Memory, start: nat, size: nat, used: seq<bool>, k: nat)
    requires Headers(m, start, size, used) && k < |used|
    ensures HasHeader(m, Block(start, size, k), size, used[k])
  {
    hide HasHeader, Block;
  }

  lemma ClearStaysInBlock(m: Memory, a: nat, size: nat, used: bool)
    requires HEADER_SIZE <= size && HasHeader(m, a, size, used)
    ensures HasHeader(ClearUsed(m, a), a, size, false)
    ensures forall b: nat :: b + 8 <= a || a + size <= b ==> Word(ClearUsed(m, a), b) == Word(m, b)
  {
    hide Word, ClearUsed;
    ClearedHeader(m, a, size, used);
    forall b: nat | b + 8 <= a || a + size <= b
      ensures Word(ClearUsed(m, a), b) == Word(m, b)
    {
      ClearElsewhere(m, a, b);
    }
  }

  /** A client may write any byte of a block after its header. */
  lemma ClientWriteKeepsFormed(m: Memory, start: nat, size: nat, used: seq<bool>, k: nat, offset: nat, v: Byte)
    requires Formed(m, start, size, used) && k < |used| && HEADER_SIZE <= offset < size
    ensures Formed(m[Block(start, size, k) + offset := v], start, size, used)
  {
    hide Word, Block, Headers, NoMagicFrom, HasHeader;
    var a := Block(start, size, k);
    HeaderAt(m, start, size, used, k);
    ClientStaysInBlock(m, a, size, used[k], offset, v);
    OthersKept(m, m[a + offset := v], start, size, used, k, used);
  }

  lemma ClientStaysInBlock(m: Memory, a: nat, size: nat, used: bool, offset: nat, v: Byte)
    requires HEADER_SIZE <= offset < size && HasHeader(m, a, size, used)
    ensures HasHeader(m[a + offset := v], a, size, used)
    ensures forall b: nat :: b + 8 <= a || a + size <= b ==> Word(m[a + offset := v], b) == Word(m, b)
  {
    hide Word;
    forall b: nat | b + 8 <= a + offset || a + offset < b
      ensures Word(m[a + offset := v], b) == Word(m, b)
    {
      ByteWriteElsewhere(m, a + offset, v, b);
    }
  }

  // ------------------------------------------------------------------
  // The walk over blocks of one size
  // ------------------------------------------------------------------

  lemma {:induction false} WalkVisitsBlocks(m: Memory, start: nat, size: nat, used: seq<bool>, k: nat)
    requires Formed(m, start, size, used) && k <= |used|
    ensures Place(m, start, size, k) == Block(start, size, k)
    decreases k
  {
    hide Word, Block;
    NextBlock(start, size, if k == 0 then 0 else k - 1);
    if k > 0 {
      WalkVisitsBlocks(m, start, size, used, k - 1);
      assert HasHeader(m, Block(start, size, k - 1), size, used[k - 1]);
    }
  }

  /** On a formed area the walk ends, at the lowest block not in use. */
  lemma FirstFitIsFirstFree(m: Memory, start: nat, size: nat, used: seq<bool>)
    requires Formed(m, start, size, used)
    ensures Ends(m, start, size) && FirstFit(m, start, size) == Block(start, size, FirstFree(used))
  {
    var k := FirstFree(used);
    forall j: nat | j <= k
      ensures Place(m, start, size, j) == Block(start, size, j)
      ensures Fits(m, Block(start, size, j), size) <==> j == k
    {
      WalkVisitsBlocks(m, start, size, used, j);
      hide Word, Block, Place;
      assert j < |used| ==> HasHeader(m, Block(start, size, j), size, used[j]);
    }
    hide Place, Block, Fits, Formed, FirstFree;
    assert StopsAfter(m, start, size, k);
    FirstFitIs(m, start, size, k);
  }

  // ------------------------------------------------------------------
  // Runs
  // ------------------------------------------------------------------

  datatype Event =
    | Allocate
    | Free(block: nat)                               // the pointer an allocation returned
    | FreeElsewhere(pointer: nat)                    // a pointer to no magic
    | ClientWrite(block: nat, offset: nat, v: Byte)  // behind the header

  datatype Area = Area(memory: Memory, start: nat, size: nat, used: seq<bool>)

  ghost predicate EventDefined(s: Area, e: Event) {
    match e
    case Allocate => Ends(s.memory, s.start, s.size)
    case Free(k) => k < |s.used|
    case FreeElsewhere(p) => Word(s.memory, p) != MAGIC
    case ClientWrite(k, offset, _) => k < |s.used| && HEADER_SIZE <= offset < s.size
  }

  ghost function Step(s: Area, e: Event): Area
    requires EventDefined(s, e)
  {
    match e
    case Allocate =>
      s.(memory := Claim(s.memory, FirstFit(s.memory, s.start, s.size), s.size), used := Taken(s.used))
    case Free(k) =>
      s.(memory := ClearUsed(s.memory, Block(s.start, s.size, k)), used := s.used[k := false])
    case FreeElsewhere(_) => s
    case ClientWrite(k, offset, v) =>
      s.(memory := s.memory[Block(s.start, s.size, k) + offset := v])
  }

  ghost predicate RunDefined(s: Area, events: seq<Event>)
    decreases |events|
  {
    |events| > 0 ==> EventDefined(s, events[0]) && RunDefined(Step(s, events[0]), events[1..])
  }

  ghost function Run(s: Area, events: seq<Event>): Area
    requires RunDefined(s, events)
    decreases |events|
  {
    if |events| == 0 then s else Run(Step(s, events[0]), events[1..])
  }

  ghost predicate AreaFormed(s: Area) { Formed(s.memory, s.start, s.size, s.used) }

  ghost predicate AreaHeaders(s: Area) { Headers(s.memory, s.start, s.size, s.used) }

  lemma StepKeepsFormed(s: Area, e: Event)
    requires AreaFormed(s) && EventDefined(s, e)
    ensures AreaFormed(Step(s, e)) && Step(s, e).start == s.start && Step(s, e).size == s.size
  {
    hide Formed, Claim, FirstFit, Block, Ends, ClearUsed, Word;
    match e
    case Allocate =>
      FirstFitIsFirstFree(s.memory, s.start, s.size, s.used);
      AllocateKeepsFormed(s.memory, s.start, s.size, s.used);
    case Free(k) => FreeKeepsFormed(s.memory, s.start, s.size, s.used, k);
    case FreeElsewhere(_) =>
    case ClientWrite(k, offset, v) => ClientWriteKeepsFormed(s.memory, s.start, s.size, s.used, k, offset, v);
  }

  // The blocks in use.
  function Live(used: seq<bool>): set<nat> { set k: nat | k < |used| && used[k] }

  /** From memory without magic at the blocks' places, over every run of
      allocations, frees and client writes, headers and frontier stay formed and
      the blocks in use are pairwise disjoint. */
  lemma {:induction false} RunsKeepFormed(s: Area, events: seq<Event>)
    requires AreaFormed(s) && RunDefined(s, events)
    ensures var t := Run(s, events);
            && t.start == s.start && t.size == s.size && AreaFormed(t)
            && forall j, k :: j in Live(t.used) && k in Live(t.used) && j < k ==>
                 Block(t.start, t.size, j) + t.size <= Block(t.start, t.size, k)
    decreases |events|
  {
    if |events| > 0 {
      hide AreaFormed, Step, EventDefined, Live;
      StepKeepsFormed(s, events[0]);
      RunsKeepFormed(Step(s, events[0]), events[1..]);
    } else {
      forall j, k | j in Live(s.used) && k in Live(s.used) && j < k
        ensures Block(s.start, s.size, j) + s.size <= Block(s.start, s.size, k)
      {
        BlocksApart(s.start, s.size, j, k);
      }
    }
  }

  /** An allocation takes the lowest block that is not in use, and only it; a
      free gives back exactly its block. */
  lemma StepsOnLiveBlocks(s: Area, e: Event)
    requires AreaFormed(s) && EventDefined(s, e)
    ensures var k := FirstFree(s.used);
            e == Allocate ==>
              && FirstFit(s.memory, s.start, s.size) == Block(s.start, s.size, k)
              && k !in Live(s.used) && (forall j :: 0 <= j < k ==> j in Live(s.used))
              && Live(Step(s, e).used) == Live(s.used) + {k}
    ensures e.Free? ==> Live(Step(s, e).used) == Live(s.used) - {e.block}
    ensures e.FreeElsewhere? || e.ClientWrite? ==> Live(Step(s, e).used) == Live(s.used)
  {
    hide Formed, Claim, FirstFit, Block, Ends, ClearUsed, Word;
    FirstFitIsFirstFree(s.memory, s.start, s.size, s.used);
  }

  // ------------------------------------------------------------------
  // Which sizes keep their headers
  // ------------------------------------------------------------------

  // Byte i of the header of a used block.
  function HeaderByte(size: nat, i: nat): Byte {
    if i < 8 then ByteOf(MAGIC, i) else if i < 16 then ByteOf(size, i - 8) else ByteOf(1, i - 16)
  }

  lemma HeaderBytes(m: Memory, a: nat, size: nat, i: nat)
    requires HasHeader(m, a, size, true) && i < HEADER_SIZE
    ensures ByteAt(m, a + i) == HeaderByte(size, i)
  {
    hide Word, ByteOf, ByteAt;
    if i < 8 {
      BytesOfWord(m, a, i);
    } else if i < 16 {
      BytesOfWord(m, a + SIZE_OFFSET, i - 8);
    } else {
      BytesOfWord(m, a + USED_OFFSET, i - 16);
    }
  }

  // No header has the first byte of the magic as far into it as its block is long.
  lemma NoMagicInside(size: nat)
    requires 0 < size < HEADER_SIZE
    ensures HeaderByte(size, size) != HeaderByte(size, 0)
  {
    assert ByteOf(MAGIC, 0) == 0x10;
    if size < 8 {
      assert ByteOf(MAGIC, size) == ByteOf(0x102, size - 1);
      if size > 1 { SmallNumberBytes(1, size - 2); }
    } else if size < 16 {
      SmallNumberBytes(size, size - 8);
    } else {
      SmallNumberBytes(1, size - 16);
    }
  }

  // A block too short for a header ends inside it, at no magic, and the next
  // header written there destroys it.
  lemma ShortBlockOverlaps(m: Memory, a: nat, size: nat)
    requires 0 < size < HEADER_SIZE && HasHeader(m, a, size, true)
    ensures Word(m, a + size) != MAGIC
    ensures !HasHeader(Claim(m, a + size, size), a, size, true)
  {
    hide Word, ByteOf, ByteAt, Claim, HeaderByte;
    NoMagicInside(size);
    MagicStarts(m, a + size, size);
    HeaderBytes(m, a, size, size);
    var m' := Claim(m, a + size, size);
    ClaimedHeader(m, a + size, size);
    HeaderBytes(m', a + size, size, 0);
    if HasHeader(m', a, size, true) { HeaderBytes(m', a, size, size); }
  }

  lemma MagicStarts(m: Memory, a: nat, size: nat)
    ensures Word(m, a) == MAGIC ==> ByteAt(m, a) == HeaderByte(size, 0)
  {
    hide Word, ByteOf, ByteAt;
    BytesOfWord(m, a, 0);
  }

  // Two allocations from untouched memory, of blocks too short for a header.
  lemma ShortBlocksLoseHeaders(start: nat, size: nat)
    requires 0 < size < HEADER_SIZE
    ensures var s, events := Area(map[], start, size, []), [Allocate, Allocate];
            && NoMagicFrom(s.memory, start, size, 0)
            && RunDefined(s, events) && !AreaHeaders(Run(s, events))
  {
    hide Word, Claim, Ends, FirstFit, Block, NoMagicFrom, Taken, Headers, RunDefined, Run, HasHeader, Step;
    var m0: Memory := map[];
    var m1 := Claim(m0, start, size);
    var m2 := Claim(m1, start + size, size);
    NothingIsMagic(start, size);
    StopsAtOnce(m0, start, size);
    ClaimedHeader(m0, start, size);
    ShortBlockOverlaps(m1, start, size);
    StopsAtSecond(m1, start, size);
    Allocated(Area(m0, start, size, []), start);
    Allocated(Area(m1, start, size, [true]), start + size);
    TakenTwice();
    TwoSteps(Area(m0, start, size, []), Allocate, Allocate);
    if Headers(m2, start, size, [true, true]) { FirstHeader(m2, start, size, [true, true]); }
  }

  lemma Allocated(s: Area, a: nat)
    requires Ends(s.memory, s.start, s.size) && FirstFit(s.memory, s.start, s.size) == a
    ensures EventDefined(s, Allocate)
    ensures Step(s, Allocate) == s.(memory := Claim(s.memory, a, s.size), used := Taken(s.used))
  {
    hide Claim, FirstFit, Ends, Taken;
  }

  lemma TwoSteps(s: Area, e: Event, f: Event)
    requires EventDefined(s, e) && EventDefined(Step(s, e), f)
    ensures RunDefined(s, [e, f]) && Run(s, [e, f]) == Step(Step(s, e), f)
  {
    hide EventDefined, Step;
    var t := Step(s, e);
    assert [e, f][1..] == [f] && [f][1..] == [];
    assert RunDefined(Step(t, f), []) && Run(Step(t, f), []) == Step(t, f);
    assert RunDefined(t, [f]) && Run(t, [f]) == Step(t, f);
  }

  lemma FirstHeader(m: Memory, start: nat, size: nat, used: seq<bool>)
    requires |used| > 0 && Headers(m, start, size, used)
    ensures HasHeader(m, start, size, used[0])
  {
    hide HasHeader;
    NextBlock(start, size, 0);
    HeaderAt(m, start, size, used, 0);
  }

  lemma TakenTwice()
    ensures Taken([]) == [true] && Taken([true]) == [true, true]
  {
    assert [true][1..] == [];
    assert FirstFree([]) == 0 && FirstFree([true]) == 1;
  }

  lemma NothingIsMagic(start: nat, size: nat)
    ensures NoMagicFrom(map[], start, size, 0) && Word(map[], start) != MAGIC
  {
    hide Block;
    var m: Memory := map[];
    forall a: nat
      ensures Word(m, a) == 0
    {
      WordOfNothing(a, 8);
    }
    assert Word(m, start) == 0;
  }

  lemma StopsAtOnce(m: Memory, start: nat, size: nat)
    requires Word(m, start) != MAGIC
    ensures Ends(m, start, size) && FirstFit(m, start, size) == start
  {
    hide Word;
    assert Place(m, start, size, 0) == start;
    assert StopsAfter(m, start, size, 0);
    FirstFitIs(m, start, size, 0);
  }

  lemma StopsAtSecond(m: Memory, start: nat, size: nat)
    requires HasHeader(m, start, size, true) && Word(m, start + size) != MAGIC
    ensures Ends(m, start, size) && FirstFit(m, start, size) == start + size
  {
    hide Word;
    assert Place(m, start, size, 0) == start && Place(m, start, size, 1) == start + size;
    assert StopsAfter(m, start, size, 1);
    FirstFitIs(m, start, size, 1);
  }

  /** Every run from an area without magic leaves the headers of all its blocks intact. */
  ghost predicate KeepsHeaders(size: nat) {
    forall m: Memory, start: nat, events: seq<Event> ::
      start >= PAGE_SIZE && NoMagicFrom(m, start, size, 0) && RunDefined(Area(m, start, size, []), events) ==>
        AreaHeaders(Run(Area(m, start, size, []), events))
  }

  /** A size keeps its headers if and only if a block has room for one. */
  lemma HeadersKeptExactly(size: nat)
    requires 0 < size < TWO_64
    ensures KeepsHeaders(size) <==> size >= HEADER_SIZE
  {
    hide NoMagicFrom, RunDefined, Run, AreaHeaders;
    if size >= HEADER_SIZE {
      forall m: Memory, start: nat, events: seq<Event>
        | start >= PAGE_SIZE && NoMagicFrom(m, start, size, 0) && RunDefined(Area(m, start, size, []), events)
        ensures AreaHeaders(Run(Area(m, start, size, []), events))
      {
        LongBlocksKeepHeaders(m, start, size, events);
      }
    } else {
      ShortBlocksLoseHeaders(PAGE_SIZE, size);
    }
  }

  lemma LongBlocksKeepHeaders(m: Memory, start: nat, size: nat, events: seq<Event>)
    requires HEADER_SIZE <= size < TWO_64 && start >= PAGE_SIZE && NoMagicFrom(m, start, size, 0)
    requires RunDefined(Area(m, start, size, []), events)
    ensures AreaHeaders(Run(Area(m, start, size, []), events))
  {
    hide NoMagicFrom, RunDefined, Run, Live;
    RunsKeepFormed(Area(m, start, size, []), events);
  }
}
