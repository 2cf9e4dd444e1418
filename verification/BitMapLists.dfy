/**
 The allocator's walk over blocks of any sizes: which block an allocation takes,
 and exactly when it leaves the other blocks alone.
 */
module BitMapLists {
  import opened Arithmetic
  import opened BitMapModel
  import opened WordMemory

  // A block's size, its header included, and whether it is in use.
  datatype Entry = Entry(size: nat, used: bool)

  function SizesBelow(blocks: seq<Entry>, k: nat): nat
    requires k <= |blocks|
  {
    if k == 0 then 0 else SizesBelow(blocks, k - 1) + blocks[k - 1].size
  }

  // Where block k starts; for k == |blocks|, the frontier.
  function Start(first: nat, blocks: seq<Entry>, k: nat): nat
    requires k <= |blocks|
  {
    first + SizesBelow(blocks, k)
  }

  /** The headers of the blocks stand one after another from the first address on,
      and no magic lies at the frontier. */
  ghost predicate Listed(m: Memory, first: nat, blocks: seq<Entry>) {
    && (forall k: nat :: k < |blocks| ==>
          && HEADER_SIZE <= blocks[k].size < TWO_64
          && HasHeader(m, Start(first, blocks, k), blocks[k].size, blocks[k].used))
    && Word(m, Start(first, blocks, |blocks|)) != MAGIC
  }

  /** Block k is the lowest that is not in use and not larger than the request, or
      the frontier when there is none. */
  predicate IsLowestFit(blocks: seq<Entry>, size: nat, k: nat) {
    && k <= |blocks|
    && (forall j: nat :: j < k ==> blocks[j].used || blocks[j].size > size)
    && (k < |blocks| ==> !blocks[k].used && blocks[k].size <= size)
  }

  function LowestFitFrom(blocks: seq<Entry>, size: nat, from: nat): (k: nat)
    requires from <= |blocks|
    requires forall j: nat :: j < from ==> blocks[j].used || blocks[j].size > size
    ensures IsLowestFit(blocks, size, k)
    decreases |blocks| - from
  {
    if from < |blocks| && (blocks[from].used || blocks[from].size > size) then LowestFitFrom(blocks, size, from + 1)
    else from
  }

  // ------------------------------------------------------------------
  // The walk
  // ------------------------------------------------------------------

  lemma ListedHeader(m: Memory, first: nat, blocks: seq<Entry>, k: nat)
    requires Listed(m, first, blocks) && k < |blocks|
    ensures HasHeader(m, Start(first, blocks, k), blocks[k].size, blocks[k].used)
    ensures HEADER_SIZE <= blocks[k].size < TWO_64
  {
    hide HasHeader, Start;
  }

  lemma {:induction false} WalkVisitsList(m: Memory, first: nat, blocks: seq<Entry>, size: nat, k: nat)
    requires Listed(m, first, blocks) && k <= |blocks|
    ensures Place(m, first, size, k) == Start(first, blocks, k)
    decreases k
  {
    hide Word, Listed;
    if k > 0 {
      WalkVisitsList(m, first, blocks, size, k - 1);
      ListedHeader(m, first, blocks, k - 1);
    }
  }

  lemma FitsInList(m: Memory, first: nat, blocks: seq<Entry>, size: nat, k: nat)
    requires Listed(m, first, blocks) && k <= |blocks|
    ensures Fits(m, Start(first, blocks, k), size) <==>
            k == |blocks| || (!blocks[k].used && blocks[k].size <= size)
  {
    hide Word, Start;
    if k < |blocks| { ListedHeader(m, first, blocks, k); }
  }

  /** Over a list of blocks of any sizes the walk ends, at the lowest unused block
      that is not larger than the request, or at the frontier. */
  lemma WalkEndsAtLowestFit(m: Memory, first: nat, blocks: seq<Entry>, size: nat, k: nat)
    requires Listed(m, first, blocks) && IsLowestFit(blocks, size, k)
    ensures Ends(m, first, size) && FirstFit(m, first, size) == Start(first, blocks, k)
  {
    hide Listed, Fits, Start, Place;
    forall j: nat | j <= k
      ensures Fits(m, Place(m, first, size, j), size) <==> j == k
    {
      WalkVisitsList(m, first, blocks, size, j);
      FitsInList(m, first, blocks, size, j);
    }
    WalkVisitsList(m, first, blocks, size, k);
    assert StopsAfter(m, first, size, k);
    FirstFitIs(m, first, size, k);
  }

  lemma ClaimKeepsBytes(m: Memory, a: nat, size: nat, b: nat)
    requires b < a || a + HEADER_SIZE <= b
    ensures ByteAt(Claim(m, a, size), b) == ByteAt(m, b)
  {
    hide Word, ByteAt, ByteOf, Write;
    var marked := if Word(m, a) == MAGIC then m else WriteWord(m, a, MAGIC);
    WrittenByte(m, a, MAGIC, 8, b);
    WrittenByte(marked, a + SIZE_OFFSET, size, 8, b);
    WrittenByte(WriteWord(marked, a + SIZE_OFFSET, size), a + USED_OFFSET, 1, 8, b);
  }

  // ------------------------------------------------------------------
  // When the other blocks are left alone
  // ------------------------------------------------------------------

  lemma {:induction false} StartsApart(first: nat, blocks: seq<Entry>, j: nat, k: nat)
    requires j < k <= |blocks|
    ensures Start(first, blocks, j) + blocks[j].size <= Start(first, blocks, k)
    decreases k
  {
    if j < k - 1 { StartsApart(first, blocks, j, k - 1); }
  }

  predicate Overlap(a: nat, size: nat, b: nat, other: nat) { a < b + other && b < a + size }

  /** What an allocation hands out overlaps another block exactly when the block
      taken is smaller than the request and not the last. */
  lemma OverlapsExactly(first: nat, blocks: seq<Entry>, size: nat, k: nat)
    requires IsLowestFit(blocks, size, k) && forall j: nat :: j < |blocks| ==> blocks[j].size > 0
    ensures (exists j: nat :: j < |blocks| && j != k
               && Overlap(Start(first, blocks, k), size, Start(first, blocks, j), blocks[j].size))
            <==> k + 1 < |blocks| && blocks[k].size < size
  {
    forall j: nat | j < |blocks| && j != k
      ensures if j < k then Start(first, blocks, j) + blocks[j].size <= Start(first, blocks, k)
              else Start(first, blocks, k) + blocks[k].size <= Start(first, blocks, j)
    {
      if j < k { StartsApart(first, blocks, j, k); } else { StartsApart(first, blocks, k, j); }
    }
    if k + 1 < |blocks| && blocks[k].size < size {
      var j := k + 1;
      assert Start(first, blocks, j) == Start(first, blocks, k) + blocks[k].size;
      assert Overlap(Start(first, blocks, k), size, Start(first, blocks, j), blocks[j].size);
    }
    hide Start;
  }

  // The list after an allocation that leaves every block its size.
  function AfterTaking(blocks: seq<Entry>, size: nat, k: nat): (after: seq<Entry>)
    requires k <= |blocks|
    ensures |after| == if k == |blocks| then |blocks| + 1 else |blocks|
  {
    if k == |blocks| then blocks + [Entry(size, true)] else blocks[k := blocks[k].(used := true)]
  }

  lemma {:induction false} SameStarts(first: nat, blocks: seq<Entry>, size: nat, k: nat, j: nat)
    requires k <= |blocks| && j <= |blocks|
    ensures Start(first, AfterTaking(blocks, size, k), j) == Start(first, blocks, j)
    decreases j
  {
    if j > 0 {
      SameStarts(first, blocks, size, k, j - 1);
    }
  }

  lemma FrontierMoves(first: nat, blocks: seq<Entry>, size: nat, k: nat)
    requires k <= |blocks|
    ensures var after := AfterTaking(blocks, size, k);
            Start(first, after, |after|) == Start(first, blocks, |blocks|) + if k == |blocks| then size else 0
  {
    SameStarts(first, blocks, size, k, |blocks|);
  }

  /** The blocks stay listed with their sizes, the one taken now in use, if and
      only if it is at the frontier or has the size of the request. */
  lemma StaysListedExactly(m: Memory, first: nat, blocks: seq<Entry>, size: nat, k: nat)
    requires Listed(m, first, blocks) && IsLowestFit(blocks, size, k) && HEADER_SIZE <= size < TWO_64
    requires k == |blocks| ==> Word(m, Start(first, blocks, k) + size) != MAGIC
    ensures Listed(Claim(m, Start(first, blocks, k), size), first, AfterTaking(blocks, size, k))
            <==> k == |blocks| || blocks[k].size == size
  {
    hide Word, Claim, Start, Listed;
    if k == |blocks| || blocks[k].size == size {
      ExactFitStaysListed(m, first, blocks, size, k);
    } else if Listed(Claim(m, Start(first, blocks, k), size), first, AfterTaking(blocks, size, k)) {
      ListedHeader(Claim(m, Start(first, blocks, k), size), first, AfterTaking(blocks, size, k), k);
      SameStarts(first, blocks, size, k, k);
      ClaimedHeader(m, Start(first, blocks, k), size);
    }
  }

  lemma HeaderKept(m: Memory, m': Memory, a: nat, size: nat, used: bool)
    requires HasHeader(m, a, size, used)
    requires Word(m', a) == Word(m, a) && Word(m', a + SIZE_OFFSET) == Word(m, a + SIZE_OFFSET)
    requires Word(m', a + USED_OFFSET) == Word(m, a + USED_OFFSET)
    ensures HasHeader(m', a, size, used)
  {
    hide Word;
  }

  // A claim leaves a header alone that lies wholly to one side of it.
  lemma ClaimKeepsHeader(m: Memory, a: nat, request: nat, b: nat, size: nat, used: bool)
    requires HasHeader(m, b, size, used) && (b + HEADER_SIZE <= a || a + HEADER_SIZE <= b)
    ensures HasHeader(Claim(m, a, request), b, size, used)
  {
    hide Word, Claim, HasHeader;
    ClaimElsewhere(m, a, request, b);
    ClaimElsewhere(m, a, request, b + SIZE_OFFSET);
    ClaimElsewhere(m, a, request, b + USED_OFFSET);
    HeaderKept(m, Claim(m, a, request), b, size, used);
  }

  lemma OtherHeaderKept(m: Memory, first: nat, blocks: seq<Entry>, size: nat, k: nat, j: nat)
    requires Listed(m, first, blocks) && k <= |blocks| && j < |blocks| && j != k
    ensures HEADER_SIZE <= blocks[j].size < TWO_64
    ensures HasHeader(Claim(m, Start(first, blocks, k), size), Start(first, blocks, j), blocks[j].size, blocks[j].used)
  {
    hide Word, Claim, Start, Listed, HasHeader;
    ListedHeader(m, first, blocks, j);
    if k < |blocks| { ListedHeader(m, first, blocks, k); }
    if j < k { StartsApart(first, blocks, j, k); } else { StartsApart(first, blocks, k, j); }
    ClaimKeepsHeader(m, Start(first, blocks, k), size, Start(first, blocks, j), blocks[j].size, blocks[j].used);
  }

  // Every header of the list after an exact fit, the claimed one included.
  lemma HeaderAfterExactFit(m: Memory, first: nat, blocks: seq<Entry>, size: nat, k: nat, j: nat)
    requires Listed(m, first, blocks) && k <= |blocks| && HEADER_SIZE <= size < TWO_64
    requires k < |blocks| ==> blocks[k].size == size
    requires j < |AfterTaking(blocks, size, k)|
    ensures var after := AfterTaking(blocks, size, k);
            && HEADER_SIZE <= after[j].size < TWO_64
            && HasHeader(Claim(m, Start(first, blocks, k), size), Start(first, after, j), after[j].size, after[j].used)
  {
    hide Word, Claim, Start, Listed, HasHeader;
    SameStarts(first, blocks, size, k, j);
    if j == k {
      ClaimedHeader(m, Start(first, blocks, k), size);
    } else {
      OtherHeaderKept(m, first, blocks, size, k, j);
    }
  }

  lemma FrontierAfterExactFit(m: Memory, first: nat, blocks: seq<Entry>, size: nat, k: nat)
    requires Listed(m, first, blocks) && k <= |blocks| && HEADER_SIZE <= size
    requires k == |blocks| ==> Word(m, Start(first, blocks, k) + size) != MAGIC
    requires k < |blocks| ==> blocks[k].size == size
    ensures var after := AfterTaking(blocks, size, k);
            Word(Claim(m, Start(first, blocks, k), size), Start(first, after, |after|)) != MAGIC
  {
    hide Word, Claim, Start, HasHeader;
    FrontierMoves(first, blocks, size, k);
    if k < |blocks| { StartsApart(first, blocks, k, |blocks|); }
    var after := AfterTaking(blocks, size, k);
    ClaimElsewhere(m, Start(first, blocks, k), size, Start(first, after, |after|));
  }

  lemma ExactFitStaysListed(m: Memory, first: nat, blocks: seq<Entry>, size: nat, k: nat)
    requires Listed(m, first, blocks) && k <= |blocks| && HEADER_SIZE <= size < TWO_64
    requires k == |blocks| ==> Word(m, Start(first, blocks, k) + size) != MAGIC
    requires k < |blocks| ==> blocks[k].size == size
    ensures Listed(Claim(m, Start(first, blocks, k), size), first, AfterTaking(blocks, size, k))
  {
    hide Word, Claim, Start, HasHeader, AfterTaking;
    FrontierAfterExactFit(m, first, blocks, size, k);
    forall j: nat | j < |AfterTaking(blocks, size, k)|
      ensures var after, m' := AfterTaking(blocks, size, k), Claim(m, Start(first, blocks, k), size);
              && HEADER_SIZE <= after[j].size < TWO_64
              && HasHeader(m', Start(first, after, j), after[j].size, after[j].used)
    {
      HeaderAfterExactFit(m, first, blocks, size, k, j);
    }
  }
}
