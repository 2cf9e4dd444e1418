/** IBitMapProxy over the allocator's memory. Page mapping is left out. */
module BitMapMgr {
  import opened BitMapLists
  import opened BitMapModel
  import opened WordMemory

  class IBitMapProxy {
    var memory: Memory

    method IsBitMap(pointer: nat) returns (b: bool)
      ensures b <==> pointer != 0 && Word(memory, pointer) == MAGIC
    {
      if pointer == 0 {
        return false;
      }
      if Word(memory, pointer) == 0 || Word(memory, pointer) != MAGIC {
        return false;
      }
      return true;
    }

    /** Anything that does not point at the magic is refused. */
    method FreeBitMap(pointer: nat) returns (ok: bool)
      modifies this
      ensures ok <==> pointer != 0 && Word(old(memory), pointer) == MAGIC
      ensures memory == if ok then ClearUsed(old(memory), pointer) else old(memory)
    {
      hide Word, WriteWord;
      var isBitMap := IsBitMap(pointer);
      if !isBitMap {
        return false;
      }
      memory := WriteWord(memory, pointer, MAGIC);
      memory := WriteWord(memory, pointer + USED_OFFSET, 0);
      return true;
    }

    /** Freeing the pointer of block k marks that block unused. */
    method FreeBlock(start: nat, size: nat, ghost used: seq<bool>, k: nat) returns (ok: bool)
      requires Formed(memory, start, size, used) && k < |used|
      modifies this
      ensures ok && Formed(memory, start, size, used[k := false])
    {
      assert HasHeader(memory, Block(start, size, k), size, used[k]);
      hide Word, Formed;
      FreeKeepsFormed(memory, start, size, used, k);
      ok := FreeBitMap(Block(start, size, k));
    }

    // Writes the header of a block that was never allocated.
    method NewHeader(base: nat, size: nat)
      requires Word(memory, base) != MAGIC
      modifies this
      ensures memory == Claim(old(memory), base, size)
    {
      hide Word, WriteWord;
      memory := WriteWord(memory, base, MAGIC);
      memory := WriteWord(memory, base + SIZE_OFFSET, size);
      memory := WriteWord(memory, base + USED_OFFSET, 1);
    }

    // Marks a free block as used again.
    method Reclaim(base: nat, size: nat)
      requires Word(memory, base) == MAGIC
      modifies this
      ensures memory == Claim(old(memory), base, size)
    {
      hide Word, WriteWord;
      memory := WriteWord(memory, base + SIZE_OFFSET, size);
      memory := WriteWord(memory, base + USED_OFFSET, 1);
    }

    // Takes the block at base for an allocation if the walk stops there.
    method TakeIfFits(base: nat, size: nat) returns (taken: bool)
      modifies this
      ensures taken <==> Fits(old(memory), base, size)
      ensures memory == if taken then Claim(old(memory), base, size) else old(memory)
    {
      hide Word, Claim;
      if Word(memory, base) == MAGIC && Word(memory, base + SIZE_OFFSET) <= size {
        if Word(memory, base + USED_OFFSET) == 0 {
          Reclaim(base, size);
          return true;
        }
      } else if Word(memory, base) != MAGIC {
        NewHeader(base, size);
        return true;
      }
      return false;
    }

    // The walk from the first header, which stops after the given number of steps.
    method Walk(first: nat, size: nat, ghost last: nat) returns (base: nat)
      requires StopsAfter(memory, first, size, last)
      modifies this
      ensures base == Place(old(memory), first, size, last)
      ensures memory == Claim(old(memory), base, size)
    {
      hide Word, Place, Claim, StopsAfter, Fits;
      base := first;
      ghost var m := memory;
      ghost var k: nat := 0;
      NextPlace(m, first, size, 0);
      while true
        invariant k <= last && base == Place(m, first, size, k) && memory == m
        decreases last - k
      {
        WalkAt(m, first, size, last, k);
        NextPlace(m, first, size, k);
        var taken := TakeIfFits(base, size);
        if taken {
          return base;
        }
        base := base + if Word(memory, base) != MAGIC then size else Word(memory, base + SIZE_OFFSET);
        k := k + 1;
      }
    }

    /** Walks the headers, whatever memory holds, to the first place that fits:
        a free block that is not larger, or no block. Only a memory on which the
        walk runs forever is shut out. */
    method FindBitMap(basePointer: nat, size: nat) returns (pointer: nat)
      requires size > 0 ==> Ends(memory, basePointer + PAGE_SIZE, size)
      modifies this
      ensures size == 0 ==> pointer == 0 && memory == old(memory)
      ensures size > 0 ==>
                && pointer == FirstFit(old(memory), basePointer + PAGE_SIZE, size)
                && memory == Claim(old(memory), pointer, size)
    {
      if size == 0 {
        return 0;
      }
      hide Place, Claim, StopsAfter, FirstFit, Ends;
      var base := basePointer + PAGE_SIZE;
      ghost var last := StopOf(memory, base, size);
      FirstFitIs(memory, base, size, last);
      pointer := Walk(base, size, last);
    }

    static lemma StopOf(m: Memory, start: nat, size: nat) returns (k: nat)
      requires Ends(m, start, size)
      ensures StopsAfter(m, start, size, k)
    {
      k :| StopsAfter(m, start, size, k);
    }

    static lemma WalkAt(m: Memory, start: nat, size: nat, last: nat, k: nat)
      requires StopsAfter(m, start, size, last) && k <= last
      ensures Fits(m, Place(m, start, size, k), size) <==> k == last
    {
      hide Fits, Place;
    }

    static lemma NextPlace(m: Memory, start: nat, size: nat, k: nat)
      ensures Place(m, start, size, 0) == start
      ensures var a := Place(m, start, size, k);
              Place(m, start, size, k + 1) == a + if Word(m, a) != MAGIC then size else Word(m, a + SIZE_OFFSET)
    {
      hide Word;
    }

    /** Over blocks of any sizes an allocation takes the lowest unused block that is
        not larger than the request, or the frontier, and changes its header
        only. */
    method AllocateFromList(basePointer: nat, size: nat, ghost blocks: seq<Entry>) returns (pointer: nat, ghost k: nat)
      requires 0 < size < 0x1_0000_0000_0000_0000 && Listed(memory, basePointer + 0x1000, blocks)
      modifies this
      ensures k <= |blocks| && pointer == Start(basePointer + 0x1000, blocks, k)
      ensures forall j: nat :: j < k ==> blocks[j].used || blocks[j].size > size
      ensures k < |blocks| ==> !blocks[k].used && blocks[k].size <= size
      ensures Word(memory, pointer) == 0x10210 && Word(memory, pointer + 8) == size && Word(memory, pointer + 16) == 1
      ensures forall a: nat :: a < pointer || pointer + 24 <= a ==> ByteAt(memory, a) == ByteAt(old(memory), a)
    {
      hide Listed, Ends, FirstFit, Claim, Start, Word, ByteAt;
      k := LowestFitFrom(blocks, size, 0);
      ghost var m := memory;
      WalkEndsAtLowestFit(m, basePointer + PAGE_SIZE, blocks, size, k);
      pointer := FindBitMap(basePointer, size);
      ClaimedHeader(m, pointer, size);
      forall a: nat | a < pointer || pointer + 24 <= a
        ensures ByteAt(memory, a) == ByteAt(m, a)
      {
        ClaimKeepsBytes(m, pointer, size, a);
      }
    }

    /** On a formed area of blocks of this size an allocation takes the lowest
        block not in use. */
    method AllocateBlock(basePointer: nat, size: nat, ghost used: seq<bool>) returns (pointer: nat)
      requires Formed(memory, basePointer + PAGE_SIZE, size, used)
      modifies this
      ensures pointer == Block(basePointer + PAGE_SIZE, size, FirstFree(used))
      ensures memory == Claim(old(memory), pointer, size)
      ensures Formed(memory, basePointer + PAGE_SIZE, size, Taken(used))
    {
      assert size > 0;
      hide Formed, Ends, FirstFit, Claim, Block, FirstFree;
      FirstFitIsFirstFree(memory, basePointer + PAGE_SIZE, size, used);
      AllocateKeepsFormed(memory, basePointer + PAGE_SIZE, size, used);
      pointer := FindBitMap(basePointer, size);
    }
  }
}
