// The pool object over a shared memory.

module MemoryPool {
  import opened Memory
  import opened PoolModel
  import opened PoolProofs

  /** The memory of the process. */
  class Heap {
    var bytes: Bytes

    constructor (bytes: Bytes)
      ensures this.bytes == bytes
    { this.bytes := bytes; }

    /** operator delete: nothing is promised of what the block holds from now on. */
    method Delete(block: nat, size: nat)
      requires block + size <= |bytes|
      modifies this
      ensures |bytes| == old(|bytes|)
      ensures forall i | 0 <= i < |bytes| && !(block <= i < block + size) :: bytes[i] == old(bytes[i])
    {
      var junk: Bytes := *;
      if |junk| == size {
        bytes := Write(bytes, block, junk);
      }
    }
  }

  /** Address i is in none of the blocks. */
  predicate InNone(blocks: seq<nat>, size: nat, i: nat) {
    forall k | 0 <= k < |blocks| :: !(blocks[k] <= i < blocks[k] + size)
  }

  class MemoryPool {
    const layout: Layout
    const heap: Heap
    var currentBlock: nat
    var currentSlot: nat
    var lastSlot: nat
    var freeSlots: nat
    ghost var record: Record

    ghost function Value(): Pool
      reads this, heap
    {
      Pool(heap.bytes, currentBlock, currentSlot, lastSlot, freeSlots)
    }

    ghost predicate Valid()
      reads this, heap
    {
      PoolInvariant(layout, Value(), record)
    }

    constructor (layout: Layout, heap: Heap)
      requires Good(layout) && |heap.bytes| <= Addresses()
      ensures Valid() && this.layout == layout && this.heap == heap
      ensures Value() == Empty(heap.bytes) && record == NoRecord()
    {
      this.layout, this.heap := layout, heap;
      currentBlock, currentSlot, lastSlot, freeSlots := 0, 0, 0, 0;
      record := NoRecord();
      EmptyPool(layout, heap.bytes);
    }

    /** allocate(1).  newBlock is the address operator new returns, if it is called. */
    method Allocate(newBlock: nat) returns (slot: nat)
      requires Valid() && (NeedsBlock(Value()) ==> FromNew(layout, Value(), record, newBlock))
      modifies this, heap
      ensures Valid() && |heap.bytes| == old(|heap.bytes|)
      ensures (Value(), slot) == PoolModel.Allocate(layout, old(Value()), newBlock)
      ensures record == RecordAllocate(old(Value()), old(record), newBlock, slot)
      ensures slot !in old(record).live && record.live == old(record).live + {slot}
    {
      hide PoolInvariant, Load, Write, Encode, PowerOfTwo, Padding;
      ghost var p, r := Value(), record;
      AllocateKeeps(layout, p, r, newBlock);
      if freeSlots != 0 {
        slot := freeSlots;
        freeSlots := Load(heap.bytes, freeSlots);
      } else {
        if currentSlot >= lastSlot {
          heap.bytes := Store(heap.bytes, newBlock, currentBlock);
          currentBlock := newBlock;
          var body := newBlock + WORD;
          currentSlot := body + Padding(layout.align, body);
          lastSlot := newBlock + layout.blockSize - layout.slotSize;
        }
        slot := currentSlot;
        currentSlot := currentSlot + layout.slotSize;
      }
      record := RecordAllocate(p, r, newBlock, slot);
    }

    method Deallocate(slot: nat)
      requires Valid() && (slot == 0 || slot in record.live)
      modifies this, heap
      ensures Valid() && |heap.bytes| == old(|heap.bytes|)
      ensures slot != 0 ==> slot + WORD <= |heap.bytes| && Value() == PoolModel.Deallocate(old(Value()), slot)
      ensures slot == 0 ==> Value() == old(Value())
      ensures record == RecordDeallocate(old(record), slot)
    {
      hide PoolInvariant, Write, Encode;
      if slot != 0 {
        DeallocateKeeps(layout, Value(), record, slot);
        heap.bytes := Store(heap.bytes, slot, freeSlots);
        freeSlots := slot;
        record := RecordDeallocate(record, slot);
      }
    }

    /** A client writes where it may. */
    method Put(addr: nat, bytes: Bytes)
      requires Valid() && MayWrite(layout, Value(), record, addr, |bytes|)
      modifies heap
      ensures Valid() && Value() == Scribble(old(Value()), addr, bytes) && record == old(record)
    {
      hide PoolInvariant, Write;
      ScribbleKeeps(layout, Value(), record, addr, bytes);
      heap.bytes := Write(heap.bytes, addr, bytes);
    }

    /**
     * The destructor.  It reads each block's link before the block is given
     * back; freed lists the blocks in the order in which they are given back:
     * each block obtained, once.
     */
    method Destroy() returns (freed: seq<nat>)
      requires Valid()
      modifies heap
      ensures freed == record.blocks && Distinct(freed)
      ensures |heap.bytes| == old(|heap.bytes|)
      ensures forall i | 0 <= i < |heap.bytes| && InNone(freed, layout.blockSize, i) ::
                heap.bytes[i] == old(heap.bytes[i])
    {
      hide Linked, PowerOfTwo, SlotsOk, FreeOk, CountsOk;
      BlocksAreDistinct(layout, Value(), record);
      freed := FreeChain(heap, layout.blockSize, currentBlock, record.blocks);
    }
  }

  /**
   * The destructor's loop, from block to block.  What a block holds is lost
   * when it is given back, so every link has to be read before.
   */
  method FreeChain(heap: Heap, size: nat, first: nat, ghost blocks: seq<nat>) returns (freed: seq<nat>)
    requires Linked(heap.bytes, blocks) && first == Head(blocks) && WORD <= size
    requires forall i | 0 <= i < |blocks| :: blocks[i] + size <= |heap.bytes|
    requires forall i, j | 0 <= i < j < |blocks| :: Apart(blocks[i], size, blocks[j], size)
    modifies heap
    ensures freed == blocks
    ensures |heap.bytes| == old(|heap.bytes|)
    ensures forall i | 0 <= i < |heap.bytes| && InNone(blocks, size, i) :: heap.bytes[i] == old(heap.bytes[i])
  {
    hide Linked, Load, Head;
    freed := [];
    var curr := first;
    assert blocks[0..] == blocks;
    while curr != 0
      invariant |freed| <= |blocks| && freed == blocks[..|freed|] && |heap.bytes| == old(|heap.bytes|)
      invariant Linked(heap.bytes, blocks[|freed|..]) && curr == Head(blocks[|freed|..])
      invariant forall i | 0 <= i < |heap.bytes| && InNone(blocks, size, i) :: heap.bytes[i] == old(heap.bytes[i])
      decreases |blocks| - |freed|
    {
      ghost var n, m := |freed|, heap.bytes;
      NextBlock(m, blocks, n);
      var tmp := Load(heap.bytes, curr);
      heap.Delete(curr, size);
      LinkedOutside(m, heap.bytes, blocks[n + 1..], curr, size);
      freed := freed + [curr];
      curr := tmp;
    }
    NullEndsBlocks(heap.bytes, blocks[|freed|..]);
  }

  lemma {:induction false} BlocksAreDistinct(l: Layout, p: Pool, r: Record)
    requires PoolInvariant(l, p, r)
    ensures Distinct(r.blocks)
  {
    hide Linked, PowerOfTwo, SlotsOk, FreeOk, CountsOk;
    forall i, j | 0 <= i < j < |r.blocks| ensures r.blocks[i] != r.blocks[j] {
      assert Apart(r.blocks[i], l.blockSize, r.blocks[j], l.blockSize);
    }
  }

  lemma {:induction false} NextBlock(m: Bytes, blocks: seq<nat>, n: nat)
    requires n <= |blocks| && Linked(m, blocks[n..]) && Head(blocks[n..]) != 0
    ensures n < |blocks| && blocks[n] + WORD <= |m| && Head(blocks[n..]) == blocks[n]
    ensures Load(m, blocks[n]) == Head(blocks[n + 1..]) && Linked(m, blocks[n + 1..])
  {
    LinkedTail(m, blocks[n..]);
    assert blocks[n..][1..] == blocks[n + 1..];
  }

  lemma {:induction false} NullEndsBlocks(m: Bytes, blocks: seq<nat>)
    requires Linked(m, blocks) && Head(blocks) == 0
    ensures blocks == []
  {
  }

  /** A change inside a block does not reach the links of the others. */
  lemma {:induction false} LinkedOutside(m: Bytes, m': Bytes, xs: seq<nat>, block: nat, size: nat)
    requires Linked(m, xs) && |m| == |m'| && WORD <= size
    requires forall i | 0 <= i < |m| && !(block <= i < block + size) :: m'[i] == m[i]
    requires forall i | 0 <= i < |xs| :: Apart(block, size, xs[i], size)
    ensures Linked(m', xs)
  {
    hide Decode, Head;
    forall i | 0 <= i < |xs| ensures Load(m', xs[i]) == Load(m, xs[i]) {
      assert m'[xs[i]..xs[i] + WORD] == m[xs[i]..xs[i] + WORD];
    }
  }
}
