// What the pool and writes into one slot leave alone: the bytes of live slots.

module PoolFrames {
  import opened Memory
  import opened PoolModel
  import opened PoolProofs

  ghost predicate SlotsKept(l: Layout, m: Bytes, m': Bytes, slots: set<nat>) {
    && |m| == |m'|
    && forall a | a in slots && a + l.slotSize <= |m| :: m[a..a + l.slotSize] == m'[a..a + l.slotSize]
  }

  lemma {:induction false} WriteKeepsApart(l: Layout, m: Bytes, a: nat, b: Bytes, slots: set<nat>)
    requires a + |b| <= |m|
    requires forall x | x in slots && x + l.slotSize <= |m| :: Apart(a, |b|, x, l.slotSize)
    ensures SlotsKept(l, m, Write(m, a, b), slots)
  {
    hide Write;
    forall x | x in slots && x + l.slotSize <= |m|
      ensures Write(m, a, b)[x..x + l.slotSize] == m[x..x + l.slotSize]
    {
      ReadApart(m, a, b, x, l.slotSize);
    }
  }

  /** allocate writes at most the header of a new block. */
  lemma {:induction false} AllocateKeepsSlots(l: Layout, p: Pool, r: Record, block: nat)
    requires PoolInvariant(l, p, r) && (NeedsBlock(p) ==> FromNew(l, p, r, block))
    ensures WORD <= l.slotSize <= l.blockSize && (p.freeSlots != 0 ==> p.freeSlots + WORD <= |p.mem|)
    ensures SlotsKept(l, p.mem, Allocate(l, p, block).0.mem, r.live)
  {
    hide PoolInvariant, Encode, Write, Padding, Load, Apart;
    FreeListHead(l, p, r);
    if NeedsBlock(p) {
      forall a | a in r.live ensures Apart(block, WORD, a, l.slotSize) {
        FreshIsApart(l, p, r, block, a);
      }
      WriteKeepsApart(l, p.mem, block, Encode(p.currentBlock, WORD), r.live);
    }
  }

  lemma {:induction false} FreshIsApart(l: Layout, p: Pool, r: Record, block: nat, a: nat)
    requires PoolInvariant(l, p, r) && FromNew(l, p, r, block) && a in r.live
    ensures Apart(block, WORD, a, l.slotSize)
  {
    hide Linked, PowerOfTwo, CountsOk;
    assert a in Addrs(r.slots);
    SlotInMemory(l, p, r, a);
    var b :| b in r.blocks && b + WORD <= a && a + l.slotSize <= b + l.blockSize;
    var i :| 0 <= i < |r.blocks| && r.blocks[i] == b;
  }

  /** A write into one live slot leaves the others alone. */
  lemma {:induction false} WriteKeepsOthers(l: Layout, p: Pool, r: Record, s: nat, a: nat, b: Bytes)
    requires PoolInvariant(l, p, r) && s in r.live && s <= a && a + |b| <= s + l.slotSize
    ensures a + |b| <= |p.mem|
    ensures SlotsKept(l, p.mem, Write(p.mem, a, b), r.live - {s})
  {
    LiveFits(l, p, r, s);
    hide PoolInvariant, Write, Apart;
    forall x | x in r.live - {s} ensures Apart(a, |b|, x, l.slotSize) {
      LiveApart(l, p, r, s, x, a, |b|);
    }
    WriteKeepsApart(l, p.mem, a, b, r.live - {s});
  }

  lemma {:induction false} LiveApart(l: Layout, p: Pool, r: Record, s: nat, x: nat, a: nat, n: nat)
    requires PoolInvariant(l, p, r) && s in r.live && x in r.live && s != x && s <= a && a + n <= s + l.slotSize
    ensures Apart(a, n, x, l.slotSize)
  {
    hide Linked, PowerOfTwo, CountsOk;
    assert s in Addrs(r.slots) && x in Addrs(r.slots);
    AddressesApart(l, p, r, s, x);
  }
}
