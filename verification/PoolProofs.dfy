// What every operation of the memory pool keeps, and what follows.

module PoolProofs {
  import opened Arithmetic
  import opened Memory
  import opened PoolModel

  // ---------- layout arithmetic ----------

  lemma {:induction false} SlotAtLeastAlign(l: Layout)
    requires Good(l)
    ensures WORD <= l.align <= l.slotSize
  {
    var q := l.slotSize / l.align;
    assert l.slotSize == l.align * q + 0;
    MultipleBound(l.align, q);
  }

  lemma {:induction false} MultiplesAdd(a: nat, b: int, m: nat)
    requires m > 0 && a % m == 0
    ensures (a + b) % m == b % m
  {
    assert a == m * (a / m);
    RemainderOfSum(b, m, a / m);
  }

  /** In an aligned block the header and the padding take exactly one alignment unit. */
  lemma {:induction false} HeaderSize(l: Layout, block: nat)
    requires Good(l) && block % l.align == 0
    ensures WORD + Padding(l.align, block + WORD) == l.align
  {
    var body := block + WORD;
    LeastPadding(l.align, body);
    var pad := Padding(l.align, body);
    MultiplesAdd(block, l.align, l.align);
    RemainderIs(l.align, l.align, 1, 0);
    assert Aligns(l.align, body, l.align - WORD);
    MultiplesAdd(block, WORD + pad, l.align);
    assert (WORD + pad) % l.align == 0;
    if WORD + pad < l.align {
      RemainderIs(WORD + pad, l.align, 0, WORD + pad);
    }
  }

  /** The check `currentSlot_ >= lastSlot_` says that the block has yielded its number of slots. */
  lemma {:induction false} BlockIsFull(l: Layout, c: nat)
    requires Good(l) && c >= 1
    ensures l.align + c * l.slotSize >= l.blockSize - l.slotSize <==> c >= PerBlock(l)
  {
    SlotAtLeastAlign(l);
    var ss, room, k := l.slotSize, l.blockSize - l.slotSize - l.align, PerBlock(l);
    if room <= ss {
      MultipleBound(ss, c);
    } else {
      assert ss * k <= room + ss - 1 < ss * k + ss by {
        assert room + ss - 1 == ss * k + (room + ss - 1) % ss;
      }
      assert c * ss == ss * c && ss * (c - k) == ss * c - ss * k;
      if c >= k {
        if c > k { MultipleBound(ss, c - k); }
      } else {
        MultipleBound(ss, c - k);
      }
    }
  }

  // ---------- slots do not overlap ----------

  lemma {:induction false} BlocksApart(l: Layout, p: Pool, r: Record, a: nat, b: nat)
    requires BlocksOk(l, p, r) && a in r.blocks && b in r.blocks && a != b
    ensures Apart(a, l.blockSize, b, l.blockSize)
  {
    var i :| 0 <= i < |r.blocks| && r.blocks[i] == a;
    var j :| 0 <= j < |r.blocks| && r.blocks[j] == b;
    if i < j {
      assert Apart(r.blocks[i], l.blockSize, r.blocks[j], l.blockSize);
    } else {
      assert Apart(r.blocks[j], l.blockSize, r.blocks[i], l.blockSize);
    }
  }

  /** Two carved slots with different addresses do not share a byte. */
  lemma {:induction false} AddressesApart(l: Layout, p: Pool, r: Record, a: nat, b: nat)
    requires BlocksOk(l, p, r) && SlotsOk(l, r.blocks, r.slots, p.currentSlot)
    requires a in Addrs(r.slots) && b in Addrs(r.slots) && a != b
    ensures Apart(a, l.slotSize, b, l.slotSize)
  {
    hide Linked;
    var i :| 0 <= i < |r.slots| && r.slots[i].addr == a;
    var j :| 0 <= j < |r.slots| && r.slots[j].addr == b;
    var s, t := r.slots[i], r.slots[j];
    assert SlotIn(l, r.blocks, s) && SlotIn(l, r.blocks, t);
    if s.block != t.block {
      BlocksApart(l, p, r, s.block, t.block);
    }
  }

  /** A carved slot lies in one of the blocks, behind its header, and is aligned. */
  lemma {:induction false} SlotInMemory(l: Layout, p: Pool, r: Record, a: nat)
    requires BlocksOk(l, p, r) && SlotsOk(l, r.blocks, r.slots, p.currentSlot) && a in Addrs(r.slots)
    ensures 0 < a && a + l.slotSize <= |p.mem| && a % l.align == 0
    ensures exists b :: b in r.blocks && b + WORD <= a && a + l.slotSize <= b + l.blockSize
  {
    hide Linked;
    var k :| 0 <= k < |r.slots| && r.slots[k].addr == a;
    assert SlotIn(l, r.blocks, r.slots[k]);
  }

  /** No header byte is in a slot. */
  lemma {:induction false} HeaderApart(l: Layout, p: Pool, r: Record, a: nat, i: nat)
    requires BlocksOk(l, p, r) && SlotsOk(l, r.blocks, r.slots, p.currentSlot)
    requires WORD <= l.blockSize && a in Addrs(r.slots) && i < |r.blocks|
    ensures Apart(a, l.slotSize, r.blocks[i], WORD)
  {
    hide Linked;
    SlotInMemory(l, p, r, a);
    var b :| b in r.blocks && b + WORD <= a && a + l.slotSize <= b + l.blockSize;
    if b != r.blocks[i] {
      BlocksApart(l, p, r, b, r.blocks[i]);
    }
  }

  // ---------- client writes ----------

  lemma {:induction false} FreeIsCarved(p: Pool, r: Record, i: nat)
    requires FreeOk(p, r) && i < |r.free|
    ensures r.free[i] in Addrs(r.slots) && r.free[i] !in r.live
  {
    assert r.free[i] in Elements(r.free);
  }

  /** The words of both chains are apart from n bytes at a. */
  ghost predicate OffChains(r: Record, a: nat, n: nat) {
    && (forall i | 0 <= i < |r.blocks| :: Apart(a, n, r.blocks[i], WORD))
    && (forall i | 0 <= i < |r.free| :: Apart(a, n, r.free[i], WORD))
  }

  lemma {:induction false} LiveIsOffChains(l: Layout, p: Pool, r: Record, s: nat, a: nat, n: nat)
    requires PoolInvariant(l, p, r) && s in r.live && s <= a && a + n <= s + l.slotSize
    ensures OffChains(r, a, n)
  {
    hide Linked, PowerOfTwo, CountsOk;
    forall i | 0 <= i < |r.blocks| ensures Apart(a, n, r.blocks[i], WORD) {
      HeaderApart(l, p, r, s, i);
    }
    forall i | 0 <= i < |r.free| ensures Apart(a, n, r.free[i], WORD) {
      FreeIsCarved(p, r, i);
      AddressesApart(l, p, r, s, r.free[i]);
    }
  }

  lemma {:induction false} OutsideIsOffSlot(l: Layout, p: Pool, r: Record, a: nat, n: nat, s: nat)
    requires BlocksOk(l, p, r) && SlotsOk(l, r.blocks, r.slots, p.currentSlot)
    requires WORD <= l.slotSize && s in Addrs(r.slots)
    requires forall i | 0 <= i < |r.blocks| :: Apart(a, n, r.blocks[i], l.blockSize)
    ensures Apart(a, n, s, WORD)
  {
    SlotInMemory(l, p, r, s);
    hide BlocksOk, SlotsOk, Addrs;
    var b :| b in r.blocks && b + WORD <= s && s + l.slotSize <= b + l.blockSize;
    var j :| 0 <= j < |r.blocks| && r.blocks[j] == b;
    assert Apart(a, n, r.blocks[j], l.blockSize);
  }

  lemma {:induction false} OutsideIsOffChains(l: Layout, p: Pool, r: Record, a: nat, n: nat)
    requires PoolInvariant(l, p, r)
    requires forall i | 0 <= i < |r.blocks| :: Apart(a, n, r.blocks[i], l.blockSize)
    ensures OffChains(r, a, n)
  {
    hide Linked, PowerOfTwo, CountsOk, SlotsOk, BlocksOk, FreeOk;
    forall i | 0 <= i < |r.free| ensures Apart(a, n, r.free[i], WORD) {
      FreeIsCarved(p, r, i);
      OutsideIsOffSlot(l, p, r, a, n, r.free[i]);
    }
  }

  lemma {:induction false} WriteKeepsInvariant(l: Layout, p: Pool, r: Record, a: nat, b: Bytes)
    requires PoolInvariant(l, p, r) && a + |b| <= |p.mem| && OffChains(r, a, |b|)
    ensures PoolInvariant(l, Scribble(p, a, b), r)
  {
    hide Linked, PowerOfTwo, SlotsOk, Distinct, Write;
    LinkedApart(p.mem, r.blocks, a, b);
    LinkedApart(p.mem, r.free, a, b);
  }

  /** Whatever clients write into live slots or outside the blocks, the pool is not damaged. */
  lemma {:induction false} ScribbleKeeps(l: Layout, p: Pool, r: Record, a: nat, b: Bytes)
    requires PoolInvariant(l, p, r) && MayWrite(l, p, r, a, |b|)
    ensures PoolInvariant(l, Scribble(p, a, b), r)
  {
    hide PoolInvariant, Apart, Write;
    if s :| s in r.live && s <= a && a + |b| <= s + l.slotSize {
      LiveIsOffChains(l, p, r, s, a, |b|);
    } else {
      OutsideIsOffChains(l, p, r, a, |b|);
    }
    WriteKeepsInvariant(l, p, r, a, b);
  }

  // ---------- deallocate ----------

  lemma {:induction false} LiveFits(l: Layout, p: Pool, r: Record, slot: nat)
    requires PoolInvariant(l, p, r) && slot in r.live
    ensures slot > 0 && slot + WORD <= slot + l.slotSize <= |p.mem|
  {
    hide Linked, PowerOfTwo, CountsOk;
    assert slot in Addrs(r.slots);
    SlotInMemory(l, p, r, slot);
  }

  lemma {:induction false} DeallocateKeepsFree(p: Pool, r: Record, slot: nat)
    requires FreeOk(p, r) && slot in r.live && slot > 0 && slot + WORD <= |p.mem| <= Addresses()
    requires forall i | 0 <= i < |r.free| :: Apart(slot, WORD, r.free[i], WORD)
    ensures FreeOk(Deallocate(p, slot), RecordDeallocate(r, slot))
  {
    hide Linked, Distinct, Load, Store, Elements, Power;
    LinkedPush(p.mem, r.free, slot);
    DistinctPush(r.free, slot);
    assert |r.live - {slot}| == |r.live| - 1;
  }

  /** Giving back a live slot, or null. */
  lemma {:induction false} DeallocateKeeps(l: Layout, p: Pool, r: Record, slot: nat)
    requires PoolInvariant(l, p, r) && slot in r.live
    ensures slot > 0 && slot + WORD <= |p.mem|
    ensures PoolInvariant(l, Deallocate(p, slot), RecordDeallocate(r, slot))
  {
    hide Linked, PowerOfTwo, SlotsOk, FreeOk, Write, Power;
    LiveFits(l, p, r, slot);
    LiveIsOffChains(l, p, r, slot, slot, WORD);
    LinkedApart(p.mem, r.blocks, slot, Encode(p.freeSlots, WORD));
    DeallocateKeepsFree(p, r, slot);
  }

  // ---------- allocate ----------

  /** A freed slot is handed out again. */
  lemma {:induction false} ReuseKeeps(l: Layout, p: Pool, r: Record)
    requires PoolInvariant(l, p, r) && r.free != []
    ensures p.freeSlots == r.free[0] > 0 && p.freeSlots + WORD <= |p.mem|
    ensures p.freeSlots !in r.live
    ensures PoolInvariant(l, p.(freeSlots := Load(p.mem, p.freeSlots)), WithLive(r.(free := r.free[1..]), p.freeSlots))
  {
    hide Linked, PowerOfTwo, SlotsOk, Distinct, Load, Elements;
    LinkedTail(p.mem, r.free);
    DistinctTail(r.free);
  }

  /** The newest block has room: its next slot is the current one. */
  ghost predicate MayCarve(l: Layout, p: Pool, r: Record) {
    && Good(l) && WORD <= l.slotSize <= l.blockSize
    && BlocksOk(l, p, r)
    && SlotsOk(l, r.blocks, r.slots, p.currentSlot)
    && FreeOk(p, r) && r.free == []
    && r.peak == |r.slots|
    && r.blocks != []
    && var b := r.blocks[0];
       && r.inBlock < PerBlock(l)
       && |r.slots| == PerBlock(l) * (|r.blocks| - 1) + r.inBlock
       && p.currentSlot == b + l.align + r.inBlock * l.slotSize
       && p.currentSlot + l.slotSize <= b + l.blockSize
       && p.lastSlot == b + l.blockSize - l.slotSize
  }

  lemma MulSwap(c: int, a: int, q: int)
    ensures c * (a * q) == a * (c * q)
  {
  }

  lemma {:induction false} CurrentSlotIsAligned(l: Layout, b: nat, c: nat)
    requires l.slotSize % l.align == 0 && b % l.align == 0
    ensures (b + l.align + c * l.slotSize) % l.align == 0
  {
    var q := l.slotSize / l.align;
    assert l.slotSize == l.align * q;
    MulSwap(c, l.align, q);
    RemainderOfSum(b + l.align, l.align, c * q);
    RemainderOfSum(b, l.align, 1);
  }

  /** The current slot is past every slot of the newest block, and out of the other blocks. */
  lemma {:induction false} CurrentSlotIsNew(l: Layout, p: Pool, r: Record, s: Slot)
    requires BlocksOk(l, p, r) && SlotsOk(l, r.blocks, r.slots, p.currentSlot) && s in r.slots
    requires r.blocks != [] && r.blocks[0] <= p.currentSlot
    requires p.currentSlot + l.slotSize <= r.blocks[0] + l.blockSize
    ensures SlotIn(l, r.blocks, s) && s.addr != p.currentSlot
    ensures s.block == r.blocks[0] ==> s.addr + l.slotSize <= p.currentSlot
  {
    hide Linked, Power;
    var k :| 0 <= k < |r.slots| && r.slots[k] == s;
    assert SlotIn(l, r.blocks, r.slots[k]);
    if s.block != r.blocks[0] {
      BlocksApart(l, p, r, s.block, r.blocks[0]);
    }
  }

  lemma {:induction false} SlotsExtend(l: Layout, blocks: seq<nat>, slots: seq<Slot>, current: nat, next: Slot)
    requires SlotIn(l, blocks, next) && next == Slot(current, Head(blocks))
    requires SlotsOk(l, blocks, slots, current)
    ensures SlotsOk(l, blocks, slots + [next], current + l.slotSize)
    ensures Addrs(slots + [next]) == Addrs(slots) + {current}
  {
    hide SlotIn;
    var slots' := slots + [next];
    assert forall s :: s in slots' <==> s in slots || s == next;
    assert forall i | 0 <= i < |slots| :: slots'[i] == slots[i];
  }

  /** The current slot is carved: it is new, it lies in the newest block, and nothing else does there. */
  lemma {:induction false} CarvedSlots(l: Layout, p: Pool, r: Record)
    requires MayCarve(l, p, r)
    ensures var r' := WithSlot(r, p.currentSlot);
      && SlotsOk(l, r'.blocks, r'.slots, p.currentSlot + l.slotSize)
      && p.currentSlot !in Addrs(r.slots)
      && Addrs(r'.slots) == Addrs(r.slots) + {p.currentSlot}
  {
    hide Linked, PowerOfTwo, FreeOk, SlotsOk;
    CurrentSlotIsAligned(l, r.blocks[0], r.inBlock);
    if r.inBlock > 0 { MultipleBound(l.slotSize, r.inBlock); }
    var next := Slot(p.currentSlot, r.blocks[0]);
    assert SlotIn(l, r.blocks, next);
    forall s | s in r.slots ensures s.addr != p.currentSlot {
      CurrentSlotIsNew(l, p, r, s);
    }
    SlotsExtend(l, r.blocks, r.slots, p.currentSlot, next);
  }

  lemma {:induction false} CarveKeepsFree(l: Layout, p: Pool, r: Record)
    requires FreeOk(p, r) && r.free == [] && r.peak == |r.slots|
    requires p.currentSlot !in Addrs(r.slots)
    requires Addrs(WithSlot(r, p.currentSlot).slots) == Addrs(r.slots) + {p.currentSlot}
    ensures p.currentSlot !in r.live
    ensures var r' := WithLive(WithSlot(r, p.currentSlot), p.currentSlot);
      FreeOk(p.(currentSlot := p.currentSlot + l.slotSize), r') && r'.peak == |r'.slots|
  {
    hide Linked, Distinct;
    assert Elements(r.free) == {};
    assert r.live == Addrs(r.slots);
  }

  lemma {:induction false} CarveKeeps(l: Layout, p: Pool, r: Record)
    requires MayCarve(l, p, r)
    ensures p.currentSlot !in r.live
    ensures PoolInvariant(l, p.(currentSlot := p.currentSlot + l.slotSize),
                          WithLive(WithSlot(r, p.currentSlot), p.currentSlot))
  {
    hide Linked, Good, SlotsOk, FreeOk, Addrs, PerBlock;
    CarvedSlots(l, p, r);
    CarveKeepsFree(l, p, r);
    assert (r.inBlock + 1) * l.slotSize == r.inBlock * l.slotSize + l.slotSize;
  }

  lemma {:induction false} RoomLeft(l: Layout, p: Pool, r: Record)
    requires PoolInvariant(l, p, r) && r.free == [] && p.currentSlot < p.lastSlot
    ensures MayCarve(l, p, r)
  {
    hide Linked, PowerOfTwo, SlotsOk, Distinct, BlocksOk;
    BlockIsFull(l, r.inBlock);
  }

  /** A fresh block is linked in: its first slot fits, unchecked as it is. */
  lemma {:induction false} AddBlockKeeps(l: Layout, p: Pool, r: Record, block: nat)
    requires PoolInvariant(l, p, r) && r.free == [] && p.currentSlot >= p.lastSlot
    requires FromNew(l, p, r, block)
    ensures MayCarve(l, AddBlock(l, p, block), WithBlock(r, block))
  {
    hide Linked, PowerOfTwo, SlotsOk, Distinct, Store, PerBlock, Padding;
    HeaderSize(l, block);
    SlotAtLeastAlign(l);
    AddBlockChain(l, p, r, block);
    AddBlockSlots(l, p, r, block);
    AddBlockCounts(l, p, r);
    EmptyIsLinked(AddBlock(l, p, block).mem);
  }

  lemma EmptyIsLinked(m: Bytes)
    ensures Linked(m, [])
  {
  }

  lemma {:induction false} AddBlockCounts(l: Layout, p: Pool, r: Record)
    requires Good(l) && CountsOk(l, p, r) && p.currentSlot >= p.lastSlot
    ensures |r.slots| == PerBlock(l) * |r.blocks|
  {
    if r.blocks != [] {
      BlockIsFull(l, r.inBlock);
      assert PerBlock(l) * (|r.blocks| - 1) + PerBlock(l) == PerBlock(l) * |r.blocks|;
    }
  }

  lemma {:induction false} AddBlockChain(l: Layout, p: Pool, r: Record, block: nat)
    requires WORD <= l.slotSize <= l.blockSize && BlocksOk(l, p, r) && FromNew(l, p, r, block)
    ensures BlocksOk(l, AddBlock(l, p, block), WithBlock(r, block))
    ensures block !in r.blocks
  {
    hide Linked, PowerOfTwo, Store, Padding, Power;
    LinkedPush(p.mem, r.blocks, block);
    var bs := [block] + r.blocks;
    assert forall i | 1 <= i < |bs| :: bs[i] == r.blocks[i - 1];
  }

  lemma {:induction false} AddBlockSlots(l: Layout, p: Pool, r: Record, block: nat)
    requires SlotsOk(l, r.blocks, r.slots, p.currentSlot) && block !in r.blocks
    ensures SlotsOk(l, [block] + r.blocks, r.slots, 0)
    ensures forall c: nat :: SlotsOk(l, [block] + r.blocks, r.slots, c)
  {
    var bs := [block] + r.blocks;
    assert forall b | b in r.blocks :: b in bs;
    forall i | 0 <= i < |r.slots| ensures SlotIn(l, bs, r.slots[i]) && r.slots[i].block != block {
      assert SlotIn(l, r.blocks, r.slots[i]);
    }
  }

  /**
   * allocate keeps the pool in order.  The slot handed out was not live and is
   * live now.
   */
  lemma {:induction false} AllocateKeeps(l: Layout, p: Pool, r: Record, block: nat)
    requires PoolInvariant(l, p, r) && (NeedsBlock(p) ==> FromNew(l, p, r, block))
    ensures WORD <= l.slotSize <= l.blockSize && (p.freeSlots != 0 ==> p.freeSlots + WORD <= |p.mem|)
    ensures var (q, slot) := Allocate(l, p, block); var r' := RecordAllocate(p, r, block, slot);
      && PoolInvariant(l, q, r')
      && slot !in r.live && r'.live == r.live + {slot}
  {
    hide PoolInvariant, AddBlock, Load, FromNew, MayCarve, Allocate, RecordAllocate;
    FreeListHead(l, p, r);
    if r.free != [] {
      ReuseKeeps(l, p, r);
      ReuseIs(l, p, r, block);
    } else if NeedsBlock(p) {
      assert block + l.blockSize <= |p.mem| by { NewIsInMemory(l, p, r, block); }
      AddBlockKeeps(l, p, r, block);
      CarveKeeps(l, AddBlock(l, p, block), WithBlock(r, block));
      CarveIs(l, p, r, block);
    } else {
      RoomLeft(l, p, r);
      CarveKeeps(l, p, r);
      CarveIs(l, p, r, block);
    }
  }

  lemma NewIsInMemory(l: Layout, p: Pool, r: Record, block: nat)
    requires FromNew(l, p, r, block)
    ensures block + l.blockSize <= |p.mem|
  {
  }

  lemma {:induction false} ReuseIs(l: Layout, p: Pool, r: Record, block: nat)
    requires WORD <= l.slotSize <= l.blockSize && p.freeSlots != 0 && p.freeSlots + WORD <= |p.mem| && r.free != []
    ensures Allocate(l, p, block) == (p.(freeSlots := Load(p.mem, p.freeSlots)), p.freeSlots)
    ensures RecordAllocate(p, r, block, p.freeSlots) == WithLive(r.(free := r.free[1..]), p.freeSlots)
  {
  }

  lemma {:induction false} CarveIs(l: Layout, p: Pool, r: Record, block: nat)
    requires WORD <= l.slotSize <= l.blockSize && p.freeSlots == 0
    requires NeedsBlock(p) ==> block + l.blockSize <= |p.mem|
    ensures var q := if NeedsBlock(p) then AddBlock(l, p, block) else p;
      && Allocate(l, p, block) == (q.(currentSlot := q.currentSlot + l.slotSize), q.currentSlot)
      && RecordAllocate(p, r, block, q.currentSlot) ==
         WithLive(WithSlot(if NeedsBlock(p) then WithBlock(r, block) else r, q.currentSlot), q.currentSlot)
  {
    hide AddBlock;
  }

  lemma {:induction false} FreeListHead(l: Layout, p: Pool, r: Record)
    requires PoolInvariant(l, p, r)
    ensures WORD <= l.slotSize <= l.blockSize
    ensures p.freeSlots == 0 <==> r.free == []
    ensures p.freeSlots != 0 ==> p.freeSlots + WORD <= |p.mem|
  {
    if r.free != [] {
      LinkedTail(p.mem, r.free);
    }
  }

  // ---------- whole histories ----------

  /** A call of the pool, or a client's write. */
  datatype Op = Alloc(block: nat) | Dealloc(slot: nat) | Put(addr: nat, bytes: Bytes)

  datatype Situation = Situation(pool: Pool, record: Record)

  /**
   * What clients and operator new owe the pool: blocks that are fresh, no slot
   * given back that is not live (null is allowed), writes only into live slots
   * or outside the blocks.
   */
  ghost predicate Fair(l: Layout, s: Situation, op: Op) {
    match op
    case Alloc(block) => NeedsBlock(s.pool) ==> FromNew(l, s.pool, s.record, block)
    case Dealloc(slot) => slot == 0 || slot in s.record.live
    case Put(addr, bytes) => MayWrite(l, s.pool, s.record, addr, |bytes|)
  }

  ghost function Do(l: Layout, s: Situation, op: Op): Situation
    requires PoolInvariant(l, s.pool, s.record) && Fair(l, s, op)
  {
    var p, r := s.pool, s.record;
    match op
    case Alloc(block) =>
      AllocateKeeps(l, p, r, block);
      var (q, slot) := Allocate(l, p, block);
      Situation(q, RecordAllocate(p, r, block, slot))
    case Dealloc(slot) =>
      if slot == 0 then s else
      DeallocateKeeps(l, p, r, slot);
      Situation(Deallocate(p, slot), RecordDeallocate(r, slot))
    case Put(addr, bytes) =>
      Situation(Scribble(p, addr, bytes), r)
  }

  lemma {:induction false} DoKeeps(l: Layout, s: Situation, op: Op)
    requires PoolInvariant(l, s.pool, s.record) && Fair(l, s, op)
    ensures var t := Do(l, s, op); PoolInvariant(l, t.pool, t.record)
  {
    hide PoolInvariant, Allocate, Deallocate, Scribble, FromNew, MayWrite;
    match op
    case Alloc(block) => AllocateKeeps(l, s.pool, s.record, block);
    case Dealloc(slot) => if slot != 0 { DeallocateKeeps(l, s.pool, s.record, slot); }
    case Put(addr, bytes) => ScribbleKeeps(l, s.pool, s.record, addr, bytes);
  }

  /** Every operation, in turn, is fair where it happens. */
  ghost predicate AllFair(l: Layout, s: Situation, ops: seq<Op>)
    requires PoolInvariant(l, s.pool, s.record)
    decreases |ops|
  {
    ops == [] || (Fair(l, s, ops[0]) && (DoKeeps(l, s, ops[0]); AllFair(l, Do(l, s, ops[0]), ops[1..])))
  }

  ghost function DoAll(l: Layout, s: Situation, ops: seq<Op>): (t: Situation)
    requires PoolInvariant(l, s.pool, s.record) && AllFair(l, s, ops)
    ensures PoolInvariant(l, t.pool, t.record)
    decreases |ops|
  {
    if ops == [] then s else
      DoKeeps(l, s, ops[0]);
      DoAll(l, Do(l, s, ops[0]), ops[1..])
  }

  lemma {:induction false} EmptyPool(l: Layout, mem: Bytes)
    requires Good(l) && |mem| <= Addresses()
    ensures PoolInvariant(l, Empty(mem), NoRecord())
  {
    SlotAtLeastAlign(l);
  }

  /** A new pool, before any call. */
  ghost function Start(l: Layout, mem: Bytes): (s: Situation)
    requires Good(l) && |mem| <= Addresses()
    ensures PoolInvariant(l, s.pool, s.record)
  {
    EmptyPool(l, mem);
    Situation(Empty(mem), NoRecord())
  }

  // ---------- what follows ----------

  /** The live slots, the freed slots and the headers share no byte. */
  ghost predicate NothingOverlaps(l: Layout, r: Record) {
    && (forall a, b | a in r.live && b in r.live && a != b :: Apart(a, l.slotSize, b, l.slotSize))
    && (forall a, i | a in r.live && 0 <= i < |r.free| :: Apart(a, l.slotSize, r.free[i], l.slotSize))
    && (forall i, j | 0 <= i < j < |r.free| :: Apart(r.free[i], l.slotSize, r.free[j], l.slotSize))
    && (forall a, i | a in r.live && 0 <= i < |r.blocks| :: Apart(a, l.slotSize, r.blocks[i], WORD))
    && (forall i, j | 0 <= i < |r.free| && 0 <= j < |r.blocks| :: Apart(r.free[i], l.slotSize, r.blocks[j], WORD))
  }

  lemma {:induction false} SlotsAndHeadersApart(l: Layout, p: Pool, r: Record)
    requires PoolInvariant(l, p, r)
    ensures NothingOverlaps(l, r)
  {
    hide Linked, PowerOfTwo, CountsOk, Apart, SlotsOk, BlocksOk;
    forall i | 0 <= i < |r.free| ensures r.free[i] in Addrs(r.slots) && r.free[i] !in r.live {
      FreeIsCarved(p, r, i);
    }
    assert forall a | a in r.live :: a in Addrs(r.slots);
    forall a, b | a in Addrs(r.slots) && b in Addrs(r.slots) && a != b ensures Apart(a, l.slotSize, b, l.slotSize) {
      AddressesApart(l, p, r, a, b);
    }
    forall a, i | a in Addrs(r.slots) && 0 <= i < |r.blocks| ensures Apart(a, l.slotSize, r.blocks[i], WORD) {
      HeaderApart(l, p, r, a, i);
    }
  }

  /** As many slots as a block yields fit into it. */
  lemma {:induction false} YieldFits(l: Layout, k: nat)
    requires Good(l) && 1 <= k <= PerBlock(l)
    ensures l.align + k * l.slotSize <= l.blockSize
  {
    SlotAtLeastAlign(l);
    hide PowerOfTwo, PerBlock;
    if k > 1 {
      BlockIsFull(l, k - 1);
      assert k * l.slotSize == (k - 1) * l.slotSize + l.slotSize;
    }
  }

  lemma {:induction false} CurrentInBlock(l: Layout, p: Pool, r: Record)
    requires Good(l) && CountsOk(l, p, r) && r.blocks != []
    ensures r.blocks[0] + WORD <= p.currentSlot <= r.blocks[0] + l.blockSize
  {
    hide PowerOfTwo, PerBlock;
    YieldFits(l, r.inBlock);
  }

  /** What is not carved yet of the newest block is behind the carved slots, and in the block. */
  lemma {:induction false} UncarvedApart(l: Layout, p: Pool, r: Record, a: nat)
    requires PoolInvariant(l, p, r) && r.blocks != [] && a in Addrs(r.slots)
    ensures r.blocks[0] + WORD <= p.currentSlot <= r.blocks[0] + l.blockSize
    ensures Apart(a, l.slotSize, p.currentSlot, r.blocks[0] + l.blockSize - p.currentSlot)
  {
    hide Linked, PowerOfTwo, FreeOk, Power, CountsOk;
    CurrentInBlock(l, p, r);
    var k :| 0 <= k < |r.slots| && r.slots[k].addr == a;
    assert SlotIn(l, r.blocks, r.slots[k]);
    if r.slots[k].block != r.blocks[0] {
      BlocksApart(l, p, r, r.slots[k].block, r.blocks[0]);
    }
  }

  /**
   * After any fair history from an empty pool: the chain of freed slots in
   * memory has no duplicate and ends in null, nothing overlaps, and every live
   * slot is aligned and lies wholly inside one block behind its header.
   */
  lemma {:induction false} EveryHistory(l: Layout, mem: Bytes, ops: seq<Op>)
    requires Good(l) && |mem| <= Addresses() && AllFair(l, Start(l, mem), ops)
    ensures var s := DoAll(l, Start(l, mem), ops);
      && Distinct(s.record.free) && Linked(s.pool.mem, s.record.free) && s.pool.freeSlots == Head(s.record.free)
      && NothingOverlaps(l, s.record)
      && forall a | a in s.record.live ::
           a % l.align == 0 && exists b :: b in s.record.blocks && b + WORD <= a && a + l.slotSize <= b + l.blockSize
  {
    var s := DoAll(l, Start(l, mem), ops);
    SlotsAndHeadersApart(l, s.pool, s.record);
    hide Linked, PowerOfTwo, CountsOk, Apart, SlotsOk, BlocksOk, NothingOverlaps, DoAll;
    forall a | a in s.record.live
      ensures a % l.align == 0
      ensures exists b :: b in s.record.blocks && b + WORD <= a && a + l.slotSize <= b + l.blockSize
    {
      assert a in Addrs(s.record.slots);
      SlotInMemory(l, s.pool, s.record, a);
    }
  }

  /** The next slot handed out is none of the live ones and shares no byte with them. */
  lemma {:induction false} NoLiveSlotTwice(l: Layout, p: Pool, r: Record, block: nat)
    requires PoolInvariant(l, p, r) && (NeedsBlock(p) ==> FromNew(l, p, r, block))
    ensures WORD <= l.slotSize <= l.blockSize && (p.freeSlots != 0 ==> p.freeSlots + WORD <= |p.mem|)
    ensures var slot := Allocate(l, p, block).1;
      slot !in r.live && forall a | a in r.live :: Apart(a, l.slotSize, slot, l.slotSize)
  {
    hide Allocate, RecordAllocate, PoolInvariant, Apart;
    AllocateKeeps(l, p, r, block);
    var (q, slot) := Allocate(l, p, block);
    SlotsAndHeadersApart(l, q, RecordAllocate(p, r, block, slot));
  }

  /**
   * As many slots are carved as were ever live at once, and as many blocks
   * obtained as that takes: the peak over the slots of a block, rounded up.
   */
  lemma {:induction false} BlocksArePeakRoundedUp(l: Layout, p: Pool, r: Record)
    requires PoolInvariant(l, p, r)
    ensures |r.slots| == r.peak
    ensures |r.blocks| == (r.peak + PerBlock(l) - 1) / PerBlock(l)
  {
    hide Linked, PowerOfTwo, FreeOk, SlotsOk, BlocksOk, PerBlock;
    var k, n := PerBlock(l), |r.blocks|;
    if n > 0 {
      assert r.peak + k - 1 == k * n + (r.inBlock - 1);
      RemainderIs(r.peak + k - 1, k, n, r.inBlock - 1);
    } else {
      RemainderIs(k - 1, k, 0, k - 1);
    }
  }
}
