// The memory pool as values: slots carved from blocks, freed slots chained
// through their own first words, blocks chained through their headers.

module PoolModel {
  import opened Memory

  /** The size and alignment of a slot, and the size of a block. */
  datatype Layout = Layout(slotSize: Positive, align: Positive, blockSize: nat)

  type Positive = n: nat | n > 0 witness 1

  /**
   * A slot is a union with a pointer in it, so its alignment is that of a
   * pointer or more and its size a multiple of that; BlockSize is checked by
   * the static_assert.
   */
  ghost predicate Good(l: Layout) {
    && PowerOfTwo(l.align) && l.align >= WORD
    && l.slotSize % l.align == 0
    && l.blockSize >= 2 * l.slotSize
  }

  /** The memory and the four pointers of the pool. */
  datatype Pool = Pool(mem: Bytes, currentBlock: nat, currentSlot: nat, lastSlot: nat, freeSlots: nat)

  function Empty(mem: Bytes): Pool { Pool(mem, 0, 0, 0, 0) }

  // ---------- the operations ----------

  /** A new block is linked in front of the others, and its first slot is the current one. */
  function AddBlock(l: Layout, p: Pool, block: nat): Pool
    requires WORD <= l.slotSize <= l.blockSize && block + l.blockSize <= |p.mem|
  {
    var body := block + WORD;
    Pool(Store(p.mem, block, p.currentBlock), block, body + Padding(l.align, body),
         block + l.blockSize - l.slotSize, p.freeSlots)
  }

  predicate NeedsBlock(p: Pool) { p.freeSlots == 0 && p.currentSlot >= p.lastSlot }

  /** allocate(1); block is what operator new returns if it is asked. */
  function Allocate(l: Layout, p: Pool, block: nat): (r: (Pool, nat))
    requires WORD <= l.slotSize <= l.blockSize
    requires p.freeSlots != 0 ==> p.freeSlots + WORD <= |p.mem|
    requires NeedsBlock(p) ==> block + l.blockSize <= |p.mem|
  {
    if p.freeSlots != 0 then (p.(freeSlots := Load(p.mem, p.freeSlots)), p.freeSlots) else
    var q := if NeedsBlock(p) then AddBlock(l, p, block) else p;
    (q.(currentSlot := q.currentSlot + l.slotSize), q.currentSlot)
  }

  function Deallocate(p: Pool, slot: nat): Pool
    requires slot + WORD <= |p.mem|
  {
    if slot == 0 then p else p.(mem := Store(p.mem, slot, p.freeSlots), freeSlots := slot)
  }

  /** A client writes into memory. */
  function Scribble(p: Pool, a: nat, b: Bytes): Pool
    requires a + |b| <= |p.mem|
  {
    p.(mem := Write(p.mem, a, b))
  }

  // ---------- what has happened so far ----------

  /** A carved slot and the block it lies in. */
  datatype Slot = Slot(addr: nat, block: nat)

  /**
   * blocks and free in the order of their chains, newest first; slots in the
   * order they were carved; inBlock counts the slots carved from the newest
   * block; peak is the largest number of slots that were live at once.
   */
  datatype Record = Record(blocks: seq<nat>, slots: seq<Slot>, inBlock: nat, free: seq<nat>, live: set<nat>, peak: nat)

  function NoRecord(): Record { Record([], [], 0, [], {}, 0) }

  function Max(x: nat, y: nat): nat { if x > y then x else y }

  function WithLive(r: Record, slot: nat): Record {
    r.(live := r.live + {slot}, peak := Max(r.peak, |r.live + {slot}|))
  }

  function WithBlock(r: Record, block: nat): Record { r.(blocks := [block] + r.blocks, inBlock := 0) }

  function WithSlot(r: Record, slot: nat): Record {
    r.(slots := r.slots + [Slot(slot, Head(r.blocks))], inBlock := r.inBlock + 1)
  }

  function RecordAllocate(p: Pool, r: Record, block: nat, result: nat): Record
  {
    if p.freeSlots != 0 then
      if r.free == [] then r else WithLive(r.(free := r.free[1..]), result)
    else
      WithLive(WithSlot(if NeedsBlock(p) then WithBlock(r, block) else r, result), result)
  }

  function RecordDeallocate(r: Record, slot: nat): Record {
    if slot == 0 then r else r.(free := [slot] + r.free, live := r.live - {slot})
  }

  // ---------- the invariant ----------

  /** The blocks are aligned, in memory and apart, and chained through their headers. */
  ghost predicate BlocksOk(l: Layout, p: Pool, r: Record) {
    && |p.mem| <= Addresses()
    && (forall i | 0 <= i < |r.blocks| ::
          r.blocks[i] > 0 && r.blocks[i] % l.align == 0 && r.blocks[i] + l.blockSize <= |p.mem|)
    && (forall i, j | 0 <= i < j < |r.blocks| :: Apart(r.blocks[i], l.blockSize, r.blocks[j], l.blockSize))
    && p.currentBlock == Head(r.blocks)
    && Linked(p.mem, r.blocks)
  }

  /** A slot is aligned and lies in its block, behind the header. */
  ghost predicate SlotIn(l: Layout, blocks: seq<nat>, s: Slot) {
    && s.block in blocks
    && s.addr % l.align == 0
    && s.block + WORD <= s.addr && s.addr + l.slotSize <= s.block + l.blockSize
  }

  ghost predicate SlotsOk(l: Layout, blocks: seq<nat>, slots: seq<Slot>, currentSlot: nat) {
    && (forall i | 0 <= i < |slots| :: SlotIn(l, blocks, slots[i]))
    && (forall i, j | 0 <= i < j < |slots| ::
          slots[i].block != slots[j].block || slots[i].addr + l.slotSize <= slots[j].addr)
    && (forall i | 0 <= i < |slots| && slots[i].block == Head(blocks) ::
          slots[i].addr + l.slotSize <= currentSlot)
  }

  function Addrs(slots: seq<Slot>): set<nat> { set s | s in slots :: s.addr }

  /** The chain of freed slots, as it stands in memory: no cycle, no duplicate, and it ends. */
  ghost predicate FreeOk(p: Pool, r: Record) {
    && Distinct(r.free)
    && r.live !! Elements(r.free)
    && r.live + Elements(r.free) == Addrs(r.slots)
    && |r.live| + |r.free| == |r.slots|
    && p.freeSlots == Head(r.free)
    && Linked(p.mem, r.free)
  }

  /** How many slots a block yields: the first one unchecked, then while one fits strictly before the last. */
  function PerBlock(l: Layout): (k: nat)
    ensures k >= 1
  {
    var room := l.blockSize - l.slotSize - l.align;
    if room <= l.slotSize then 1 else (room + l.slotSize - 1) / l.slotSize
  }

  /** Blocks before the newest are used up, so the number of slots tells the number of blocks. */
  ghost predicate CountsOk(l: Layout, p: Pool, r: Record) {
    && r.peak == |r.slots|
    && if r.blocks == [] then r.slots == [] && p.currentSlot == p.lastSlot == 0 else
         var b := r.blocks[0];
         && 1 <= r.inBlock <= PerBlock(l)
         && |r.slots| == PerBlock(l) * (|r.blocks| - 1) + r.inBlock
         && p.currentSlot == b + l.align + r.inBlock * l.slotSize
         && p.lastSlot == b + l.blockSize - l.slotSize
  }

  ghost predicate PoolInvariant(l: Layout, p: Pool, r: Record) {
    && Good(l) && WORD <= l.slotSize <= l.blockSize
    && BlocksOk(l, p, r)
    && SlotsOk(l, r.blocks, r.slots, p.currentSlot)
    && FreeOk(p, r)
    && CountsOk(l, p, r)
  }

  /** What operator new promises: an aligned block in memory, apart from the blocks in use. */
  ghost predicate FromNew(l: Layout, p: Pool, r: Record, block: nat) {
    && block > 0 && block % l.align == 0 && block + l.blockSize <= |p.mem|
    && forall i | 0 <= i < |r.blocks| :: Apart(block, l.blockSize, r.blocks[i], l.blockSize)
  }

  /** Clients write into live slots, and into memory outside the blocks. */
  ghost predicate MayWrite(l: Layout, p: Pool, r: Record, a: nat, n: nat) {
    && a + n <= |p.mem|
    && ((exists s :: s in r.live && s <= a && a + n <= s + l.slotSize) ||
        (forall i | 0 <= i < |r.blocks| :: Apart(a, n, r.blocks[i], l.blockSize)))
  }
}
