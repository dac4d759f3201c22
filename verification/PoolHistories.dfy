// What clients see of the pool over a whole history: which slots they are
// given, which they hold, how many at most, and what those contain.  It is told
// by the calls and their results alone.

module PoolHistories {
  import opened Memory
  import opened PoolModel
  import opened PoolProofs
  import opened PoolFrames

  /** The slots that the history's calls of allocate return. */
  ghost function Results(l: Layout, s: Situation, ops: seq<Op>): seq<nat>
    requires PoolInvariant(l, s.pool, s.record) && AllFair(l, s, ops)
    decreases |ops|
  {
    if ops == [] then [] else
      DoKeeps(l, s, ops[0]);
      FreeListHead(l, s.pool, s.record);
      (if ops[0].Alloc? then [Allocate(l, s.pool, ops[0].block).1] else []) +
      Results(l, Do(l, s, ops[0]), ops[1..])
  }

  // ---------- what the calls and their results say ----------

  /** What a client that holds the given slots holds at the end. */
  function Held(ops: seq<Op>, results: seq<nat>, held: set<nat>): set<nat>
    decreases |ops|
  {
    if ops == [] then held else
    match ops[0]
    case Alloc(_) => if results == [] then held else Held(ops[1..], results[1..], held + {results[0]})
    case Dealloc(slot) => Held(ops[1..], results, held - {slot})
    case Put(_, _) => Held(ops[1..], results, held)
  }

  /** The most slots held at once, from now on. */
  function PeakHeld(ops: seq<Op>, results: seq<nat>, held: set<nat>): nat
    decreases |ops|
  {
    if ops == [] then |held| else
    Max(|held|,
      match ops[0]
      case Alloc(_) => if results == [] then 0 else PeakHeld(ops[1..], results[1..], held + {results[0]})
      case Dealloc(slot) => PeakHeld(ops[1..], results, held - {slot})
      case Put(_, _) => PeakHeld(ops[1..], results, held))
  }

  /**
   * Slots given back are handed out again, the last one first; only when there
   * is none a slot is returned that was never returned before.
   */
  ghost predicate LastInFirstOut(ops: seq<Op>, results: seq<nat>, returned: seq<nat>, used: set<nat>)
    decreases |ops|
  {
    if ops == [] then results == [] else
    match ops[0]
    case Alloc(_) =>
      && results != []
      && (if returned != [] then results[0] == returned[0] else results[0] !in used)
      && LastInFirstOut(ops[1..], results[1..], if returned != [] then returned[1..] else [], used + {results[0]})
    case Dealloc(slot) => LastInFirstOut(ops[1..], results, if slot == 0 then returned else [slot] + returned, used)
    case Put(_, _) => LastInFirstOut(ops[1..], results, returned, used)
  }

  // ---------- one operation ----------

  lemma {:induction false} AllocIs(l: Layout, s: Situation, block: nat)
    requires PoolInvariant(l, s.pool, s.record) && Fair(l, s, Alloc(block))
    ensures WORD <= l.slotSize <= l.blockSize && (s.pool.freeSlots != 0 ==> s.pool.freeSlots + WORD <= |s.pool.mem|)
    ensures var slot, r, t := Allocate(l, s.pool, block).1, s.record, Do(l, s, Alloc(block)).record;
      && slot !in r.live && t.live == r.live + {slot}
      && (if r.free != [] then slot == r.free[0] && t.free == r.free[1..]
          else slot !in Addrs(r.slots) && t.free == [])
      && Addrs(t.slots) == Addrs(r.slots) + {slot}
      && t.peak == Max(r.peak, |t.live|)
  {
    hide PoolInvariant, Allocate, Addrs;
    var p, r := s.pool, s.record;
    AllocateKeeps(l, p, r, block);
    FreeListHead(l, p, r);
    FreeOrCarved(l, p, r);
    var slot := Allocate(l, p, block).1;
    if r.free == [] {
      CarvedAddrs(if NeedsBlock(p) then WithBlock(r, block) else r, slot);
    } else {
      ReusedSlot(l, p, r, block);
    }
  }

  lemma {:induction false} FreeOrCarved(l: Layout, p: Pool, r: Record)
    requires PoolInvariant(l, p, r)
    ensures r.free == [] ==> r.live == Addrs(r.slots)
    ensures r.free != [] ==> r.free[0] in Addrs(r.slots) && p.freeSlots == r.free[0]
  {
    hide Linked, PowerOfTwo, SlotsOk, BlocksOk, CountsOk;
    if r.free == [] {
      assert Elements(r.free) == {};
    } else {
      FreeIsCarved(p, r, 0);
    }
  }

  lemma {:induction false} ReusedSlot(l: Layout, p: Pool, r: Record, block: nat)
    requires WORD <= l.slotSize <= l.blockSize && p.freeSlots != 0 && p.freeSlots + WORD <= |p.mem|
    ensures Allocate(l, p, block).1 == p.freeSlots
  {
  }

  lemma {:induction false} CarvedAddrs(r: Record, slot: nat)
    ensures Addrs(WithSlot(r, slot).slots) == Addrs(r.slots) + {slot}
  {
    var slots := WithSlot(r, slot).slots;
    assert forall s :: s in slots <==> s in r.slots || s == Slot(slot, Head(r.blocks));
  }

  lemma {:induction false} DeallocIs(l: Layout, s: Situation, slot: nat)
    requires PoolInvariant(l, s.pool, s.record) && Fair(l, s, Dealloc(slot))
    ensures var r, t := s.record, Do(l, s, Dealloc(slot)).record;
      && t.live == r.live - {slot} && t.free == (if slot == 0 then r.free else [slot] + r.free)
      && Addrs(t.slots) == Addrs(r.slots) && t.peak == r.peak
  {
    hide Linked, PowerOfTwo, SlotsOk, BlocksOk, FreeOk, CountsOk;
    NullIsNotLive(l, s.pool, s.record);
  }

  lemma {:induction false} NullIsNotLive(l: Layout, p: Pool, r: Record)
    requires PoolInvariant(l, p, r)
    ensures 0 !in r.live
  {
    hide PoolInvariant;
    if 0 in r.live { LiveFits(l, p, r, 0); }
  }

  lemma {:induction false} PutIs(l: Layout, s: Situation, addr: nat, bytes: Bytes)
    requires PoolInvariant(l, s.pool, s.record) && Fair(l, s, Put(addr, bytes))
    ensures addr + |bytes| <= |s.pool.mem|
    ensures Do(l, s, Put(addr, bytes)).record == s.record
    ensures Do(l, s, Put(addr, bytes)).pool.mem == Write(s.pool.mem, addr, bytes)
  {
  }

  /** The most slots that were live at once is never below those live now. */
  lemma {:induction false} PeakCovers(l: Layout, p: Pool, r: Record)
    requires PoolInvariant(l, p, r)
    ensures |r.live| <= r.peak
  {
    hide Linked, PowerOfTwo, SlotsOk, BlocksOk;
  }

  // ---------- whole histories ----------

  lemma {:induction false} HistoryIs(l: Layout, s: Situation, ops: seq<Op>)
    requires PoolInvariant(l, s.pool, s.record) && AllFair(l, s, ops)
    ensures var t, results := DoAll(l, s, ops), Results(l, s, ops);
      && t.record.live == Held(ops, results, s.record.live)
      && LastInFirstOut(ops, results, s.record.free, Addrs(s.record.slots))
      && t.record.peak == Max(s.record.peak, PeakHeld(ops, results, s.record.live))
    decreases |ops|
  {
    hide PoolInvariant, Fair, Do, Allocate, Addrs;
    PeakCovers(l, s.pool, s.record);
    if ops != [] {
      DoKeeps(l, s, ops[0]);
      var u := Do(l, s, ops[0]);
      HistoryIs(l, u, ops[1..]);
      PeakCovers(l, u.pool, u.record);
      match ops[0]
      case Alloc(block) =>
        AllocIs(l, s, block);
        var results := Results(l, s, ops);
        assert results[1..] == Results(l, u, ops[1..]);
      case Dealloc(slot) =>
        DeallocIs(l, s, slot);
        assert [] + Results(l, u, ops[1..]) == Results(l, u, ops[1..]);
      case Put(addr, bytes) =>
        PutIs(l, s, addr, bytes);
        assert [] + Results(l, u, ops[1..]) == Results(l, u, ops[1..]);
    }
  }

  /**
   * Over any fair history of a new pool: slots given back are handed out again,
   * the last one first, others are new; the live slots are those that clients
   * hold; and as many slots are carved as clients ever held at once.
   */
  lemma {:induction false} ClientsHoldWhatIsLive(l: Layout, mem: Bytes, ops: seq<Op>)
    requires Good(l) && |mem| <= Addresses() && AllFair(l, Start(l, mem), ops)
    ensures var s, results := DoAll(l, Start(l, mem), ops).record, Results(l, Start(l, mem), ops);
      && LastInFirstOut(ops, results, [], {})
      && s.live == Held(ops, results, {})
      && |s.slots| == PeakHeld(ops, results, {})
  {
    hide PoolInvariant, DoAll, AllFair;
    HistoryIs(l, Start(l, mem), ops);
    var t := DoAll(l, Start(l, mem), ops);
    BlocksArePeakRoundedUp(l, t.pool, t.record);
    NothingUsed();
  }

  lemma NothingUsed()
    ensures Addrs(NoRecord().slots) == {} && NoRecord().live == {} && NoRecord().free == [] && NoRecord().peak == 0
  {
  }

  // ---------- what live slots contain ----------

  /** The memory if only the client's writes had happened. */
  function PutsOnly(m: Bytes, ops: seq<Op>): (m': Bytes)
    ensures |m'| == |m|
    decreases |ops|
  {
    if ops == [] then m
    else if ops[0].Put? && ops[0].addr + |ops[0].bytes| <= |m|
    then PutsOnly(Write(m, ops[0].addr, ops[0].bytes), ops[1..])
    else PutsOnly(m, ops[1..])
  }

  lemma {:induction false} WriteLocal(m: Bytes, m': Bytes, x: nat, b: Bytes, a: nat, n: nat)
    requires |m| == |m'| && x + |b| <= |m| && a + n <= |m| && m[a..a + n] == m'[a..a + n]
    ensures Write(m, x, b)[a..a + n] == Write(m', x, b)[a..a + n]
  {
    forall i | a <= i < a + n ensures Write(m, x, b)[i] == Write(m', x, b)[i] {
      assert m[i] == m[a..a + n][i - a] == m'[a..a + n][i - a] == m'[i];
    }
  }

  lemma {:induction false} PutsLocal(m: Bytes, m': Bytes, ops: seq<Op>, a: nat, n: nat)
    requires |m| == |m'| && a + n <= |m| && m[a..a + n] == m'[a..a + n]
    ensures PutsOnly(m, ops)[a..a + n] == PutsOnly(m', ops)[a..a + n]
    decreases |ops|
  {
    hide Write;
    if ops != [] {
      if ops[0].Put? && ops[0].addr + |ops[0].bytes| <= |m| {
        WriteLocal(m, m', ops[0].addr, ops[0].bytes, a, n);
        PutsLocal(Write(m, ops[0].addr, ops[0].bytes), Write(m', ops[0].addr, ops[0].bytes), ops[1..], a, n);
      } else {
        PutsLocal(m, m', ops[1..], a, n);
      }
    }
  }

  /** No call of the pool changes a slot that stays live. */
  lemma {:induction false} OpKeepsSlot(l: Layout, s: Situation, op: Op, a: nat)
    requires PoolInvariant(l, s.pool, s.record) && Fair(l, s, op) && a in s.record.live && op != Dealloc(a)
    ensures var t, m := Do(l, s, op), s.pool.mem;
      && a in t.record.live && a + l.slotSize <= |m| == |t.pool.mem|
      && t.pool.mem[a..a + l.slotSize] == PutsOnly(m, [op])[a..a + l.slotSize]
  {
    hide PoolInvariant, Write, Encode, Allocate, Addrs, Fair, Do, SlotsKept;
    LiveFits(l, s.pool, s.record, a);
    NullIsNotLive(l, s.pool, s.record);
    OwnPuts(s.pool.mem, op);
    match op
    case Alloc(block) =>
      AllocIs(l, s, block);
      AllocLeaves(l, s, block, a);
    case Dealloc(slot) =>
      DeallocIs(l, s, slot);
      DeallocLeaves(l, s, slot, a);
    case Put(addr, bytes) => PutIs(l, s, addr, bytes);
  }

  lemma {:induction false} OwnPuts(m: Bytes, op: Op)
    ensures PutsOnly(m, [op]) == if op.Put? && op.addr + |op.bytes| <= |m| then Write(m, op.addr, op.bytes) else m
  {
    assert [op][1..] == [];
  }

  lemma {:induction false} AllocLeaves(l: Layout, s: Situation, block: nat, a: nat)
    requires PoolInvariant(l, s.pool, s.record) && Fair(l, s, Alloc(block)) && a in s.record.live
    ensures var t := Do(l, s, Alloc(block)).pool;
      && |t.mem| == |s.pool.mem| && a + l.slotSize <= |s.pool.mem|
      && t.mem[a..a + l.slotSize] == s.pool.mem[a..a + l.slotSize]
  {
    hide PoolInvariant, Write, Encode, Allocate, FromNew, RecordAllocate, Addrs;
    LiveFits(l, s.pool, s.record, a);
    AllocateKeepsSlots(l, s.pool, s.record, block);
  }

  lemma {:induction false} DeallocLeaves(l: Layout, s: Situation, slot: nat, a: nat)
    requires PoolInvariant(l, s.pool, s.record) && Fair(l, s, Dealloc(slot)) && a in s.record.live && a != slot
    ensures var t := Do(l, s, Dealloc(slot)).pool;
      && |t.mem| == |s.pool.mem| && a + l.slotSize <= |s.pool.mem|
      && t.mem[a..a + l.slotSize] == s.pool.mem[a..a + l.slotSize]
  {
    hide PoolInvariant, Write, Encode, RecordDeallocate, Addrs;
    LiveFits(l, s.pool, s.record, a);
    if slot != 0 {
      LiveFits(l, s.pool, s.record, slot);
      FreeListHead(l, s.pool, s.record);
      WriteKeepsOthers(l, s.pool, s.record, slot, slot, Encode(s.pool.freeSlots, WORD));
      assert a in s.record.live - {slot};
    }
  }

  /** A slot that stays live contains what clients have put there. */
  lemma {:induction false} SlotsContainWhatWasPut(l: Layout, s: Situation, ops: seq<Op>, a: nat)
    requires PoolInvariant(l, s.pool, s.record) && AllFair(l, s, ops)
    requires a in s.record.live && Dealloc(a) !in ops
    ensures var t, m := DoAll(l, s, ops), s.pool.mem;
      && a in t.record.live && a + l.slotSize <= |m| == |t.pool.mem|
      && t.pool.mem[a..a + l.slotSize] == PutsOnly(m, ops)[a..a + l.slotSize]
    decreases |ops|
  {
    hide PoolInvariant, Fair, Do, Write;
    LiveFits(l, s.pool, s.record, a);
    if ops != [] {
      DoKeeps(l, s, ops[0]);
      OpKeepsSlot(l, s, ops[0], a);
      var u := Do(l, s, ops[0]);
      SlotsContainWhatWasPut(l, u, ops[1..], a);
      var m := PutsOnly(s.pool.mem, [ops[0]]);
      assert [ops[0]][1..] == [];
      PutsLocal(u.pool.mem, m, ops[1..], a, l.slotSize);
      assert PutsOnly(s.pool.mem, ops) == PutsOnly(m, ops[1..]);
    }
  }
}
