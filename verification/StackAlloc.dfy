// The linked stack whose nodes come from the memory pool.

module StackAlloc {
  import opened Memory
  import opened PoolModel
  import opened PoolProofs
  import opened PoolFrames
  import opened MemoryPool

  /** A node is size bytes of data and, prevAt bytes into it, the pointer to the node below. */
  datatype Format = Format(size: nat, prevAt: nat)

  predicate Fits(f: Format, l: Layout) { f.size <= f.prevAt && f.prevAt + WORD <= l.slotSize }

  /** The bytes of a slot are a node. */
  ghost predicate IsNode(f: Format, bytes: Bytes, data: Bytes, prev: nat) {
    && |data| == f.size <= f.prevAt && f.prevAt + WORD <= |bytes|
    && bytes[..f.size] == data
    && Decode(bytes[f.prevAt..f.prevAt + WORD]) == prev
  }

  /**
   * From head, following prev through memory, the nodes hold the contents, top
   * first.
   */
  ghost predicate Holds(f: Format, l: Layout, m: Bytes, nodes: seq<nat>, contents: seq<Bytes>) {
    && |nodes| == |contents| && Distinct(nodes)
    && forall i {:trigger nodes[i]} | 0 <= i < |nodes| ::
         && 0 < nodes[i] && nodes[i] + l.slotSize <= |m|
         && IsNode(f, m[nodes[i]..nodes[i] + l.slotSize], contents[i], Head(nodes[i + 1..]))
  }

  lemma {:induction false} HoldsKept(f: Format, l: Layout, m: Bytes, m': Bytes, nodes: seq<nat>, contents: seq<Bytes>)
    requires Holds(f, l, m, nodes, contents) && SlotsKept(l, m, m', Elements(nodes))
    ensures Holds(f, l, m', nodes, contents)
  {
    hide IsNode, Head;
    forall i | 0 <= i < |nodes| ensures nodes[i] in Elements(nodes) {
    }
  }

  // ---------- push and pop on memory ----------

  /** The memory once a new node has been constructed and its two members assigned. */
  function Built(f: Format, l: Layout, m: Bytes, node: nat, data: Bytes, prev: nat): (m': Bytes)
    requires Fits(f, l) && |data| == f.size && node + l.slotSize <= |m|
    ensures |m'| == |m|
  {
    Store(Write(Write(m, node, Zeros(l.slotSize)), node, data), node + f.prevAt, prev)
  }

  function Zeros(n: nat): (b: Bytes)
    ensures |b| == n
  {
    seq(n, _ => 0)
  }

  lemma {:induction false} Inside(m: Bytes, a: nat, n: nat, i: nat, j: nat)
    requires a + n <= |m| && i <= j <= n
    ensures m[a..a + n][i..j] == m[a + i..a + j]
  {
    var x, y := m[a..a + n][i..j], m[a + i..a + j];
    forall k | 0 <= k < |x| ensures x[k] == y[k] {
      assert x[k] == m[a..a + n][i + k];
    }
  }

  lemma {:induction false} BuiltIsNode(f: Format, l: Layout, m: Bytes, node: nat, data: Bytes, prev: nat)
    requires Fits(f, l) && |data| == f.size && node + l.slotSize <= |m| && prev < Addresses()
    ensures IsNode(f, Built(f, l, m, node, data, prev)[node..node + l.slotSize], data, prev)
  {
    hide Write, Encode, Decode, Zeros, Power;
    var m1 := Write(m, node, Zeros(l.slotSize));
    var m2 := Write(m1, node, data);
    var m3 := Store(m2, node + f.prevAt, prev);
    ReadWritten(m1, node, data);
    ReadApart(m2, node + f.prevAt, Encode(prev, WORD), node, f.size);
    LoadStored(m2, node + f.prevAt, prev);
    var bytes := m3[node..node + l.slotSize];
    Inside(m3, node, l.slotSize, 0, f.size);
    Inside(m3, node, l.slotSize, f.prevAt, f.prevAt + WORD);
  }

  lemma {:induction false} HoldsPush(
      f: Format, l: Layout, m: Bytes, nodes: seq<nat>, contents: seq<Bytes>, node: nat, data: Bytes)
    requires Holds(f, l, m, nodes, contents) && node !in Elements(nodes)
    requires 0 < node && node + l.slotSize <= |m|
    requires IsNode(f, m[node..node + l.slotSize], data, Head(nodes))
    ensures Holds(f, l, m, [node] + nodes, [data] + contents)
  {
    hide IsNode, Head;
    DistinctPush(nodes, node);
    var ns, cs := [node] + nodes, [data] + contents;
    assert ns[0 + 1..] == nodes;
    forall i {:trigger ns[i]} | 0 <= i < |ns|
      ensures 0 < ns[i] && ns[i] + l.slotSize <= |m|
      ensures IsNode(f, m[ns[i]..ns[i] + l.slotSize], cs[i], Head(ns[i + 1..]))
    {
      if i > 0 {
        assert ns[i] == nodes[i - 1] && cs[i] == contents[i - 1] && ns[i + 1..] == nodes[i..];
      }
    }
  }

  /** The top node tells the top item and the node below; what is below still holds the rest. */
  lemma {:induction false} HoldsPop(f: Format, l: Layout, m: Bytes, nodes: seq<nat>, contents: seq<Bytes>)
    requires Holds(f, l, m, nodes, contents) && nodes != []
    ensures 0 < nodes[0] && nodes[0] + l.slotSize <= |m| && f.prevAt + WORD <= l.slotSize && f.size <= f.prevAt
    ensures m[nodes[0]..nodes[0] + f.size] == contents[0]
    ensures Load(m, nodes[0] + f.prevAt) == Head(nodes[1..])
    ensures Holds(f, l, m, nodes[1..], contents[1..])
    ensures Elements(nodes[1..]) == Elements(nodes) - {nodes[0]}
  {
    hide Head, Decode;
    DistinctTail(nodes);
    var n := nodes[0];
    assert IsNode(f, m[n..n + l.slotSize], contents[0], Head(nodes[1..]));
    Inside(m, n, l.slotSize, 0, f.size);
    Inside(m, n, l.slotSize, f.prevAt, f.prevAt + WORD);
    var ns, cs := nodes[1..], contents[1..];
    forall i {:trigger ns[i]} | 0 <= i < |ns|
      ensures 0 < ns[i] && ns[i] + l.slotSize <= |m|
      ensures IsNode(f, m[ns[i]..ns[i] + l.slotSize], cs[i], Head(ns[i + 1..]))
    {
      assert ns[i] == nodes[i + 1] && cs[i] == contents[i + 1] && ns[i + 1..] == nodes[i + 1 + 1..];
    }
  }

  // ---------- the stack object ----------

  /** contents is the stack, top first; nodes are the addresses of its nodes. */
  class StackAlloc {
    const format: Format
    const pool: MemoryPool
    var head: nat
    ghost var nodes: seq<nat>
    ghost var contents: seq<Bytes>

    /** The nodes are exactly the live slots of the pool. */
    ghost predicate Valid()
      reads this, pool, pool.heap
    {
      && pool.Valid() && Fits(format, pool.layout)
      && head == Head(nodes)
      && Elements(nodes) == pool.record.live
      && Holds(format, pool.layout, pool.heap.bytes, nodes, contents)
    }

    constructor (format: Format, pool: MemoryPool)
      requires pool.Valid() && pool.record.live == {} && Fits(format, pool.layout)
      ensures Valid() && contents == [] && this.pool == pool && this.format == format
    {
      this.format, this.pool := format, pool;
      head, nodes, contents := 0, [], [];
    }

    method IsEmpty() returns (empty: bool)
      requires Valid()
      ensures empty <==> contents == []
    {
      if nodes != [] {
        HoldsPop(format, pool.layout, pool.heap.bytes, nodes, contents);
      }
      empty := head == 0;
    }

    method Top() returns (data: Bytes)
      requires Valid() && contents != []
      ensures data == contents[0]
    {
      hide PoolInvariant;
      HoldsPop(format, pool.layout, pool.heap.bytes, nodes, contents);
      data := pool.heap.bytes[head..head + format.size];
    }

    /** The node just allocated is constructed and its members are assigned. */
    method Build(node: nat, data: Bytes, prev: nat)
      requires pool.Valid() && Fits(format, pool.layout) && |data| == format.size
      requires node in pool.record.live && prev < Addresses()
      modifies pool.heap
      ensures pool.Valid() && pool.record == old(pool.record)
      ensures |pool.heap.bytes| == old(|pool.heap.bytes|)
      ensures 0 < node && node + pool.layout.slotSize <= |pool.heap.bytes|
      ensures IsNode(format, pool.heap.bytes[node..node + pool.layout.slotSize], data, prev)
      ensures SlotsKept(pool.layout, old(pool.heap.bytes), pool.heap.bytes, pool.record.live - {node})
    {
      hide PoolInvariant, Write, Encode, Decode, Zeros, IsNode, Power, Apart;
      var l := pool.layout;
      ghost var m := pool.heap.bytes;
      LiveFits(l, pool.Value(), pool.record, node);
      WriteKeepsOthers(l, pool.Value(), pool.record, node, node, Zeros(l.slotSize));
      pool.Put(node, Zeros(l.slotSize));
      WriteKeepsOthers(l, pool.Value(), pool.record, node, node, data);
      pool.Put(node, data);
      WriteKeepsOthers(l, pool.Value(), pool.record, node, node + format.prevAt, Encode(prev, WORD));
      pool.Put(node + format.prevAt, Encode(prev, WORD));
      assert pool.heap.bytes == Built(format, l, m, node, data, prev);
      BuiltIsNode(format, l, m, node, data, prev);
    }

    method Push(data: Bytes, newBlock: nat)
      requires Valid() && |data| == format.size
      requires NeedsBlock(pool.Value()) ==> FromNew(pool.layout, pool.Value(), pool.record, newBlock)
      modifies this, pool, pool.heap
      ensures Valid() && contents == [data] + old(contents)
    {
      hide PoolInvariant, NeedsBlock, FromNew, Holds, IsNode, SlotsKept;
      var l := pool.layout;
      ghost var m := pool.heap.bytes;
      AllocateKeepsSlots(l, pool.Value(), pool.record, newBlock);
      var node := pool.Allocate(newBlock);
      HoldsKept(format, l, m, pool.heap.bytes, nodes, contents);
      ghost var m1 := pool.heap.bytes;
      HeadIsAddress(format, l, m1, nodes, contents, pool.Value(), pool.record);
      Build(node, data, head);
      assert pool.record.live - {node} == Elements(nodes);
      HoldsKept(format, l, m1, pool.heap.bytes, nodes, contents);
      HoldsPush(format, l, pool.heap.bytes, nodes, contents, node, data);
      DistinctIfHeld(format, l, pool.heap.bytes, nodes, contents);
      DistinctPush(nodes, node);
      head := node;
      nodes, contents := [node] + nodes, [data] + contents;
    }

    method Pop() returns (data: Bytes)
      requires Valid() && contents != []
      modifies this, pool, pool.heap
      ensures Valid() && data == old(contents)[0] && contents == old(contents)[1..]
    {
      hide PoolInvariant, Holds, IsNode, SlotsKept, Load, Elements, Write, Encode;
      var l := pool.layout;
      HoldsNonempty(format, l, pool.heap.bytes, nodes, contents);
      HoldsPop(format, l, pool.heap.bytes, nodes, contents);
      data := pool.heap.bytes[head..head + format.size];
      var below := Load(pool.heap.bytes, head + format.prevAt);
      Release(below);
    }

    /** The top node goes back to the pool. */
    method Release(below: nat)
      requires Valid() && nodes != [] && below == Head(nodes[1..])
      modifies this, pool, pool.heap
      ensures Valid() && contents == old(contents)[1..] && nodes == old(nodes)[1..]
    {
      hide PoolInvariant, Holds, IsNode, SlotsKept, Load, Write, Encode;
      var l := pool.layout;
      ghost var m := pool.heap.bytes;
      HoldsNonempty(format, l, m, nodes, contents);
      HoldsPop(format, l, m, nodes, contents);
      assert head in pool.record.live;
      WriteKeepsOthers(l, pool.Value(), pool.record, head, head, Encode(pool.freeSlots, WORD)) by {
        LiveFits(l, pool.Value(), pool.record, head);
        FitsWord(format, l);
      }
      pool.Deallocate(head);
      HoldsKept(format, l, m, pool.heap.bytes, nodes[1..], contents[1..]);
      head := below;
      nodes, contents := nodes[1..], contents[1..];
    }

    /** `clear`, as the destructor runs it: every node goes back to the pool. */
    method Clear()
      requires Valid()
      modifies this, pool, pool.heap
      ensures pool.Valid() && pool.record.live == {} && |pool.record.free| == |pool.record.slots|
    {
      hide PoolInvariant, Holds, IsNode, SlotsKept, Load, Write, Encode;
      while head != 0
        invariant Valid()
        decreases |nodes|
      {
        HoldsPop(format, pool.layout, pool.heap.bytes, nodes, contents);
        var below := Load(pool.heap.bytes, head + format.prevAt);
        Release(below);
      }
      if nodes != [] {
        HoldsPop(format, pool.layout, pool.heap.bytes, nodes, contents);
      }
      NothingLive(pool.layout, pool.Value(), pool.record);
    }
  }

  lemma FitsWord(f: Format, l: Layout)
    requires Fits(f, l)
    ensures WORD <= l.slotSize
  {
  }

  lemma NothingLive(l: Layout, p: Pool, r: Record)
    requires PoolInvariant(l, p, r)
    ensures r.live == {} ==> |r.free| == |r.slots|
  {
  }

  lemma HoldsNonempty(f: Format, l: Layout, m: Bytes, nodes: seq<nat>, contents: seq<Bytes>)
    requires Holds(f, l, m, nodes, contents)
    ensures |nodes| == |contents|
  {
  }

  lemma DistinctIfHeld(f: Format, l: Layout, m: Bytes, nodes: seq<nat>, contents: seq<Bytes>)
    requires Holds(f, l, m, nodes, contents)
    ensures Distinct(nodes)
  {
  }

  lemma {:induction false} HeadIsAddress(
      f: Format, l: Layout, m: Bytes, nodes: seq<nat>, contents: seq<Bytes>, p: Pool, r: Record)
    requires Holds(f, l, m, nodes, contents) && p.mem == m && PoolInvariant(l, p, r)
    ensures Head(nodes) < Addresses()
  {
    hide Power, PowerOfTwo, SlotsOk, FreeOk, CountsOk;
    assert Addresses() >= |m|;
    PowerPositive(256, WORD);
    if nodes != [] {
      HoldsPop(f, l, m, nodes, contents);
    }
  }
}
