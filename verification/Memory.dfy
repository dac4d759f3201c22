// A byte-addressed memory with pointers stored in eight bytes each, and the
// arithmetic of alignment.

module Memory {
  import opened Arithmetic

  newtype byte = x: int | 0 <= x < 256

  const WORD: nat := 8

  /** The memory, byte by byte; address 0 is never the address of anything. */
  type Bytes = seq<byte>

  function Power(base: nat, n: nat): nat {
    if n == 0 then 1 else base * Power(base, n - 1)
  }

  /** How many addresses a word can hold. */
  function Addresses(): nat { Power(256, WORD) }

  // ---------- words ----------

  /** The number whose little-endian digits are the bytes. */
  function Decode(b: Bytes): nat {
    if b == [] then 0 else b[0] as nat + 256 * Decode(b[1..])
  }

  function Encode(v: nat, n: nat): (b: Bytes)
    ensures |b| == n
  {
    if n == 0 then [] else [(v % 256) as byte] + Encode(v / 256, n - 1)
  }

  lemma {:induction false} DecodeEncode(v: nat, n: nat)
    requires v < Power(256, n)
    ensures Decode(Encode(v, n)) == v
  {
    if n > 0 {
      DecodeEncode(v / 256, n - 1);
    }
  }

  function Load(m: Bytes, a: nat): nat
    requires a + WORD <= |m|
  {
    Decode(m[a..a + WORD])
  }

  function Write(m: Bytes, a: nat, b: Bytes): (m': Bytes)
    requires a + |b| <= |m|
    ensures |m'| == |m|
  {
    m[..a] + b + m[a + |b|..]
  }

  function Store(m: Bytes, a: nat, v: nat): (m': Bytes)
    requires a + WORD <= |m|
    ensures |m'| == |m|
  {
    Write(m, a, Encode(v, WORD))
  }

  predicate Apart(a: nat, n: nat, b: nat, k: nat) { a + n <= b || b + k <= a }

  lemma {:induction false} ReadWritten(m: Bytes, a: nat, b: Bytes)
    requires a + |b| <= |m|
    ensures Write(m, a, b)[a..a + |b|] == b
  {
  }

  lemma {:induction false} ReadApart(m: Bytes, a: nat, b: Bytes, c: nat, n: nat)
    requires a + |b| <= |m| && c + n <= |m| && Apart(a, |b|, c, n)
    ensures Write(m, a, b)[c..c + n] == m[c..c + n]
  {
    var m' := Write(m, a, b);
    forall i | c <= i < c + n ensures m'[i] == m[i] {
    }
  }

  /** A pointer that was stored is loaded again. */
  lemma {:induction false} LoadStored(m: Bytes, a: nat, v: nat)
    requires a + WORD <= |m| && v < Addresses()
    ensures Load(Store(m, a, v), a) == v
  {
    ReadWritten(m, a, Encode(v, WORD));
    DecodeEncode(v, WORD);
  }

  lemma {:induction false} LoadApart(m: Bytes, a: nat, b: Bytes, c: nat)
    requires a + |b| <= |m| && c + WORD <= |m| && Apart(a, |b|, c, WORD)
    ensures Load(Write(m, a, b), c) == Load(m, c)
  {
    ReadApart(m, a, b, c, WORD);
  }

  // ---------- chains of pointers ----------

  function Head(xs: seq<nat>): nat { if xs == [] then 0 else xs[0] }

  /** The first word at each address holds the next address, the last one null. */
  ghost predicate Linked(m: Bytes, xs: seq<nat>) {
    forall i {:trigger xs[i]} | 0 <= i < |xs| ::
      && 0 < xs[i] && xs[i] + WORD <= |m|
      && Load(m, xs[i]) == Head(xs[i + 1..])
  }

  ghost predicate Distinct(xs: seq<nat>) { forall i, j | 0 <= i < j < |xs| :: xs[i] != xs[j] }

  function Elements(xs: seq<nat>): set<nat> { set x | x in xs }

  /** A write apart from the words of a chain leaves the chain as it is. */
  lemma {:induction false} LinkedApart(m: Bytes, xs: seq<nat>, a: nat, b: Bytes)
    requires Linked(m, xs) && a + |b| <= |m|
    requires forall i | 0 <= i < |xs| :: Apart(a, |b|, xs[i], WORD)
    ensures Linked(Write(m, a, b), xs)
  {
    hide Load, Write, Head;
    forall i | 0 <= i < |xs| ensures Load(Write(m, a, b), xs[i]) == Load(m, xs[i]) {
      LoadApart(m, a, b, xs[i]);
    }
  }

  /** Storing the head of a chain at a new address puts that address in front. */
  lemma {:induction false} LinkedPush(m: Bytes, xs: seq<nat>, a: nat)
    requires Linked(m, xs) && 0 < a && a + WORD <= |m| <= Addresses()
    requires forall i | 0 <= i < |xs| :: Apart(a, WORD, xs[i], WORD)
    ensures Linked(Store(m, a, Head(xs)), [a] + xs)
  {
    hide Load, Write, Encode, Power;
    LinkedApart(m, xs, a, Encode(Head(xs), WORD));
    LoadStored(m, a, Head(xs));
    var ys, m' := [a] + xs, Store(m, a, Head(xs));
    assert ys[0 + 1..] == xs;
    forall i {:trigger ys[i]} | 0 <= i < |ys|
      ensures 0 < ys[i] && ys[i] + WORD <= |m'| && Load(m', ys[i]) == Head(ys[i + 1..])
    {
      if i > 0 {
        assert ys[i] == xs[i - 1] && ys[i + 1..] == xs[i..];
      }
    }
  }

  lemma {:induction false} LinkedTail(m: Bytes, xs: seq<nat>)
    requires Linked(m, xs) && xs != []
    ensures Linked(m, xs[1..]) && 0 < xs[0] && xs[0] + WORD <= |m| && Load(m, xs[0]) == Head(xs[1..])
  {
    hide Load, Head;
    var ys := xs[1..];
    forall i {:trigger ys[i]} | 0 <= i < |ys|
      ensures 0 < ys[i] && ys[i] + WORD <= |m| && Load(m, ys[i]) == Head(ys[i + 1..])
    {
      assert ys[i] == xs[i + 1] && ys[i + 1..] == xs[i + 1 + 1..];
    }
  }

  lemma {:induction false} DistinctPush(xs: seq<nat>, a: nat)
    requires Distinct(xs) && a !in Elements(xs)
    ensures Distinct([a] + xs) && Elements([a] + xs) == Elements(xs) + {a}
  {
    var ys := [a] + xs;
    assert forall x :: x in ys <==> x == a || x in xs;
    forall i, j | 0 <= i < j < |ys| ensures ys[i] != ys[j] {
      assert ys[j] == xs[j - 1] && ys[j] in xs;
      if i > 0 { assert ys[i] == xs[i - 1]; }
    }
  }

  lemma {:induction false} DistinctTail(xs: seq<nat>)
    requires Distinct(xs) && xs != []
    ensures Distinct(xs[1..]) && xs[0] !in Elements(xs[1..]) && Elements(xs) == Elements(xs[1..]) + {xs[0]}
  {
    assert xs == [xs[0]] + xs[1..];
    var ys := xs[1..];
    assert forall x :: x in xs <==> x == xs[0] || x in ys;
    assert forall i | 0 <= i < |ys| :: ys[i] == xs[i + 1] && ys[i] != xs[0];
  }

  // ---------- alignment ----------

  /** A power of two that fits in 64 bits. */
  ghost predicate PowerOfTwo(n: nat) { exists k: nat :: k <= 64 && n == Power(2, k) }

  /** The number of 64-bit values. */
  function Wide(): (w: nat)
    ensures w > 0
  {
    PowerPositive(2, 64);
    Power(2, 64)
  }

  /**
   * The padding as written: unsigned 64-bit subtraction, which wraps, and then
   * the remainder.
   */
  function Padding(align: nat, addr: nat): nat
    requires align > 0
  {
    ((align - addr) % Wide()) % align
  }

  lemma {:induction false} PowerPositive(base: nat, n: nat)
    requires base > 0
    ensures Power(base, n) > 0
  {
    if n > 0 {
      PowerPositive(base, n - 1);
    }
  }

  lemma {:induction false} PowerSum(base: nat, m: nat, n: nat)
    ensures Power(base, m + n) == Power(base, m) * Power(base, n)
  {
    if m > 0 {
      PowerSum(base, m - 1, n);
      assert base * (Power(base, m - 1) * Power(base, n)) == (base * Power(base, m - 1)) * Power(base, n);
    }
  }

  lemma {:induction false} RemainderOfRemainder(x: int, m: nat, q: nat)
    requires m > 0 && m * q > 0
    ensures (x % (m * q)) % m == x % m
  {
    var t := x / (m * q);
    assert x == x % (m * q) + (m * q) * t;
    assert (m * q) * t == m * (q * t);
    RemainderOfSum(x % (m * q), m, q * t);
  }

  lemma {:induction false} Complement(addr: nat, m: nat)
    requires m > 0
    ensures (addr + (m - addr) % m) % m == 0
  {
    var t, r := (m - addr) / m, (m - addr) % m;
    assert m - addr == m * t + r;
    assert addr + r == m * (1 - t) + 0;
    RemainderIs(addr + r, m, 1 - t, 0);
  }

  ghost predicate Aligns(align: nat, addr: nat, p: nat)
    requires align > 0
  {
    (addr + p) % align == 0
  }

  lemma {:induction false} NoSmallerStep(m: nat, addr: nat, r: nat, p: nat)
    requires m > 0 && r < m && Aligns(m, addr, r) && Aligns(m, addr, p)
    ensures r <= p
  {
    var i, j := (addr + r) / m, (addr + p) / m;
    assert r - p == m * i - m * j == m * (i - j);
    MultipleBound(m, i - j);
  }

  /** Modulo a power of two the wrap-around does not show. */
  lemma {:induction false} PaddingIs(align: nat, addr: nat)
    requires PowerOfTwo(align)
    ensures align > 0 && Padding(align, addr) == (align - addr) % align
  {
    var k: nat :| k <= 64 && align == Power(2, k);
    PowerPositive(2, k);
    PowerSum(2, k, 64 - k);
    assert Wide() == align * Power(2, 64 - k);
    RemainderOfRemainder(align - addr, align, Power(2, 64 - k));
  }

  /**
   * The wrapping expression is the least padding: the padded address is
   * aligned, and no smaller padding aligns it.
   */
  lemma {:induction false} LeastPadding(align: nat, addr: nat)
    requires PowerOfTwo(align)
    ensures align > 0 && Padding(align, addr) < align
    ensures Aligns(align, addr, Padding(align, addr))
    ensures forall p: nat :: Aligns(align, addr, p) ==> Padding(align, addr) <= p
  {
    PaddingIs(align, addr);
    hide Padding, PowerOfTwo;
    Complement(addr, align);
    forall p: nat | Aligns(align, addr, p) ensures Padding(align, addr) <= p {
      NoSmallerStep(align, addr, Padding(align, addr), p);
    }
  }
}
