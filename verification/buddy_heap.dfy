/** The state of the buddy allocator (Buddy/buddy.c): 512 units carved into
    power-of-two blocks, kept in ten per-level lists `headers[0..9]`.

    Each circular doubly-linked list with its sentinel head becomes the
    sequence of its blocks in list order; `push` appends, `remove_block`
    deletes while keeping the order of the rest. */
module BuddyHeap {

  const Levels: nat := 10
  const MaxSize: nat := 512

  /** `struct block` without its links; `used` is 0 for a free block and
      the owner's id otherwise. */
  datatype Block = Block(size: nat, start: nat, used: int)

  /** `headers[l]` is `h[l]`. */
  type Heap = seq<seq<Block>>

  datatype Pos = Pos(level: nat, index: nat)

  predicate ValidPos(h: Heap, p: Pos) {
    p.level < |h| && p.index < |h[p.level]|
  }

  function At(h: Heap, p: Pos): Block
    requires ValidPos(h, p)
  {
    h[p.level][p.index]
  }

  function Pow2(n: nat): (r: nat)
    ensures r >= 1
  {
    if n == 0 then 1 else 2 * Pow2(n - 1)
  }

  lemma {:induction false} Pow2Monotone(a: nat, b: nat)
    requires a <= b
    ensures Pow2(a) <= Pow2(b)
    decreases b
  {
    if a < b {
      Pow2Monotone(a, b - 1);
    }
  }

  /** `f`: the floor of the base-2 logarithm, and 0 for 0. */
  function FloorLog2(n: nat): (r: nat)
    ensures n >= 1 ==> Pow2(r) <= n < Pow2(r + 1)
    ensures n <= 1 ==> r == 0
  {
    if n < 2 then 0 else 1 + FloorLog2(n / 2)
  }

  /** The bounds determine the logarithm. */
  lemma FloorLog2Unique(n: nat, k: nat)
    requires Pow2(k) <= n < Pow2(k + 1)
    ensures FloorLog2(n) == k
  {
    var r := FloorLog2(n);
    if r < k {
      Pow2Monotone(r + 1, k);
    } else if r > k {
      Pow2Monotone(k + 1, r);
    }
  }

  lemma FloorLog2OfPow2(k: nat)
    ensures FloorLog2(Pow2(k)) == k
  {
    FloorLog2Unique(Pow2(k), k);
  }

  /** `n` shifted right `k` times. */
  function Shift(n: nat, k: nat): nat {
    if k == 0 then n else Shift(n / 2, k - 1)
  }

  lemma {:induction false} ShiftStep(n: nat, k: nat)
    ensures Shift(n, k + 1) == Shift(n, k) / 2
    decreases k
  {
    if k > 0 {
      ShiftStep(n / 2, k - 1);
    }
  }

  lemma {:induction false} ShiftVanishes(n: nat, k: nat)
    ensures Shift(n, k) == 0 <==> n < Pow2(k)
    decreases k
  {
    if k > 0 {
      ShiftVanishes(n / 2, k - 1);
    }
  }

  /** `f` as written: shift right until nothing is left, counting the
      shifts that leave something. */
  method F(n: nat) returns (r: nat)
    ensures n >= 1 ==> Pow2(r) <= n < Pow2(r + 1)
    ensures n == 0 ==> r == 0
    ensures r == FloorLog2(n)
  {
    var m := n / 2;
    r := 0;
    while m != 0
      invariant m == Shift(n, r + 1)
      invariant n >= 1 ==> Pow2(r) <= n
      invariant n == 0 ==> r == 0
      decreases m
    {
      ShiftVanishes(n, r + 1);
      ShiftStep(n, r + 1);
      r := r + 1;
      m := m / 2;
    }
    ShiftVanishes(n, r + 1);
    if n >= 1 {
      FloorLog2Unique(n, r);
    }
  }

  lemma MulNonneg(a: int, b: int)
    requires a >= 0 && b >= 0
    ensures a * b >= 0
  {
  }

  lemma MulDistrib(a: int, b: int, d: int)
    ensures a * d - b * d == (a - b) * d
  {
  }

  /** Quotient and remainder are the only ones of their kind. */
  lemma ModUnique(n: int, d: int, q: int, r: int)
    requires d >= 1 && n == q * d + r && 0 <= r < d
    ensures n % d == r && n / d == q
  {
    var q0, r0 := n / d, n % d;
    assert n == q0 * d + r0;
    MulDistrib(q, q0, d);
    if q - q0 >= 1 {
      MulNonneg(q - q0 - 1, d);
      MulDistrib(q - q0, 1, d);
      assert false;
    } else if q - q0 <= -1 {
      MulNonneg(q0 - q - 1, d);
      MulDistrib(q0 - q, 1, d);
      MulDistrib(0, q - q0, d);
      assert false;
    }
  }

  /** A start aligned to `2p` is aligned to `p`, and so is the start of
      its upper half, which is not aligned to `2p`. */
  lemma Align(s: nat, p: nat)
    requires p >= 1 && s % (2 * p) == 0
    ensures s % p == 0 && (s + p) % p == 0
    ensures (s + p) % (2 * p) == p
  {
    var k := s / (2 * p);
    assert s == k * (2 * p);
    assert k * (2 * p) == (2 * k) * p;
    ModUnique(s, p, 2 * k, 0);
    ModUnique(s + p, p, 2 * k + 1, 0);
    ModUnique(s + p, 2 * p, k, p);
  }

  lemma {:induction false} Pow2Small(l: nat)
    requires l < Levels
    ensures Pow2(l) == [1, 2, 4, 8, 16, 32, 64, 128, 256, 512][l]
  {
    if l > 0 {
      Pow2Small(l - 1);
    }
  }

  // ---------------------------------------------------------------------
  // Counting the blocks that cover a unit

  predicate Covers(b: Block, x: int) {
    b.start <= x < b.start + b.size
  }

  /** Which blocks to count: all of them, or those with a given `used`. */
  datatype Filter = AnyBlock | UsedBy(id: int)

  predicate Matches(f: Filter, b: Block) {
    f.AnyBlock? || b.used == f.id
  }

  function Ind(b: Block, x: int, f: Filter): nat {
    if Covers(b, x) && Matches(f, b) then 1 else 0
  }

  /** How many blocks of a list cover unit `x` and pass the filter. */
  function Tally(s: seq<Block>, x: int, f: Filter): nat {
    if s == [] then 0 else Ind(s[0], x, f) + Tally(s[1..], x, f)
  }

  /** How many blocks of the heap cover unit `x` and pass the filter. */
  function Total(h: Heap, x: int, f: Filter): nat {
    if h == [] then 0 else Tally(h[0], x, f) + Total(h[1..], x, f)
  }

  function Remove(s: seq<Block>, k: nat): (r: seq<Block>)
    requires k < |s|
    ensures |r| == |s| - 1
    ensures forall i | 0 <= i < k :: r[i] == s[i]
    ensures forall i | k <= i < |r| :: r[i] == s[i + 1]
  {
    s[..k] + s[k + 1..]
  }

  lemma {:induction false} TallyConcat(a: seq<Block>, b: seq<Block>, x: int, f: Filter)
    ensures Tally(a + b, x, f) == Tally(a, x, f) + Tally(b, x, f)
    decreases |a|
  {
    if a == [] {
      assert a + b == b;
    } else {
      assert (a + b)[0] == a[0];
      assert (a + b)[1..] == a[1..] + b;
      TallyConcat(a[1..], b, x, f);
    }
  }

  lemma TallyAppend(s: seq<Block>, b: Block, x: int, f: Filter)
    ensures Tally(s + [b], x, f) == Tally(s, x, f) + Ind(b, x, f)
  {
    TallyConcat(s, [b], x, f);
  }

  lemma TallyRemove(s: seq<Block>, k: nat, x: int, f: Filter)
    requires k < |s|
    ensures Tally(Remove(s, k), x, f) == Tally(s, x, f) - Ind(s[k], x, f)
  {
    assert s == s[..k] + ([s[k]] + s[k + 1..]);
    TallyConcat(s[..k], [s[k]] + s[k + 1..], x, f);
    TallyConcat([s[k]], s[k + 1..], x, f);
    TallyConcat(s[..k], s[k + 1..], x, f);
  }

  lemma TallyReplace(s: seq<Block>, k: nat, b: Block, x: int, f: Filter)
    requires k < |s|
    ensures Tally(s[k := b], x, f) == Tally(s, x, f) - Ind(s[k], x, f) + Ind(b, x, f)
  {
    assert s == s[..k] + ([s[k]] + s[k + 1..]);
    assert s[k := b] == s[..k] + ([b] + s[k + 1..]);
    TallyConcat(s[..k], [s[k]] + s[k + 1..], x, f);
    TallyConcat([s[k]], s[k + 1..], x, f);
    TallyConcat(s[..k], [b] + s[k + 1..], x, f);
    TallyConcat([b], s[k + 1..], x, f);
  }

  lemma {:induction false} TotalUpdate(h: Heap, l: nat, s: seq<Block>, x: int, f: Filter)
    requires l < |h|
    ensures Total(h[l := s], x, f) == Total(h, x, f) - Tally(h[l], x, f) + Tally(s, x, f)
    decreases l
  {
    if l == 0 {
      assert h[l := s][1..] == h[1..];
    } else {
      assert h[l := s][1..] == h[1..][l - 1 := s];
      TotalUpdate(h[1..], l - 1, s, x, f);
    }
  }

  lemma {:induction false} TallyAtLeast(s: seq<Block>, k: nat, x: int, f: Filter)
    requires k < |s|
    ensures Tally(s, x, f) >= Ind(s[k], x, f)
  {
    TallyRemove(s, k, x, f);
  }

  lemma {:induction false} TotalAtLeast(h: Heap, l: nat, x: int, f: Filter)
    requires l < |h|
    ensures Total(h, x, f) >= Tally(h[l], x, f)
  {
    TotalUpdate(h, l, [], x, f);
  }

  /** Counting blocks of one owner never exceeds counting all blocks. */
  lemma {:induction false} TallyOwnedBelowAll(s: seq<Block>, x: int, u: int, v: int)
    ensures u != v ==> Tally(s, x, UsedBy(u)) + Tally(s, x, UsedBy(v)) <= Tally(s, x, AnyBlock)
    ensures Tally(s, x, UsedBy(u)) <= Tally(s, x, AnyBlock)
  {
    if s != [] {
      TallyOwnedBelowAll(s[1..], x, u, v);
    }
  }

  lemma {:induction false} TotalOwnedBelowAll(h: Heap, x: int, u: int, v: int)
    ensures u != v ==> Total(h, x, UsedBy(u)) + Total(h, x, UsedBy(v)) <= Total(h, x, AnyBlock)
    ensures Total(h, x, UsedBy(u)) <= Total(h, x, AnyBlock)
  {
    if h != [] {
      TallyOwnedBelowAll(h[0], x, u, v);
      TotalOwnedBelowAll(h[1..], x, u, v);
    }
  }

  // ---------------------------------------------------------------------
  // The invariant

  /** A block that belongs at level `l`: size 2^l, aligned to its size,
      inside the 512 units. */
  predicate Shaped(b: Block, l: nat) {
    b.size == Pow2(l) && b.start % Pow2(l) == 0 && b.start + b.size <= MaxSize
  }

  predicate LevelShape(h: Heap) {
    && |h| == Levels
    && forall l, i | 0 <= l < |h| && 0 <= i < |h[l]| :: Shaped(h[l][i], l)
  }

  /** Every unit lies in exactly one block. */
  predicate Tiled(h: Heap) {
    forall x | 0 <= x < MaxSize :: Total(h, x, AnyBlock) == 1
  }

  predicate Wf(h: Heap) {
    LevelShape(h) && Tiled(h)
  }

  /** Unit `x` belongs to owner `u` (0 for free). */
  predicate OwnedBy(h: Heap, x: int, u: int) {
    Total(h, x, UsedBy(u)) == 1
  }

  /** In a tiled heap every unit has exactly one owner. */
  lemma OwnerUnique(h: Heap, x: int, u: int, v: int)
    requires Wf(h) && 0 <= x < MaxSize && OwnedBy(h, x, u) && OwnedBy(h, x, v)
    ensures u == v
  {
    TotalOwnedBelowAll(h, x, u, v);
  }

  /** Owners of all units are the same in both heaps. */
  ghost predicate SameOwners(h: Heap, h': Heap) {
    forall x, u :: Total(h', x, UsedBy(u)) == Total(h, x, UsedBy(u))
  }

  lemma {:induction false} TotalOfEmpty(h: Heap, x: int, f: Filter)
    requires forall l | 0 <= l < |h| :: h[l] == []
    ensures Total(h, x, f) == 0
  {
    if h != [] {
      assert h[0] == [];
      TotalOfEmpty(h[1..], x, f);
    }
  }

  /** A unit inside a block of a well-formed heap is one of the 512, and
      belongs to that block's owner alone. */
  lemma OwnerOfCovered(h: Heap, p: Pos, x: int)
    requires Wf(h) && ValidPos(h, p) && Covers(At(h, p), x)
    ensures 0 <= x < MaxSize
    ensures OwnedBy(h, x, At(h, p).used)
    ensures forall u | u != At(h, p).used :: Total(h, x, UsedBy(u)) == 0
  {
    assert Shaped(h[p.level][p.index], p.level);
    var b := At(h, p);
    TallyAtLeast(h[p.level], p.index, x, UsedBy(b.used));
    TotalAtLeast(h, p.level, x, UsedBy(b.used));
    TotalOwnedBelowAll(h, x, b.used, b.used);
    forall u | u != b.used
      ensures Total(h, x, UsedBy(u)) == 0
    {
      TotalOwnedBelowAll(h, x, b.used, u);
    }
  }

  /** How many blocks the heap holds. */
  function BlockCount(h: Heap): nat {
    if h == [] then 0 else |h[0]| + BlockCount(h[1..])
  }

  lemma {:induction false} BlockCountUpdate(h: Heap, l: nat, s: seq<Block>)
    requires l < |h|
    ensures BlockCount(h[l := s]) == BlockCount(h) - |h[l]| + |s|
    decreases l
  {
    if l == 0 {
      assert h[l := s][1..] == h[1..];
    } else {
      assert h[l := s][1..] == h[1..][l - 1 := s];
      BlockCountUpdate(h[1..], l - 1, s);
    }
  }

  // ---------------------------------------------------------------------
  // The blocks a change leaves alone

  /** Blocks `c` and `b` share no unit. */
  predicate Apart(c: Block, b: Block) {
    c.start + c.size <= b.start || b.start + b.size <= c.start
  }

  /** A block of positive size lying inside `b` is not apart from it. */
  lemma InsideNotApart(c: Block, b: Block)
    requires c.size >= 1 && forall x | Covers(c, x) :: Covers(b, x)
    ensures !Apart(c, b)
  {
    assert Covers(c, c.start);
  }

  /** The blocks of `s` that share no unit with `b`, in list order. */
  function Outside(s: seq<Block>, b: Block): (t: seq<Block>)
    ensures |t| <= |s|
    ensures forall i | 0 <= i < |t| :: Apart(t[i], b)
  {
    if s == [] then []
    else if Apart(s[0], b) then [s[0]] + Outside(s[1..], b)
    else Outside(s[1..], b)
  }

  lemma {:induction false} OutsideConcat(a: seq<Block>, c: seq<Block>, b: Block)
    ensures Outside(a + c, b) == Outside(a, b) + Outside(c, b)
    decreases |a|
  {
    if a == [] {
      assert a + c == c;
    } else {
      assert (a + c)[0] == a[0];
      assert (a + c)[1..] == a[1..] + c;
      OutsideConcat(a[1..], c, b);
    }
  }

  /** Dropping, adding or replacing a block that shares units with `b`
      leaves the blocks apart from `b` as they were. */
  lemma OutsideRemove(s: seq<Block>, k: nat, b: Block)
    requires k < |s| && !Apart(s[k], b)
    ensures Outside(Remove(s, k), b) == Outside(s, b)
  {
    assert s == s[..k] + ([s[k]] + s[k + 1..]);
    OutsideConcat(s[..k], [s[k]] + s[k + 1..], b);
    OutsideConcat([s[k]], s[k + 1..], b);
    OutsideConcat(s[..k], s[k + 1..], b);
  }

  lemma OutsideAppend(s: seq<Block>, c: Block, b: Block)
    requires !Apart(c, b)
    ensures Outside(s + [c], b) == Outside(s, b)
  {
    OutsideConcat(s, [c], b);
  }

  lemma OutsideReplace(s: seq<Block>, k: nat, c: Block, b: Block)
    requires k < |s| && !Apart(s[k], b) && !Apart(c, b)
    ensures Outside(s[k := c], b) == Outside(s, b)
  {
    assert s[k := c] == s[..k] + ([c] + s[k + 1..]);
    assert s == s[..k] + ([s[k]] + s[k + 1..]);
    OutsideConcat(s[..k], [c] + s[k + 1..], b);
    OutsideConcat([c], s[k + 1..], b);
    OutsideConcat(s[..k], [s[k]] + s[k + 1..], b);
    OutsideConcat([s[k]], s[k + 1..], b);
  }
}
