/** The operations of the buddy allocator (Buddy/buddy.c): `init`, `split`,
    `request`, `is_buddy`, `merge_imp`, `merge` and `freeb`, each a function
    from the heap before to the heap after. Each keeps the invariant `Wf`,
    and each says what happens to the owner of every unit. */
module Buddy {
  import opened BuddyHeap

  // ---------------------------------------------------------------------
  // init

  function Blank(): (h: Heap)
    ensures |h| == Levels && forall l | 0 <= l < |h| :: h[l] == []
  {
    seq(Levels, _ => [])
  }

  /** `init`: every list empty but the top one, which holds one free block
      of all 512 units. */
  function Init(): (h: Heap)
    ensures |h| == Levels && h[Levels - 1] == [Block(MaxSize, 0, 0)]
    ensures forall l | 0 <= l < Levels - 1 :: h[l] == []
    ensures Wf(h)
    ensures forall x | 0 <= x < MaxSize :: OwnedBy(h, x, 0)
  {
    var h := Blank()[Levels - 1 := [Block(MaxSize, 0, 0)]];
    InitFacts(h);
    h
  }

  lemma InitFacts(h: Heap)
    requires h == Blank()[Levels - 1 := [Block(MaxSize, 0, 0)]]
    ensures Wf(h)
    ensures forall x | 0 <= x < MaxSize :: OwnedBy(h, x, 0)
  {
    var top := Block(MaxSize, 0, 0);
    Pow2Small(Levels - 1);
    assert Shaped(top, Levels - 1);
    forall x, f
      ensures Total(h, x, f) == Ind(top, x, f)
    {
      TotalOfEmpty(Blank(), x, f);
      TotalUpdate(Blank(), Levels - 1, [top], x, f);
      assert [top][1..] == [];
    }
  }

  // ---------------------------------------------------------------------
  // split

  /** `split`: the block `h[l][k]` leaves its list; its lower half, a new
      free block, and then the block itself, shrunk to its upper half and
      still owned as before, are appended to the list for their size. The
      second component is the index of the lower half in that list. Every
      other list is left alone: putting back the two lists touched gives
      the heap before. */
  function Split(h: Heap, l: nat, k: nat): (r: (Heap, nat))
    requires |h| == Levels && l < Levels && k < |h[l]|
    requires h[l][k].size >= 2 && FloorLog2(h[l][k].size / 2) < Levels
    ensures var b, fl := h[l][k], FloorLog2(h[l][k].size / 2);
      && |r.0| == Levels && r.1 + 1 < |r.0[fl]|
      && r.0[fl][r.1] == Block(b.size / 2, b.start, 0)
      && r.0[fl][r.1 + 1] == Block(b.size / 2, b.start + b.size / 2, b.used)
    ensures var fl := FloorLog2(h[l][k].size / 2); |r.0[fl]| == r.1 + 2
    ensures var fl := FloorLog2(h[l][k].size / 2); r.0[l := h[l]][fl := h[fl]] == h
    ensures var fl := FloorLog2(h[l][k].size / 2); fl != l ==> r.0[l] == Remove(h[l], k)
    ensures var fl := FloorLog2(h[l][k].size / 2);
      fl != l ==> r.1 == |h[fl]| && forall i | 0 <= i < r.1 :: r.0[fl][i] == h[fl][i]
  {
    var b := h[l][k];
    var half := b.size / 2;
    var fl := FloorLog2(half);
    var h1 := h[l := Remove(h[l], k)];
    (h1[fl := h1[fl] + [Block(half, b.start, 0), Block(half, b.start + half, b.used)]], |h1[fl]|)
  }

  /** The lower and upper half that `Split` makes of `b`. */
  function LowerHalf(b: Block): Block {
    Block(b.size / 2, b.start, 0)
  }

  function UpperHalf(b: Block): Block {
    Block(b.size / 2, b.start + b.size / 2, b.used)
  }

  /** Splitting a block of a well-formed heap leaves a well-formed heap
      with both halves one level down, and moves no unit to another owner
      when the block was free. */
  lemma SplitPreserves(h: Heap, l: nat, k: nat)
    requires Wf(h) && 1 <= l < Levels && k < |h[l]|
    ensures h[l][k].size == 2 * Pow2(l - 1) && FloorLog2(h[l][k].size / 2) == l - 1
    ensures Wf(Split(h, l, k).0)
    ensures h[l][k].used == 0 ==> SameOwners(h, Split(h, l, k).0)
  {
    var b := h[l][k];
    assert Shaped(b, l);
    FloorLog2OfPow2(l - 1);
    SplitShaped(h, l, k);
    SplitTiles(h, l, k);
    if b.used == 0 {
      SplitKeepsOwners(h, l, k);
    }
  }

  lemma SplitTiles(h: Heap, l: nat, k: nat)
    requires Wf(h) && 1 <= l < Levels && k < |h[l]|
    requires h[l][k].size == 2 * Pow2(l - 1) && FloorLog2(h[l][k].size / 2) == l - 1
    ensures Tiled(Split(h, l, k).0)
  {
    var h2 := Split(h, l, k).0;
    forall x | 0 <= x < MaxSize
      ensures Total(h2, x, AnyBlock) == 1
    {
      SplitCounts(h, l, k, x, AnyBlock);
    }
  }

  lemma SplitKeepsOwners(h: Heap, l: nat, k: nat)
    requires Wf(h) && 1 <= l < Levels && k < |h[l]| && h[l][k].used == 0
    requires h[l][k].size == 2 * Pow2(l - 1) && FloorLog2(h[l][k].size / 2) == l - 1
    ensures SameOwners(h, Split(h, l, k).0)
  {
    var h2 := Split(h, l, k).0;
    forall x, u
      ensures Total(h2, x, UsedBy(u)) == Total(h, x, UsedBy(u))
    {
      SplitCounts(h, l, k, x, UsedBy(u));
    }
  }

  lemma SplitShaped(h: Heap, l: nat, k: nat)
    requires Wf(h) && 1 <= l < Levels && k < |h[l]|
    requires h[l][k].size == 2 * Pow2(l - 1) && FloorLog2(h[l][k].size / 2) == l - 1
    ensures LevelShape(Split(h, l, k).0)
  {
    var b := h[l][k];
    assert Shaped(b, l);
    var P := Pow2(l - 1);
    var lo, up := LowerHalf(b), UpperHalf(b);
    Align(b.start, P);
    assert Shaped(lo, l - 1) && Shaped(up, l - 1);
    var h1 := h[l := Remove(h[l], k)];
    var h2 := Split(h, l, k).0;
    assert h2 == h1[l - 1 := h[l - 1] + [lo, up]];
    forall m, i | 0 <= m < |h2| && 0 <= i < |h2[m]|
      ensures Shaped(h2[m][i], m)
    {
      if m == l - 1 {
        if i < |h[l - 1]| {
          assert h2[m][i] == h[m][i];
        } else if i == |h[l - 1]| {
          assert h2[m][i] == lo;
        } else {
          assert h2[m][i] == up;
        }
      } else if m == l {
        if i < k {
          assert h2[m][i] == h[m][i];
        } else {
          assert h2[m][i] == h[m][i + 1];
        }
      } else {
        assert h2[m][i] == h[m][i];
      }
    }
  }

  lemma SplitCounts(h: Heap, l: nat, k: nat, x: int, f: Filter)
    requires |h| == Levels && 1 <= l < Levels && k < |h[l]|
    requires h[l][k].size >= 2 && h[l][k].size % 2 == 0 && FloorLog2(h[l][k].size / 2) == l - 1
    requires f.AnyBlock? || h[l][k].used == 0
    ensures Total(Split(h, l, k).0, x, f) == Total(h, x, f)
  {
    var b := h[l][k];
    var lo, up := LowerHalf(b), UpperHalf(b);
    var h1 := h[l := Remove(h[l], k)];
    assert Split(h, l, k).0 == h1[l - 1 := h[l - 1] + [lo, up]];
    TotalUpdate(h, l, Remove(h[l], k), x, f);
    TallyRemove(h[l], k, x, f);
    TotalUpdate(h1, l - 1, h[l - 1] + [lo, up], x, f);
    TallyConcat(h[l - 1], [lo, up], x, f);
    HalvesCount(b, x, f);
  }

  /** The two halves of a block of even size count a unit as the block
      does. */
  lemma HalvesCount(b: Block, x: int, f: Filter)
    requires b.size % 2 == 0 && (f.AnyBlock? || b.used == 0)
    ensures Tally([LowerHalf(b), UpperHalf(b)], x, f) == Ind(b, x, f)
  {
    var lo, up := LowerHalf(b), UpperHalf(b);
    assert [lo, up][1..] == [up] && [up][1..] == [];
    assert Tally([up], x, f) == Ind(up, x, f);
    assert b.size == 2 * (b.size / 2);
  }

  // ---------------------------------------------------------------------
  // merge

  /** `is_buddy`: taken in address order, the first block ends where the
      second starts and starts at a multiple of twice its own size. The
      sizes are positive in every well-formed heap; a zero size would be a
      division by zero. */
  predicate IsBuddy(a: Block, b: Block): (r: bool)
    requires a.size >= 1 && b.size >= 1
    ensures r ==> a.start + a.size == b.start || b.start + b.size == a.start
    ensures r ==> forall x :: !(Covers(a, x) && Covers(b, x))
    ensures r && a.start < b.start ==> a.start % (2 * a.size) == 0
    ensures r && b.start < a.start ==> b.start % (2 * b.size) == 0
    ensures a.start <= b.start && a.start + a.size == b.start && a.start % (2 * a.size) == 0 ==> r
    ensures b.start < a.start && b.start + b.size == a.start && b.start % (2 * b.size) == 0 ==> r
    decreases if a.start > b.start then 1 else 0
  {
    if a.start > b.start then IsBuddy(b, a)
    else a.start + a.size == b.start && a.start % (a.size * 2) == 0
  }

  /** `merge_imp`: the block at the lower address doubles in size, keeping
      its start and its owner; the other one is discarded. For blocks of
      one size, the result covers exactly the units of the two. */
  function MergeImp(a: Block, b: Block): (r: Block)
    requires a.size >= 1 && b.size >= 1 && IsBuddy(a, b)
    ensures r.start == if a.start > b.start then b.start else a.start
    ensures r.used == if a.start > b.start then b.used else a.used
    ensures a.size == b.size ==> r.size == 2 * a.size
    ensures a.size == b.size ==> forall x :: Covers(r, x) <==> Covers(a, x) || Covers(b, x)
    decreases if a.start > b.start then 1 else 0
  {
    if a.start > b.start then MergeImp(b, a) else a.(size := a.size * 2)
  }

  /** `p != b && p->used == 0 && is_buddy(p, b)` for `p = s[m]`, `b = s[k]`. */
  predicate FreeBuddy(s: seq<Block>, k: nat, m: nat): (r: bool)
    requires k < |s| && m < |s|
    ensures r ==> m != k && s[m].used == 0
    ensures r ==> forall x :: !(Covers(s[m], x) && Covers(s[k], x))
  {
    m != k && s[m].used == 0 && s[m].size >= 1 && s[k].size >= 1 && IsBuddy(s[m], s[k])
  }

  /** The scan of `merge`: the first free buddy of `s[k]` from index `i`
      on, or `|s|`. */
  function FirstBuddy(s: seq<Block>, k: nat, i: nat): (j: nat)
    requires k < |s| && i <= |s|
    ensures i <= j <= |s|
    ensures j < |s| ==> FreeBuddy(s, k, j)
    ensures forall m | i <= m < j :: !FreeBuddy(s, k, m)
    decreases |s| - i
  {
    if i == |s| then i
    else if FreeBuddy(s, k, i) then i
    else FirstBuddy(s, k, i + 1)
  }

  /** `s` without the blocks at `j` and `k`, the rest in order. */
  function RemoveTwo(s: seq<Block>, j: nat, k: nat): (r: seq<Block>)
    requires j < |s| && k < |s| && j != k
    ensures |r| == |s| - 2
  {
    Remove(Remove(s, j), if k > j then k - 1 else k)
  }

  lemma TallyRemoveTwo(s: seq<Block>, j: nat, k: nat, x: int, f: Filter)
    requires j < |s| && k < |s| && j != k
    ensures Tally(RemoveTwo(s, j, k), x, f) == Tally(s, x, f) - Ind(s[j], x, f) - Ind(s[k], x, f)
  {
    var k' := if k > j then k - 1 else k;
    TallyRemove(s, j, x, f);
    assert Remove(s, j)[k'] == s[k];
    TallyRemove(Remove(s, j), k', x, f);
  }

  /** One round of `merge`: `p = h[l][j]` and `b = h[l][k]` leave their
      list, and the block `merge_imp` makes of them, marked free, is
      appended to the list one level up. */
  function Fuse(h: Heap, l: nat, j: nat, k: nat): (r: Heap)
    requires |h| == Levels && l + 1 < Levels && j < |h[l]| && k < |h[l]|
    requires FreeBuddy(h[l], k, j)
    ensures |r| == Levels && |r[l + 1]| == |h[l + 1]| + 1
    ensures var p, b, m := h[l][j], h[l][k], r[l + 1][|r[l + 1]| - 1];
      && m.used == 0
      && m.start == (if p.start < b.start then p.start else b.start)
      && (p.size == b.size ==> m.size == 2 * b.size)
      && (p.size == b.size ==> forall x :: Covers(m, x) <==> Covers(p, x) || Covers(b, x))
    ensures BlockCount(r) + 1 == BlockCount(h)
    ensures r[l] == RemoveTwo(h[l], j, k) && r[l + 1][..|h[l + 1]|] == h[l + 1]
    ensures r[l := h[l]][l + 1 := h[l + 1]] == h
  {
    var merged := MergeImp(h[l][j], h[l][k]).(used := 0);
    var h1 := h[l := RemoveTwo(h[l], j, k)];
    BlockCountUpdate(h, l, RemoveTwo(h[l], j, k));
    BlockCountUpdate(h1, l + 1, h1[l + 1] + [merged]);
    h1[l + 1 := h1[l + 1] + [merged]]
  }

  /** The top level holds at most one block, which has no buddy. */
  lemma NoBuddyAtTop(h: Heap, j: nat, k: nat)
    requires Wf(h) && j < |h[Levels - 1]| && k < |h[Levels - 1]|
    ensures !FreeBuddy(h[Levels - 1], k, j)
  {
    var s := h[Levels - 1];
    Pow2Small(Levels - 1);
    assert Shaped(s[j], Levels - 1) && Shaped(s[k], Levels - 1);
  }

  /** Fusing two free buddies keeps the heap well formed and moves no unit
      to another owner. */
  lemma FusePreserves(h: Heap, l: nat, j: nat, k: nat)
    requires Wf(h) && l < Levels && j < |h[l]| && k < |h[l]| && FreeBuddy(h[l], k, j)
    ensures l + 1 < Levels
    ensures Wf(Fuse(h, l, j, k))
    ensures h[l][k].used == 0 ==> SameOwners(h, Fuse(h, l, j, k))
  {
    if l == Levels - 1 {
      NoBuddyAtTop(h, j, k);
    }
    var p, b := h[l][j], h[l][k];
    var merged := FusedBlock(h, l, j, k);
    var h2 := Fuse(h, l, j, k);
    FuseShaped(h, l, j, k);
    forall x, f: Filter | f.AnyBlock? || b.used == 0
      ensures Total(h2, x, f) == Total(h, x, f)
    {
      FuseCounts(h, l, j, k, x, f);
    }
  }

  /** The block that fusing `h[l][j]` and `h[l][k]` makes, with its shape
      and its units. */
  lemma FusedBlock(h: Heap, l: nat, j: nat, k: nat) returns (merged: Block)
    requires Wf(h) && l + 1 < Levels && j < |h[l]| && k < |h[l]| && FreeBuddy(h[l], k, j)
    ensures merged == MergeImp(h[l][j], h[l][k]).(used := 0)
    ensures Shaped(merged, l + 1)
    ensures forall x, f: Filter | f.AnyBlock? || h[l][k].used == 0 ::
      Ind(merged, x, f) == Ind(h[l][j], x, f) + Ind(h[l][k], x, f)
  {
    var p, b := h[l][j], h[l][k];
    assert Shaped(p, l) && Shaped(b, l);
    merged := MergeImp(p, b).(used := 0);
    var lower := if p.start > b.start then b else p;
    var upper := if p.start > b.start then p else b;
    if p.start > b.start {
      assert IsBuddy(b, p);
    }
    assert lower.start + lower.size == upper.start && lower.start % (lower.size * 2) == 0;
    assert lower.size * 2 == 2 * Pow2(l);
    assert merged == Block(2 * Pow2(l), lower.start, 0);
  }

  lemma FuseShaped(h: Heap, l: nat, j: nat, k: nat)
    requires Wf(h) && l + 1 < Levels && j < |h[l]| && k < |h[l]| && FreeBuddy(h[l], k, j)
    ensures LevelShape(Fuse(h, l, j, k))
  {
    var merged := FusedBlock(h, l, j, k);
    var h1 := h[l := RemoveTwo(h[l], j, k)];
    var h2 := Fuse(h, l, j, k);
    assert h2 == h1[l + 1 := h[l + 1] + [merged]];
    forall m, i | 0 <= m < |h2| && 0 <= i < |h2[m]|
      ensures Shaped(h2[m][i], m)
    {
      if m == l + 1 {
        if i < |h[l + 1]| {
          assert h2[m][i] == h[m][i];
        } else {
          assert h2[m][i] == merged;
        }
      } else if m == l {
        var k' := if k > j then k - 1 else k;
        var i' := if i < k' then i else i + 1;
        var i'' := if i' < j then i' else i' + 1;
        assert h2[m][i] == Remove(h[l], j)[i'];
        assert h2[m][i] == h[m][i''];
      } else {
        assert h2[m][i] == h[m][i];
      }
    }
  }

  lemma FuseCounts(h: Heap, l: nat, j: nat, k: nat, x: int, f: Filter)
    requires Wf(h) && l + 1 < Levels && j < |h[l]| && k < |h[l]| && FreeBuddy(h[l], k, j)
    requires f.AnyBlock? || h[l][k].used == 0
    ensures Total(Fuse(h, l, j, k), x, f) == Total(h, x, f)
  {
    var merged := FusedBlock(h, l, j, k);
    var h1 := h[l := RemoveTwo(h[l], j, k)];
    assert Fuse(h, l, j, k) == h1[l + 1 := h[l + 1] + [merged]];
    TotalUpdate(h, l, RemoveTwo(h[l], j, k), x, f);
    TallyRemoveTwo(h[l], j, k, x, f);
    TotalUpdate(h1, l + 1, h[l + 1] + [merged], x, f);
    TallyAppend(h[l + 1], merged, x, f);
  }

  /** `merge`: while the block at `h[l][k]` has a free buddy in its list
      (the first one in list order), the two are fused and the fused block
      is merged in turn. In a well-formed heap `f(b->size)` is `l`, so the
      source's `off >= 10` exit is never taken. The source leaves the block
      itself as it is; every caller passes a free one. */
  function Merge(h: Heap, l: nat, k: nat): (r: Heap)
    requires Wf(h) && l < Levels && k < |h[l]|
    ensures Wf(r)
    ensures h[l][k].used == 0 ==> SameOwners(h, r)
    ensures (forall m | 0 <= m < |h[l]| :: !FreeBuddy(h[l], k, m)) ==> r == h
    ensures (exists m | 0 <= m < |h[l]| :: FreeBuddy(h[l], k, m)) ==> BlockCount(r) < BlockCount(h)
    ensures forall m | 0 <= m < l :: r[m] == h[m]
    ensures h[l][k].used == 0 ==> SettledIn(h, r, h[l][k])
    decreases Levels - l
  {
    var j := FirstBuddy(h[l], k, 0);
    if j == |h[l]| then
      SettledHere(h, Pos(l, k));
      h
    else
      FusePreserves(h, l, j, k);
      var h2 := Fuse(h, l, j, k);
      var r := Merge(h2, l + 1, |h2[l + 1]| - 1);
      FusedSettles(h, l, j, k, r);
      assert forall m | 0 <= m < l :: h2[m] == h2[l := h[l]][l + 1 := h[l + 1]][m];
      r
  }

  /** Block `p` of `r` is where merging `b` came to rest, starting from
      `h`: a free block holding every unit of `b`, with no free buddy left
      in its list, while the blocks of `h` that share no unit with it are
      still in their lists, in the same order, with nothing added. */
  ghost predicate RestsAt(h: Heap, r: Heap, b: Block, p: Pos)
    requires ValidPos(r, p)
  {
    && At(r, p).used == 0
    && (forall x | Covers(b, x) :: Covers(At(r, p), x))
    && (forall m | 0 <= m < |r[p.level]| :: !FreeBuddy(r[p.level], p.index, m))
    && |r| == |h|
    && forall m | 0 <= m < |h| :: Outside(r[m], At(r, p)) == Outside(h[m], At(r, p))
  }

  /** Merging `b` in `h` came to rest somewhere in `r`. */
  ghost predicate SettledIn(h: Heap, r: Heap, b: Block) {
    exists p | ValidPos(r, p) :: RestsAt(h, r, b, p)
  }

  /** A free block without a free buddy is where merging stops. */
  lemma SettledHere(h: Heap, p: Pos)
    requires ValidPos(h, p) && forall m | 0 <= m < |h[p.level]| :: !FreeBuddy(h[p.level], p.index, m)
    ensures At(h, p).used == 0 ==> SettledIn(h, h, At(h, p))
  {
    if At(h, p).used == 0 {
      assert RestsAt(h, h, At(h, p), p);
    }
  }

  /** Where the fused block settles, the block it absorbed settles too, and
      the two blocks fusing removed lie inside the place of rest. */
  lemma FusedSettles(h: Heap, l: nat, j: nat, k: nat, r: Heap)
    requires Wf(h) && l + 1 < Levels && j < |h[l]| && k < |h[l]| && FreeBuddy(h[l], k, j)
    requires var h2 := Fuse(h, l, j, k); SettledIn(h2, r, h2[l + 1][|h2[l + 1]| - 1])
    ensures SettledIn(h, r, h[l][k])
  {
    var h2 := Fuse(h, l, j, k);
    var fused := h2[l + 1][|h2[l + 1]| - 1];
    var p :| ValidPos(r, p) && RestsAt(h2, r, fused, p);
    var home := At(r, p);
    assert Shaped(h[l][j], l) && Shaped(h[l][k], l);
    InsideNotApart(h[l][j], home);
    InsideNotApart(h[l][k], home);
    InsideNotApart(fused, home);
    forall m | 0 <= m < |h|
      ensures Outside(r[m], home) == Outside(h[m], home)
    {
      if m == l {
        var k' := if k > j then k - 1 else k;
        assert Remove(h[l], j)[k'] == h[l][k];
        OutsideRemove(h[l], j, home);
        OutsideRemove(Remove(h[l], j), k', home);
      } else if m == l + 1 {
        assert h2[l + 1] == h[l + 1] + [fused];
        OutsideAppend(h[l + 1], fused, home);
      } else {
        assert h2[m] == h2[l := h[l]][l + 1 := h[l + 1]][m];
      }
    }
    assert RestsAt(h, r, h[l][k], p);
  }

  /** Where the freed block settles, it settles as it was before it was
      freed: only its `used` field differs. */
  lemma FreedSettles(h: Heap, q: Pos, r: Heap)
    requires Wf(h) && ValidPos(h, q)
    requires var h1 := SetUsed(h, q, 0); SettledIn(h1, r, At(h1, q))
    ensures SettledIn(h, r, At(h, q))
  {
    var h1 := SetUsed(h, q, 0);
    var p :| ValidPos(r, p) && RestsAt(h1, r, At(h1, q), p);
    var home := At(r, p);
    assert Shaped(h[q.level][q.index], q.level);
    InsideNotApart(At(h, q), home);
    InsideNotApart(At(h1, q), home);
    forall m | 0 <= m < |h|
      ensures Outside(r[m], home) == Outside(h[m], home)
    {
      if m == q.level {
        assert h1[m] == h[m][q.index := At(h1, q)];
        OutsideReplace(h[m], q.index, At(h1, q), home);
      }
    }
    assert RestsAt(h, r, At(h, q), p);
  }

  // ---------------------------------------------------------------------
  // request

  /** `h` with the block at `p` owned by `v` instead (`p->used = v`). */
  function SetUsed(h: Heap, p: Pos, v: int): (r: Heap)
    requires ValidPos(h, p)
    ensures |r| == |h| && ValidPos(r, p) && At(r, p) == At(h, p).(used := v)
    ensures forall m | 0 <= m < |h| :: |r[m]| == |h[m]|
    ensures forall m, i | 0 <= m < |h| && 0 <= i < |h[m]| && (m != p.level || i != p.index) :: r[m][i] == h[m][i]
  {
    h[p.level := h[p.level][p.index := At(h, p).(used := v)]]
  }

  /** Changing an owner keeps the heap well formed; only the units of that
      block are counted differently. */
  lemma SetUsedEffect(h: Heap, p: Pos, v: int)
    requires Wf(h) && ValidPos(h, p)
    ensures Wf(SetUsed(h, p, v))
    ensures forall x, u ::
      Total(SetUsed(h, p, v), x, UsedBy(u)) ==
      Total(h, x, UsedBy(u)) - Ind(At(h, p), x, UsedBy(u)) + Ind(At(h, p).(used := v), x, UsedBy(u))
  {
    var r := SetUsed(h, p, v);
    var b := At(h, p);
    forall m, i | 0 <= m < |r| && 0 <= i < |r[m]|
      ensures Shaped(r[m][i], m)
    {
      if m == p.level && i == p.index {
        assert Shaped(h[m][i], m);
      } else {
        assert r[m][i] == h[m][i];
      }
    }
    forall x, f
      ensures Total(r, x, f) == Total(h, x, f) - Ind(b, x, f) + Ind(b.(used := v), x, f)
    {
      TotalUpdate(h, p.level, h[p.level][p.index := b.(used := v)], x, f);
      TallyReplace(h[p.level], p.index, b.(used := v), x, f);
    }
  }

  datatype Found = NotFound | FoundAt(pos: Pos)

  /** The inner scan of `request`: the first free block of `s`, or `|s|`. */
  function FirstFree(s: seq<Block>): (k: nat)
    ensures k <= |s|
    ensures k < |s| ==> s[k].used == 0
    ensures forall i | 0 <= i < k :: s[i].used != 0
  {
    if s == [] then 0
    else if s[0].used == 0 then 0
    else 1 + FirstFree(s[1..])
  }

  /** The outer loop of `request`: the first free block, in list order, of
      the lowest level from `off` up that has one. */
  function FindFree(h: Heap, off: nat): (r: Found)
    requires |h| == Levels
    ensures r.FoundAt? ==> off <= r.pos.level && ValidPos(h, r.pos) && At(h, r.pos).used == 0
    ensures r.FoundAt? ==> forall l, i | off <= l < r.pos.level && 0 <= i < |h[l]| :: h[l][i].used != 0
    ensures r.FoundAt? ==> forall i | 0 <= i < r.pos.index :: h[r.pos.level][i].used != 0
    ensures r.NotFound? <==> forall l, i | off <= l < Levels && 0 <= i < |h[l]| :: h[l][i].used != 0
    decreases Levels - off
  {
    if off >= Levels then NotFound
    else
      var k := FirstFree(h[off]);
      if k < |h[off]| then FoundAt(Pos(off, k)) else FindFree(h, off + 1)
  }

  /** The `while (p->size >= size * 2) p = split(p);` loop of `request`:
      the free block at `p` is split, keeping the lower half each time,
      until it is smaller than twice `size`. The result is the new heap and
      the position of the block that remains. */
  /** Every list of `h'` begins with the blocks its list in `h` had, in
      the same order; of the list holding `p`, only the blocks before `p`
      are sure to stay. */
  predicate KeepsBefore(h: Heap, h': Heap, p: Pos) {
    && |h'| == |h|
    && forall m, i | 0 <= m < |h| && 0 <= i < |h[m]| && (m != p.level || i < p.index) ::
         i < |h'[m]| && h'[m][i] == h[m][i]
  }

  function SplitDown(h: Heap, p: Pos, size: nat): (r: (Heap, Pos))
    requires Wf(h) && ValidPos(h, p) && At(h, p).used == 0 && size >= 1
    ensures Wf(r.0) && ValidPos(r.0, r.1) && At(r.0, r.1).used == 0
    ensures At(r.0, r.1).size < 2 * size
    ensures At(h, p).size >= Pow2(FloorLog2(size)) ==> At(r.0, r.1).size >= Pow2(FloorLog2(size))
    ensures forall x | Covers(At(r.0, r.1), x) :: Covers(At(h, p), x)
    ensures At(r.0, r.1).start == At(h, p).start
    ensures SameOwners(h, r.0)
    ensures At(h, p).size < 2 * size ==> r == (h, p)
    ensures KeepsBefore(h, r.0, p)
    decreases p.level
  {
    var b := At(h, p);
    if b.size >= 2 * size then
      assert Shaped(h[p.level][p.index], p.level);
      SplitPreserves(h, p.level, p.index);
      var (h', k') := Split(h, p.level, p.index);
      var r := SplitDown(h', Pos(p.level - 1, k'), size);
      SplitKeeps(h, p.level, p.index);
      KeepsBeforeTrans(h, h', r.0, p, Pos(p.level - 1, k'));
      r
    else (h, p)
  }

  /** The rest of the split loop's frame: the lists above the block are
      untouched, and when the block is split it leaves its list and the
      block found is a new one, appended to a lower list. */
  lemma {:induction false} SplitDownKeeps(h: Heap, p: Pos, size: nat)
    requires Wf(h) && ValidPos(h, p) && At(h, p).used == 0 && size >= 1
    ensures var r := SplitDown(h, p, size);
      && (forall m | p.level < m < |h| :: r.0[m] == h[m])
      && (At(h, p).size >= 2 * size ==>
            && r.1.level < p.level && r.1.index == |h[r.1.level]|
            && r.0[p.level] == Remove(h[p.level], p.index))
    decreases p.level
  {
    if At(h, p).size >= 2 * size {
      assert Shaped(h[p.level][p.index], p.level);
      SplitPreserves(h, p.level, p.index);
      var (h', k') := Split(h, p.level, p.index);
      SplitDownKeeps(h', Pos(p.level - 1, k'), size);
      SplitKeeps(h, p.level, p.index);
      SplitDownFrame(h, p, h', k', SplitDown(h', Pos(p.level - 1, k'), size));
    } else {
      assert SplitDown(h, p, size) == (h, p);
    }
  }

  /** The frame of one round of the split loop: the split, then the rest
      of the loop one level down. */
  lemma SplitDownFrame(h: Heap, p: Pos, h': Heap, k': nat, r: (Heap, Pos))
    requires ValidPos(h, p) && |h| == Levels && p.level >= 1
    requires |h'| == |h| && h'[p.level := h[p.level]][p.level - 1 := h[p.level - 1]] == h
    requires h'[p.level] == Remove(h[p.level], p.index) && k' == |h[p.level - 1]|
    requires KeepsBefore(h, h', p) && KeepsBefore(h', r.0, Pos(p.level - 1, k'))
    requires forall m | p.level - 1 < m < |h'| :: r.0[m] == h'[m]
    requires r.1 == Pos(p.level - 1, k') || (r.1.level < p.level - 1 && r.1.index == |h'[r.1.level]|)
    ensures KeepsBefore(h, r.0, p)
    ensures forall m | p.level < m < |h| :: r.0[m] == h[m]
    ensures r.1.level < p.level && r.1.index == |h[r.1.level]|
    ensures r.0[p.level] == Remove(h[p.level], p.index)
  {
    KeepsBeforeTrans(h, h', r.0, p, Pos(p.level - 1, k'));
    forall m | 0 <= m < |h| && m != p.level && m != p.level - 1
      ensures h'[m] == h[m]
    {
      assert h'[m] == h'[p.level := h[p.level]][p.level - 1 := h[p.level - 1]][m];
    }
  }

  /** A split keeps every list but the split block itself. */
  lemma SplitKeeps(h: Heap, l: nat, k: nat)
    requires |h| == Levels && l < Levels && k < |h[l]|
    requires h[l][k].size >= 2 && FloorLog2(h[l][k].size / 2) < Levels
    requires FloorLog2(h[l][k].size / 2) != l
    ensures KeepsBefore(h, Split(h, l, k).0, Pos(l, k))
  {
    var h' := Split(h, l, k).0;
    var fl := FloorLog2(h[l][k].size / 2);
    forall m, i | 0 <= m < |h| && 0 <= i < |h[m]| && (m != l || i < k)
      ensures i < |h'[m]| && h'[m][i] == h[m][i]
    {
      if m != l && m != fl {
        assert h'[m] == h'[l := h[l]][fl := h[fl]][m];
      }
    }
  }

  /** Keeping twice keeps: what a later change keeps of the lists, with
      the position it may disturb past every old block of its list, is
      kept from before the first change. */
  lemma KeepsBeforeTrans(h: Heap, h': Heap, h'': Heap, p: Pos, q: Pos)
    requires KeepsBefore(h, h', p) && KeepsBefore(h', h'', q)
    requires q.level != p.level && (q.level < |h| ==> q.index >= |h[q.level]|)
    ensures KeepsBefore(h, h'', p)
  {
  }

  datatype Outcome = Outcome(heap: Heap, granted: Found)

  /** What a granted request promises: block `a` of `h'` belongs to `id`;
      it is smaller than twice the request and at least the largest power
      of two within it; its units were all free in `h`; and every other
      unit has the owner it had. */
  ghost predicate Grants(h: Heap, h': Heap, a: Block, size: nat, id: int) {
    && a.used == id
    && Pow2(FloorLog2(size)) <= a.size < 2 * size
    && (forall x | Covers(a, x) :: OwnedBy(h, x, 0) && OwnedBy(h', x, id))
    && (forall x, u | !Covers(a, x) :: Total(h', x, UsedBy(u)) == Total(h, x, UsedBy(u)))
  }

  /** `request`: the first free block on the lowest level that can hold
      `size` is split down and given to `id`; with no free block there the
      heap is unchanged (the source prints "request error!"). With size 0
      the source splits forever, so the size is at least 1. */
  function Request(h: Heap, size: nat, id: int): (r: Outcome)
    requires Wf(h) && size >= 1 && id > 0
    ensures Wf(r.heap)
    ensures r.granted.NotFound? <==>
      forall l, i | FloorLog2(size) <= l < Levels && 0 <= i < |h[l]| :: h[l][i].used != 0
    ensures r.granted.NotFound? ==> r.heap == h
    ensures r.granted.FoundAt? ==>
      ValidPos(r.heap, r.granted.pos) && Grants(h, r.heap, At(r.heap, r.granted.pos), size, id)
    ensures r.granted.FoundAt? ==>
      var q := FindFree(h, FloorLog2(size));
      q.FoundAt? && At(r.heap, r.granted.pos).start == At(h, q.pos).start
    ensures r.granted.FoundAt? ==>
      var q := FindFree(h, FloorLog2(size));
      q.FoundAt? && KeepsBefore(h, r.heap, q.pos)
  {
    match FindFree(h, FloorLog2(size))
    case NotFound => Outcome(h, NotFound)
    case FoundAt(p) =>
      var (h1, a) := SplitDown(h, p, size);
      RequestGrants(h, p, h1, a, size, id);
      SplitDownKeeps(h, p, size);
      Outcome(SetUsed(h1, a, id), FoundAt(a))
  }

  lemma RequestGrants(h: Heap, p: Pos, h1: Heap, a: Pos, size: nat, id: int)
    requires Wf(h) && ValidPos(h, p) && At(h, p).used == 0 && size >= 1 && id > 0
    requires p.level >= FloorLog2(size)
    requires (h1, a) == SplitDown(h, p, size)
    ensures Wf(SetUsed(h1, a, id))
    ensures Grants(h, SetUsed(h1, a, id), At(SetUsed(h1, a, id), a), size, id)
  {
    var h' := SetUsed(h1, a, id);
    var blk := At(h1, a);
    assert Shaped(h[p.level][p.index], p.level);
    Pow2Monotone(FloorLog2(size), p.level);
    SetUsedEffect(h1, a, id);
    forall x | Covers(blk, x)
      ensures OwnedBy(h, x, 0) && OwnedBy(h', x, id)
    {
      OwnerOfCovered(h, p, x);
    }
  }

  // ---------------------------------------------------------------------
  // freeb

  /** The scan of `freeb`: the first block of `s` that `id` owns and that
      has exactly `size` units, or `|s|`. */
  function FirstOwned(s: seq<Block>, size: nat, id: int): (k: nat)
    ensures k <= |s|
    ensures k < |s| ==> s[k].used == id && s[k].size == size
    ensures forall i | 0 <= i < k :: !(s[i].used == id && s[i].size == size)
  {
    if s == [] then 0
    else if s[0].used == id && s[0].size == size then 0
    else 1 + FirstOwned(s[1..], size, id)
  }

  /** What freeing block `b` promises: its units, owned by its owner in
      `h`, are free in `h'`, and every other unit has the owner it had. */
  ghost predicate Releases(h: Heap, h': Heap, b: Block) {
    && (forall x | Covers(b, x) :: OwnedBy(h, x, b.used) && OwnedBy(h', x, 0))
    && (forall x, u | !Covers(b, x) :: Total(h', x, UsedBy(u)) == Total(h, x, UsedBy(u)))
  }

  /** `freeb`: the first block of `size` units that `id` owns, on the level
      of `size`, becomes free and is merged with its buddies; when there is
      none the heap is unchanged (the source prints "freeb error!"). The
      source reads `headers[f(size)]` unchecked, so `size` stays below
      1024. */
  function Freeb(h: Heap, size: nat, id: int): (r: Heap)
    requires Wf(h) && size >= 1 && id > 0 && FloorLog2(size) < Levels
    ensures Wf(r)
    ensures var s := h[FloorLog2(size)];
      (forall i | 0 <= i < |s| :: !(s[i].used == id && s[i].size == size)) ==> r == h
    ensures var s := h[FloorLog2(size)]; var k := FirstOwned(s, size, id);
      k < |s| ==> Releases(h, r, s[k]) && SettledIn(h, r, s[k])
  {
    var off := FloorLog2(size);
    var k := FirstOwned(h[off], size, id);
    if k == |h[off]| then h
    else
      FreebReleases(h, Pos(off, k));
      var h1 := SetUsed(h, Pos(off, k), 0);
      var r := Merge(h1, off, k);
      FreedSettles(h, Pos(off, k), r);
      r
  }

  lemma FreebReleases(h: Heap, p: Pos)
    requires Wf(h) && ValidPos(h, p) && At(h, p).used != 0
    ensures Wf(SetUsed(h, p, 0))
    ensures Releases(h, Merge(SetUsed(h, p, 0), p.level, p.index), At(h, p))
  {
    var h1 := SetUsed(h, p, 0);
    var b := At(h, p);
    SetUsedEffect(h, p, 0);
    var r := Merge(h1, p.level, p.index);
    forall x | Covers(b, x)
      ensures OwnedBy(h, x, b.used) && OwnedBy(r, x, 0)
    {
      OwnerOfCovered(h, p, x);
    }
  }
}
