/** Properties of the buddy allocator that relate its operations to one
    another: `is_buddy` is symmetric, `merge_imp` undoes a split, a
    power-of-two request is met exactly, and freeing what a request granted
    gives every unit back to its former owner. */
module BuddyProps {
  import opened BuddyHeap
  import opened Buddy

  /** `is_buddy` does not depend on the order of its arguments. */
  lemma IsBuddySymmetric(a: Block, b: Block)
    requires a.size >= 1 && b.size >= 1
    ensures IsBuddy(a, b) <==> IsBuddy(b, a)
  {
    if a.start == b.start {
      assert !IsBuddy(a, b) && !IsBuddy(b, a);
    }
  }

  /** The two halves `split` makes of a block of level `l` are buddies,
      share out its units, and `merge_imp` puts them back together. */
  lemma SplitThenMergeImp(b: Block, l: nat)
    requires 1 <= l < Levels && Shaped(b, l)
    ensures LowerHalf(b).size >= 1 && UpperHalf(b).size >= 1
    ensures IsBuddy(LowerHalf(b), UpperHalf(b)) && IsBuddy(UpperHalf(b), LowerHalf(b))
    ensures MergeImp(LowerHalf(b), UpperHalf(b)) == b.(used := 0)
    ensures MergeImp(UpperHalf(b), LowerHalf(b)) == b.(used := 0)
    ensures forall x :: Covers(b, x) <==> Covers(LowerHalf(b), x) || Covers(UpperHalf(b), x)
  {
    HalvesAreBuddies(b, l);
    IsBuddySymmetric(LowerHalf(b), UpperHalf(b));
    var lo, up := LowerHalf(b), UpperHalf(b);
    assert MergeImp(lo, up) == lo.(size := lo.size * 2);
    assert MergeImp(up, lo) == MergeImp(lo, up);
  }

  lemma HalvesAreBuddies(b: Block, l: nat)
    requires 1 <= l < Levels && Shaped(b, l)
    ensures b.size == 2 * Pow2(l - 1) && LowerHalf(b).size == Pow2(l - 1) && UpperHalf(b).size == Pow2(l - 1)
    ensures IsBuddy(LowerHalf(b), UpperHalf(b))
  {
    Align(b.start, Pow2(l - 1));
  }

  /** A request for a power of two up to 512 units is met with a block of
      exactly that size. */
  lemma RequestExactForPowerOfTwo(h: Heap, k: nat, id: int)
    requires Wf(h) && k < Levels && id > 0
    ensures var r := Request(h, Pow2(k), id);
      r.granted.FoundAt? ==> At(r.heap, r.granted.pos).size == Pow2(k)
  {
    var r := Request(h, Pow2(k), id);
    if r.granted.FoundAt? {
      FloorLog2OfPow2(k);
      PowerOfTwoBetween(r.heap, r.granted.pos, k);
    }
  }

  /** The only block size of a well-formed heap from 2^k up to, but not
      including, 2^(k+1) is 2^k. */
  lemma PowerOfTwoBetween(h: Heap, p: Pos, k: nat)
    requires Wf(h) && ValidPos(h, p) && Pow2(k) <= At(h, p).size < 2 * Pow2(k)
    ensures At(h, p).size == Pow2(k)
  {
    assert Shaped(h[p.level][p.index], p.level);
    if p.level < k {
      Pow2Monotone(p.level + 1, k);
    } else if p.level > k {
      Pow2Monotone(k + 1, p.level);
    }
  }

  /** Two different blocks never share a unit of a well-formed heap. */
  lemma DistinctBlocksDisjoint(h: Heap, p: Pos, q: Pos, x: int)
    requires Wf(h) && ValidPos(h, p) && ValidPos(h, q) && p != q
    ensures !(Covers(At(h, p), x) && Covers(At(h, q), x))
  {
    if Covers(At(h, p), x) && Covers(At(h, q), x) {
      OwnerOfCovered(h, p, x);
      if p.level == q.level {
        TallyRemoveTwo(h[p.level], p.index, q.index, x, AnyBlock);
        TotalAtLeast(h, p.level, x, AnyBlock);
      } else {
        var h1 := h[p.level := []];
        TotalUpdate(h, p.level, [], x, AnyBlock);
        TallyAtLeast(h[p.level], p.index, x, AnyBlock);
        assert h1[q.level] == h[q.level];
        TotalAtLeast(h1, q.level, x, AnyBlock);
        TallyAtLeast(h[q.level], q.index, x, AnyBlock);
      }
    }
  }

  /** A free unit of a well-formed heap counts once for owner 0 and never
      for any other owner. */
  lemma FreeUnitCounts(h: Heap, x: int, u: int)
    requires Wf(h) && 0 <= x < MaxSize && OwnedBy(h, x, 0)
    ensures Total(h, x, UsedBy(u)) == if u == 0 then 1 else 0
  {
    TotalOwnedBelowAll(h, x, 0, u);
  }

  /** Request then free, for an owner that held nothing: every unit is
      back with the owner it had before the request. */
  lemma RequestThenFreeRestoresOwners(h: Heap, size: nat, id: int)
    requires Wf(h) && size >= 1 && id > 0
    requires forall x :: Total(h, x, UsedBy(id)) == 0
    ensures var r := Request(h, size, id);
      r.granted.FoundAt? ==>
        var a := At(r.heap, r.granted.pos);
        && FloorLog2(a.size) < Levels
        && SameOwners(h, Freeb(r.heap, a.size, id))
  {
    var r := Request(h, size, id);
    if r.granted.FoundAt? {
      var h1 := r.heap;
      var p := r.granted.pos;
      var a := At(h1, p);
      assert Shaped(h1[p.level][p.index], p.level);
      FloorLog2OfPow2(p.level);
      var s := h1[p.level];
      var k := FirstOwned(s, a.size, id);
      assert k <= p.index;
      if k != p.index {
        var q := Pos(p.level, k);
        assert Shaped(h1[q.level][q.index], q.level);
        var y := At(h1, q).start;
        assert Covers(At(h1, q), y);
        if Covers(a, y) {
          DistinctBlocksDisjoint(h1, p, q, y);
        } else {
          OwnerOfCovered(h1, q, y);
        }
      }
      var h2 := Freeb(h1, a.size, id);
      assert Releases(h1, h2, a);
      forall x, u
        ensures Total(h2, x, UsedBy(u)) == Total(h, x, UsedBy(u))
      {
        if Covers(a, x) {
          OwnerOfCovered(h1, p, x);
          FreeUnitCounts(h, x, u);
          FreeUnitCounts(h2, x, u);
        }
      }
    }
  }
}
