/** The physical memory map: base and bound pairs in a fixed array, kept sorted
    and disjoint while regions are inserted and merged. */
module Physmap {
  import opened Common

  const PHYS_AVAIL_ENTRIES := 126

  datatype Region = Region(lo: nat, hi: nat)

  /** The first n pairs of the array. */
  function Regions(s: seq<nat>, n: nat): (rs: seq<Region>)
    requires 2 * n <= |s|
    ensures |rs| == n
  {
    seq(n, r requires 0 <= r < n => Region(s[2 * r], s[2 * r + 1]))
  }

  ghost predicate Sorted(rs: seq<Region>) {
    && (forall r | 0 <= r < |rs| :: rs[r].lo < rs[r].hi)
    && (forall r, q | 0 <= r < q < |rs| :: rs[r].hi <= rs[q].lo)
  }

  ghost predicate Covers(rs: seq<Region>, a: int) {
    exists r | 0 <= r < |rs| :: rs[r].lo <= a < rs[r].hi
  }

  /** The two ranges share an address. */
  predicate Meets(x: Region, b: nat, e: nat) {
    x.lo < e && b < x.hi
  }

  predicate Overlaps(rs: seq<Region>, b: nat, e: nat) {
    exists r | 0 <= r < |rs| :: Meets(rs[r], b, e)
  }

  /** The first region that ends above b; all of them if none does. */
  function Slot(rs: seq<Region>, b: nat): (k: nat)
    ensures k <= |rs|
    ensures forall r | 0 <= r < k :: rs[r].hi <= b
    ensures k < |rs| ==> b < rs[k].hi
  {
    if rs == [] || b < rs[0].hi then 0 else 1 + Slot(rs[1..], b)
  }

  /** In a sorted map it is enough to look at that region. */
  lemma SlotDecidesOverlap(rs: seq<Region>, b: nat, e: nat)
    requires Sorted(rs) && b < e
    ensures Overlaps(rs, b, e) <==> Slot(rs, b) < |rs| && rs[Slot(rs, b)].lo < e
  {
    var k := Slot(rs, b);
    if k < |rs| && rs[k].lo < e {
      assert Meets(rs[k], b, e);
    }
  }

  /** How a region that overlaps nothing goes in at place k: merged with the
      next region, else with the previous one, else on its own. */
  function Merged(rs: seq<Region>, k: nat, b: nat, e: nat): seq<Region>
    requires k <= |rs|
  {
    if k < |rs| && e == rs[k].lo then rs[k := Region(b, rs[k].hi)]
    else if k > 0 && b == rs[k - 1].hi then rs[k - 1 := Region(rs[k - 1].lo, e)]
    else rs[..k] + [Region(b, e)] + rs[k..]
  }

  /** b and e fit between the first k regions and the rest. */
  ghost predicate Between(rs: seq<Region>, k: nat, b: nat, e: nat) {
    && k <= |rs| && b < e
    && (forall r | 0 <= r < k :: rs[r].hi <= b)
    && (forall r | k <= r < |rs| :: e <= rs[r].lo)
  }

  lemma SlotIsBetween(rs: seq<Region>, b: nat, e: nat)
    requires Sorted(rs) && b < e && !Overlaps(rs, b, e)
    ensures Between(rs, Slot(rs, b), b, e)
  {
    SlotDecidesOverlap(rs, b, e);
    var k := Slot(rs, b);
    forall r | k <= r < |rs| ensures e <= rs[r].lo {
      if k < r { assert rs[k].hi <= rs[r].lo; }
    }
  }

  lemma InsertedSorted(rs: seq<Region>, k: nat, b: nat, e: nat)
    requires Sorted(rs) && Between(rs, k, b, e)
    ensures Sorted(rs[..k] + [Region(b, e)] + rs[k..])
  {
    var m := rs[..k] + [Region(b, e)] + rs[k..];
    assert forall r | 0 <= r < k :: m[r] == rs[r];
    assert forall r | k < r < |m| :: m[r] == rs[r - 1];
    assert m[k] == Region(b, e);
  }

  lemma MergedSorted(rs: seq<Region>, k: nat, b: nat, e: nat)
    requires Sorted(rs) && Between(rs, k, b, e)
    ensures Sorted(Merged(rs, k, b, e))
  {
    if k < |rs| && e == rs[k].lo {
      assert forall r | 0 <= r < k :: rs[r].hi <= b;
    } else if k > 0 && b == rs[k - 1].hi {
      assert forall r | k <= r < |rs| :: e <= rs[r].lo;
    } else {
      InsertedSorted(rs, k, b, e);
    }
  }

  lemma UpdateCovers(rs: seq<Region>, k: nat, x: Region, a: int)
    requires k < |rs|
    ensures Covers(rs[k := x], a) ==> Covers(rs, a) || x.lo <= a < x.hi
    ensures x.lo <= a < x.hi ==> Covers(rs[k := x], a)
    ensures Covers(rs, a) && !(rs[k].lo <= a < rs[k].hi) ==> Covers(rs[k := x], a)
  {
    var m := rs[k := x];
    assert m[k] == x;
    if Covers(rs, a) && !(rs[k].lo <= a < rs[k].hi) {
      var r :| 0 <= r < |rs| && rs[r].lo <= a < rs[r].hi;
      assert m[r] == rs[r];
    }
    if Covers(m, a) && !(x.lo <= a < x.hi) {
      var r :| 0 <= r < |m| && m[r].lo <= a < m[r].hi;
      assert m[r] == rs[r];
    }
  }

  lemma MergedCovers(rs: seq<Region>, k: nat, b: nat, e: nat, a: int)
    requires k <= |rs| && b < e
    requires k < |rs| ==> rs[k].lo < rs[k].hi
    requires k > 0 ==> rs[k - 1].lo < rs[k - 1].hi
    ensures Covers(Merged(rs, k, b, e), a) <==> Covers(rs, a) || b <= a < e
  {
    var m := Merged(rs, k, b, e);
    if k < |rs| && e == rs[k].lo {
      UpdateCovers(rs, k, Region(b, rs[k].hi), a);
      UpdateCovers(m, k, rs[k], a);
    } else if k > 0 && b == rs[k - 1].hi {
      UpdateCovers(rs, k - 1, Region(rs[k - 1].lo, e), a);
      UpdateCovers(m, k - 1, rs[k - 1], a);
    } else {
      if Covers(rs, a) {
        var r :| 0 <= r < |rs| && rs[r].lo <= a < rs[r].hi;
        assert m[if r < k then r else r + 1] == rs[r];
      }
      assert m[k] == Region(b, e);
      if Covers(m, a) && !(b <= a < e) {
        var r :| 0 <= r < |m| && m[r].lo <= a < m[r].hi;
        assert rs[if r < k then r else r - 1] == m[r];
      }
    }
  }

  /** n pairs, sorted and disjoint, and zeros behind them; the last pair of the
      array is never used. */
  ghost predicate MapOk(s: seq<nat>, n: nat) {
    && |s| == PHYS_AVAIL_ENTRIES && 2 * n < PHYS_AVAIL_ENTRIES
    && Sorted(Regions(s, n))
    && forall k | 2 * n <= k < |s| :: s[k] == 0
  }

  /** base + length in 64 bits. */
  function Bound(base: nat, length: nat): nat {
    (base + length) % WORD_SPAN
  }

  /** The first pair, of the n and the one behind them, that ends above b. */
  function Scan(s: seq<nat>, n: nat, b: nat): nat
    requires 2 * n + 2 <= |s|
  {
    Slot(Regions(s, n + 1), b)
  }

  /** The region is taken to overlap the map. */
  predicate Ignored(s: seq<nat>, n: nat, b: nat, length: nat)
    requires 2 * n + 2 <= |s|
  {
    Scan(s, n, b) <= n && s[2 * Scan(s, n, b)] < Bound(b, length)
  }

  /** Where the region would go in; behind the map if no pair ends above it. */
  function Goal(s: seq<nat>, n: nat, b: nat): (k: nat)
    requires 2 * n + 2 <= |s|
    ensures k <= n
  {
    if Scan(s, n, b) <= n then Scan(s, n, b) else n
  }

  /** The scan of add_physmap_entry. */
  method FindSlot(base: nat, length: nat, physmap: array<nat>, physmapIdx: nat, ghost n: nat)
    returns (overlap: bool, insertIdx: nat)
    requires physmapIdx == 2 * n && 2 * n + 2 <= physmap.Length
    ensures overlap == Ignored(physmap[..], n, base, length)
    ensures !overlap ==> insertIdx == 2 * Goal(physmap[..], n, base)
  {
    insertIdx := physmapIdx;
    ghost var rs, k := Regions(physmap[..], n + 1), 0;
    var i := 0;
    while i <= physmapIdx
      invariant i == 2 * k && k <= n + 1
      invariant forall r | 0 <= r < k :: rs[r].hi <= base
    {
      assert rs[k] == Region(physmap[i], physmap[i + 1]);
      if base < physmap[i + 1] {
        if Bound(base, length) <= physmap[i] {
          insertIdx := i;
          return false, insertIdx;
        }
        return true, insertIdx;
      }
      i, k := i + 2, k + 1;
    }
    overlap := false;
  }

  function Inserted(s: seq<nat>, n: nat, k: nat, b: nat, e: nat): (r: seq<nat>)
    requires k <= n && 2 * n + 2 < |s|
    ensures |r| == |s|
  {
    s[..2 * k] + [b, e] + s[2 * k..2 * n] + s[2 * n + 2..]
  }

  lemma InsertedPointwise(s: seq<nat>, s': seq<nat>, n: nat, k: nat, b: nat, e: nat)
    requires k <= n && 2 * n + 2 < |s| == |s'|
    requires forall i | 0 <= i < 2 * k :: s'[i] == s[i]
    requires s'[2 * k] == b && s'[2 * k + 1] == e
    requires forall i | 2 * k + 2 <= i < 2 * n + 2 :: s'[i] == s[i - 2]
    requires forall i | 2 * n + 2 <= i < |s| :: s'[i] == s[i]
    ensures s' == Inserted(s, n, k, b, e)
  {
  }

  /** Move the pairs from place k on one pair down and put the new one there. */
  method InsertPair(base: nat, bound: nat, physmap: array<nat>, physmapIdx: nat, insertIdx: nat,
                    ghost n: nat, ghost k: nat)
    requires physmapIdx == 2 * n && insertIdx == 2 * k && k <= n && 2 * n + 2 < physmap.Length
    modifies physmap
    ensures physmap[..] == Inserted(old(physmap[..]), n, k, base, bound)
  {
    ghost var s, m := physmap[..], n;
    var i := physmapIdx;
    while i > insertIdx
      invariant i == 2 * m && k <= m <= n
      invariant forall q | 0 <= q < 2 * m :: physmap[q] == s[q]
      invariant forall q | 2 * m + 2 <= q < 2 * n + 2 :: physmap[q] == s[q - 2]
      invariant forall q | 2 * n + 2 <= q < physmap.Length :: physmap[q] == s[q]
    {
      physmap[i] := physmap[i - 2];
      physmap[i + 1] := physmap[i - 1];
      i, m := i - 2, m - 1;
    }
    physmap[insertIdx] := base;
    physmap[insertIdx + 1] := bound;
    InsertedPointwise(s, physmap[..], n, k, base, bound);
  }

  lemma InsertedRegions(s: seq<nat>, n: nat, k: nat, b: nat, e: nat)
    requires k <= n && 2 * n + 2 < |s|
    ensures var s' := Inserted(s, n, k, b, e);
            |s'| == |s| && Regions(s', n + 1) == Regions(s, n)[..k] + [Region(b, e)] + Regions(s, n)[k..]
  {
    var s' := Inserted(s, n, k, b, e);
    var rs, rs' := Regions(s, n), Regions(s', n + 1);
    var want := rs[..k] + [Region(b, e)] + rs[k..];
    forall r | 0 <= r < n + 1 ensures rs'[r] == want[r] {
      if r < k {
        assert s'[2 * r] == s[2 * r] && s'[2 * r + 1] == s[2 * r + 1];
      } else if r > k {
        assert s'[2 * r] == s[2 * r - 2] && s'[2 * r + 1] == s[2 * r - 1];
      }
    }
  }

  lemma UpdatedRegions(s: seq<nat>, n: nat, k: nat, x: nat)
    requires k < n && 2 * n <= |s|
    ensures Regions(s[2 * k := x], n) == Regions(s, n)[k := Region(x, s[2 * k + 1])]
    ensures Regions(s[2 * k + 1 := x], n) == Regions(s, n)[k := Region(s[2 * k], x)]
  {
  }

  /** What becomes of the array and of the number of pairs when the region goes
      in at place k: prepended, appended, refused or inserted. */
  function Placement(s: seq<nat>, n: nat, k: nat, b: nat, e: nat): (p: (seq<nat>, nat))
    requires |s| == PHYS_AVAIL_ENTRIES && 2 * n < PHYS_AVAIL_ENTRIES && k <= n
    ensures |p.0| == PHYS_AVAIL_ENTRIES && 2 * p.1 <= PHYS_AVAIL_ENTRIES
  {
    if e == s[2 * k] then (s[2 * k := b], n)
    else if k > 0 && b == s[2 * (k - 1) + 1] then (s[2 * (k - 1) + 1 := e], n)
    else if 2 * n + 2 == PHYS_AVAIL_ENTRIES then (s, n + 1)
    else (Inserted(s, n, k, b, e), n + 1)
  }

  /** Merge the region with a neighbour or give it a pair of its own. */
  method Place(base: nat, length: nat, physmap: array<nat>, physmapIdx: nat, insertIdx: nat,
               ghost n: nat, ghost k: nat)
    returns (ok: bool, newIdx: nat, ghost n': nat)
    requires physmap.Length == PHYS_AVAIL_ENTRIES && 2 * n < PHYS_AVAIL_ENTRIES && k <= n
    requires physmapIdx == 2 * n && insertIdx == 2 * k
    modifies physmap
    ensures (physmap[..], n') == Placement(old(physmap[..]), n, k, base, Bound(base, length))
    ensures newIdx == 2 * n' && ok == (newIdx < PHYS_AVAIL_ENTRIES)
  {
    ghost var s := physmap[..];
    n' := n;
    if insertIdx <= physmapIdx && Bound(base, length) == physmap[insertIdx] {
      physmap[insertIdx] := base;
      assert physmap[..] == s[2 * k := base];
      return true, physmapIdx, n;
    }
    if insertIdx > 0 && base == physmap[insertIdx - 1] {
      physmap[insertIdx - 1] := Bound(physmap[insertIdx - 1], length);
      assert physmap[..] == s[2 * (k - 1) + 1 := Bound(base, length)];
      return true, physmapIdx, n;
    }
    newIdx, n' := physmapIdx + 2, n + 1;
    if newIdx == PHYS_AVAIL_ENTRIES {
      return false, newIdx, n';
    }
    InsertPair(base, Bound(base, length), physmap, physmapIdx, insertIdx, n, k);
    ok := true;
  }

  /** The array, the number of pairs and the result after an entry. */
  datatype Added = Added(s: seq<nat>, n: nat, ok: bool)

  /** What add_physmap_entry makes of any array and any 64-bit base and length. */
  function AddEntry(s: seq<nat>, n: nat, b: nat, length: nat): (a: Added)
    requires |s| == PHYS_AVAIL_ENTRIES && 2 * n < PHYS_AVAIL_ENTRIES
    ensures |a.s| == PHYS_AVAIL_ENTRIES && (a.ok <==> 2 * a.n < PHYS_AVAIL_ENTRIES)
  {
    if length == 0 || Ignored(s, n, b, length) then Added(s, n, true)
    else
      var p := Placement(s, n, Goal(s, n, b), b, Bound(b, length));
      Added(p.0, p.1, 2 * p.1 < PHYS_AVAIL_ENTRIES)
  }

  /** add_physmap_entry */
  method AddPhysmapEntry(base: nat, length: nat, physmap: array<nat>, physmapIdx: nat, ghost n: nat)
    returns (ok: bool, newIdx: nat, ghost n': nat)
    requires physmap.Length == PHYS_AVAIL_ENTRIES && physmapIdx == 2 * n < PHYS_AVAIL_ENTRIES
    modifies physmap
    ensures newIdx == 2 * n' && Added(physmap[..], n', ok) == AddEntry(old(physmap[..]), n, base, length)
  {
    n' := n;
    if length == 0 {
      return true, physmapIdx, n;
    }
    var overlap, insertIdx := FindSlot(base, length, physmap, physmapIdx, n);
    if overlap {
      return true, physmapIdx, n;
    }
    ok, newIdx, n' := Place(base, length, physmap, physmapIdx, insertIdx, n, Goal(physmap[..], n, base));
  }

  /** In a well-formed map the pair behind the regions is never found. */
  lemma ScanIsSlot(s: seq<nat>, n: nat, b: nat, length: nat)
    requires MapOk(s, n)
    ensures var rs := Regions(s, n);
            && Goal(s, n, b) == Slot(rs, b)
            && (Ignored(s, n, b, length) <==> Slot(rs, b) < n && rs[Slot(rs, b)].lo < Bound(b, length))
  {
    var rs, all := Regions(s, n), Regions(s, n + 1);
    assert all[n] == Region(0, 0);
    assert forall r | 0 <= r < n :: all[r] == rs[r];
  }

  // ----- regions that end below 2^64

  /** The outcome of placing a region at place k of a map of n pairs. */
  ghost predicate PlaceDone(s: seq<nat>, n: nat, k: nat, b: nat, e: nat, s': seq<nat>, n': nat, ok: bool)
    requires k <= n && 2 * n <= |s|
  {
    var merged := Merged(Regions(s, n), k, b, e);
    && n' == |merged| && ok == (2 * n' < PHYS_AVAIL_ENTRIES)
    && (ok ==> MapOk(s', n') && Regions(s', n') == merged)
    && (!ok ==> s' == s && n' == n + 1)
  }

  lemma PrependOk(s: seq<nat>, n: nat, k: nat, b: nat, e: nat)
    requires MapOk(s, n) && Between(Regions(s, n), k, b, e) && k < n && e == s[2 * k]
    ensures PlaceDone(s, n, k, b, e, s[2 * k := b], n, true)
  {
    UpdatedRegions(s, n, k, b);
    MergedSorted(Regions(s, n), k, b, e);
  }

  lemma AppendOk(s: seq<nat>, n: nat, k: nat, b: nat, e: nat)
    requires MapOk(s, n) && Between(Regions(s, n), k, b, e) && 0 < k && b == s[2 * (k - 1) + 1]
    requires k < n ==> e != s[2 * k]
    ensures PlaceDone(s, n, k, b, e, s[2 * (k - 1) + 1 := e], n, true)
  {
    UpdatedRegions(s, n, k - 1, e);
    MergedSorted(Regions(s, n), k, b, e);
  }

  /** The region touches neither neighbour. */
  ghost predicate Detached(s: seq<nat>, n: nat, k: nat, b: nat, e: nat)
    requires k <= n && 2 * n <= |s|
  {
    (k < n ==> e != s[2 * k]) && (0 < k ==> b != s[2 * (k - 1) + 1])
  }

  lemma InsertOk(s: seq<nat>, n: nat, k: nat, b: nat, e: nat)
    requires MapOk(s, n) && Between(Regions(s, n), k, b, e) && Detached(s, n, k, b, e)
    requires 2 * n + 2 < PHYS_AVAIL_ENTRIES
    ensures PlaceDone(s, n, k, b, e, Inserted(s, n, k, b, e), n + 1, true)
  {
    MergedSorted(Regions(s, n), k, b, e);
    InsertedRegions(s, n, k, b, e);
  }

  lemma InsertRefused(s: seq<nat>, n: nat, k: nat, b: nat, e: nat)
    requires MapOk(s, n) && k <= n && Detached(s, n, k, b, e) && 2 * n + 2 == PHYS_AVAIL_ENTRIES
    ensures PlaceDone(s, n, k, b, e, s, n + 1, false)
  {
  }

  lemma PlacementOk(s: seq<nat>, n: nat, k: nat, b: nat, e: nat)
    requires MapOk(s, n) && Between(Regions(s, n), k, b, e)
    ensures var p := Placement(s, n, k, b, e); PlaceDone(s, n, k, b, e, p.0, p.1, 2 * p.1 < PHYS_AVAIL_ENTRIES)
  {
    assert s[2 * n] == 0;
    if e == s[2 * k] {
      PrependOk(s, n, k, b, e);
    } else if k > 0 && b == s[2 * (k - 1) + 1] {
      AppendOk(s, n, k, b, e);
    } else if 2 * n + 2 == PHYS_AVAIL_ENTRIES {
      InsertRefused(s, n, k, b, e);
    } else {
      InsertOk(s, n, k, b, e);
    }
  }

  /** The outcome of adding one entry that ends below 2^64 to a map of n pairs. A
      zero length and a region that overlaps the map are ignored; anything else
      is merged or inserted, unless it needs a pair of its own and the array is
      full. */
  ghost predicate EntryDone(s: seq<nat>, n: nat, b: nat, length: nat, s': seq<nat>, n': nat, ok: bool) {
    2 * n <= |s| &&
    var rs := Regions(s, n);
    if length == 0 || Overlaps(rs, b, b + length) then ok && n' == n && s' == s
    else PlaceDone(s, n, Slot(rs, b), b, b + length, s', n', ok)
  }

  /** The scan sees an overlap with a region that ends below 2^64 exactly if there is one. */
  lemma OverlapIsIgnored(s: seq<nat>, n: nat, b: nat, length: nat)
    requires MapOk(s, n) && 0 < length && b + length < WORD_SPAN
    ensures Bound(b, length) == b + length
    ensures Ignored(s, n, b, length) <==> Overlaps(Regions(s, n), b, b + length)
  {
    ScanIsSlot(s, n, b, length);
    SlotDecidesOverlap(Regions(s, n), b, b + length);
  }

  /** An overlap it sees with one that reaches 2^64 is there too. */
  lemma IgnoredOverlaps(s: seq<nat>, n: nat, b: nat, length: nat)
    requires MapOk(s, n) && 0 < length && Ignored(s, n, b, length)
    ensures Overlaps(Regions(s, n), b, b + length)
  {
    ScanIsSlot(s, n, b, length);
    SlotDecidesOverlap(Regions(s, n), b, b + length);
  }

  lemma PlacedIsDone(s: seq<nat>, n: nat, b: nat, e: nat, s': seq<nat>, n': nat, ok: bool)
    requires MapOk(s, n) && b < e && !Overlaps(Regions(s, n), b, e)
    requires (s', n') == Placement(s, n, Slot(Regions(s, n), b), b, e) && ok == (2 * n' < PHYS_AVAIL_ENTRIES)
    ensures PlaceDone(s, n, Slot(Regions(s, n), b), b, e, s', n', ok)
  {
    SlotIsBetween(Regions(s, n), b, e);
    PlacementOk(s, n, Slot(Regions(s, n), b), b, e);
  }

  lemma PlacedEntry(s: seq<nat>, n: nat, b: nat, length: nat, s': seq<nat>, n': nat, ok: bool)
    requires 2 * n <= |s| && length > 0 && !Overlaps(Regions(s, n), b, b + length)
    requires PlaceDone(s, n, Slot(Regions(s, n), b), b, b + length, s', n', ok)
    ensures EntryDone(s, n, b, length, s', n', ok)
  {
  }

  /** A region that ends below 2^64, or that is ignored, is dealt with as it should be. */
  lemma EntryIsDone(s: seq<nat>, n: nat, b: nat, length: nat)
    requires MapOk(s, n) && (b + length < WORD_SPAN || Ignored(s, n, b, length))
    ensures var a := AddEntry(s, n, b, length); EntryDone(s, n, b, length, a.s, a.n, a.ok)
  {
    if length == 0 {
    } else if Ignored(s, n, b, length) {
      IgnoredOverlaps(s, n, b, length);
    } else {
      OverlapIsIgnored(s, n, b, length);
      ScanIsSlot(s, n, b, length);
      var a := AddEntry(s, n, b, length);
      PlacedIsDone(s, n, b, b + length, a.s, a.n, a.ok);
      PlacedEntry(s, n, b, length, a.s, a.n, a.ok);
    }
  }

  // ----- regions that reach 2^64

  /** A well-formed map that has lost no address of the old one. */
  ghost predicate Harmless(s: seq<nat>, n: nat, s': seq<nat>, n': nat)
    requires 2 * n <= |s|
  {
    MapOk(s', n') && forall a: int | Covers(Regions(s, n), a) :: Covers(Regions(s', n'), a)
  }

  lemma LosesAddress(s: seq<nat>, n: nat, r: nat, x: Region, s': seq<nat>, a: int)
    requires MapOk(s, n) && MapOk(s', n) && r < n && Regions(s', n) == Regions(s, n)[r := x]
    requires Regions(s, n)[r].lo <= a < Regions(s, n)[r].hi && !(x.lo <= a < x.hi)
    ensures !Harmless(s, n, s', n)
  {
    var rs, rs' := Regions(s, n), Regions(s', n);
    assert Covers(rs, a);
  }

  lemma PrependHarms(s: seq<nat>, n: nat, k: nat, b: nat, e: nat)
    requires MapOk(s, n) && k <= n && e < b && e == s[2 * k]
    ensures !Harmless(s, n, s[2 * k := b], n)
  {
    var s' := s[2 * k := b];
    if k == n {
      assert s'[2 * n] == b;
    } else if MapOk(s', n) {
      UpdatedRegions(s, n, k, b);
      assert Regions(s, n)[k] == Region(e, s[2 * k + 1]);
      LosesAddress(s, n, k, Region(b, s[2 * k + 1]), s', e);
    }
  }

  lemma AppendHarms(s: seq<nat>, n: nat, k: nat, b: nat, e: nat)
    requires MapOk(s, n) && 0 < k <= n && e < b && b == s[2 * (k - 1) + 1]
    ensures !Harmless(s, n, s[2 * (k - 1) + 1 := e], n)
  {
    var s' := s[2 * (k - 1) + 1 := e];
    if MapOk(s', n) {
      UpdatedRegions(s, n, k - 1, e);
      assert Regions(s, n)[k - 1] == Region(s[2 * (k - 1)], b);
      assert Regions(s', n)[k - 1] == Region(s[2 * (k - 1)], e);
      LosesAddress(s, n, k - 1, Region(s[2 * (k - 1)], e), s', e);
    }
  }

  lemma InsertHarms(s: seq<nat>, n: nat, k: nat, b: nat, e: nat)
    requires |s| == PHYS_AVAIL_ENTRIES && k <= n && e < b && 2 * n + 2 < PHYS_AVAIL_ENTRIES
    ensures !MapOk(Inserted(s, n, k, b, e), n + 1)
  {
    InsertedRegions(s, n, k, b, e);
    assert Regions(Inserted(s, n, k, b, e), n + 1)[k] == Region(b, e);
  }

  /** An entry did no damage: the map is well-formed and has lost no address, or
      the entry was refused and the array is as it was. */
  ghost predicate Undamaged(s: seq<nat>, n: nat, a: Added)
    requires 2 * n <= |s|
  {
    if a.ok then Harmless(s, n, a.s, a.n) else a.s == s
  }

  /** The region needs a pair of its own and there is none. */
  predicate Refused(s: seq<nat>, n: nat, k: nat, b: nat, e: nat)
    requires |s| == PHYS_AVAIL_ENTRIES && 2 * n < PHYS_AVAIL_ENTRIES && k <= n
  {
    2 * n + 2 == PHYS_AVAIL_ENTRIES && e != s[2 * k] && (k > 0 ==> b != s[2 * (k - 1) + 1])
  }

  lemma WrappedPlacement(s: seq<nat>, n: nat, k: nat, b: nat, e: nat)
    requires MapOk(s, n) && k <= n && e < b
    ensures var p := Placement(s, n, k, b, e);
            Undamaged(s, n, Added(p.0, p.1, 2 * p.1 < PHYS_AVAIL_ENTRIES)) <==> Refused(s, n, k, b, e)
  {
    if e == s[2 * k] {
      PrependHarms(s, n, k, b, e);
    } else if k > 0 && b == s[2 * (k - 1) + 1] {
      AppendHarms(s, n, k, b, e);
    } else if 2 * n + 2 < PHYS_AVAIL_ENTRIES {
      InsertHarms(s, n, k, b, e);
    }
  }

  /** A region whose end wraps around does no damage exactly if the wrapped end
      still seems to overlap, so that it is ignored, or if it is refused. If
      not, it cuts a region short, spoils the zeros behind the map or breaks
      its order. */
  lemma WrappedExact(s: seq<nat>, n: nat, b: nat, length: nat)
    requires MapOk(s, n) && b < WORD_SPAN && 0 < length < WORD_SPAN <= b + length
    ensures Undamaged(s, n, AddEntry(s, n, b, length)) <==>
            Ignored(s, n, b, length) || Refused(s, n, Goal(s, n, b), b, Bound(b, length))
  {
    if !Ignored(s, n, b, length) {
      WrappedPlacement(s, n, Goal(s, n, b), b, Bound(b, length));
    }
  }

  /** Two pages that end one page past 2^64, into an empty map: the pair that
      goes in ends before it begins. */
  lemma WrappedExample()
    ensures var s := seq(PHYS_AVAIL_ENTRIES, _ => 0);
            && MapOk(s, 0)
            && var a := AddEntry(s, 0, WORD_SPAN - 4096, 8192);
               a.ok && a.n == 1 && a.s[0] == WORD_SPAN - 4096 && a.s[1] == 4096 && !Undamaged(s, 0, a)
  {
    var s := seq(PHYS_AVAIL_ENTRIES, _ => 0);
    assert Regions(s, 0) == [];
    ScanIsSlot(s, 0, WORD_SPAN - 4096, 8192);
    WrappedExact(s, 0, WORD_SPAN - 4096, 8192);
  }

  // ----- folding the firmware's memory map

  datatype Smap = Smap(memory: bool, base: nat, length: nat)

  /** The memory regions that, taken in order, overlap nothing accepted before. */
  function Accepted(smaps: seq<Smap>): seq<Region> {
    if smaps == [] then []
    else
      var before, x := Accepted(smaps[..|smaps| - 1]), smaps[|smaps| - 1];
      if x.memory && x.length > 0 && !Overlaps(before, x.base, x.base + x.length)
      then before + [Region(x.base, x.base + x.length)]
      else before
  }

  ghost predicate SameCover(rs: seq<Region>, accepted: seq<Region>) {
    forall a: int :: Covers(rs, a) <==> Covers(accepted, a)
  }

  ghost predicate NonEmpty(rs: seq<Region>) {
    forall r | 0 <= r < |rs| :: rs[r].lo < rs[r].hi
  }

  lemma {:induction false} AcceptedNonEmpty(smaps: seq<Smap>)
    ensures NonEmpty(Accepted(smaps))
  {
    if smaps != [] { AcceptedNonEmpty(smaps[..|smaps| - 1]); }
  }

  /** Overlap depends on the addresses covered only. */
  lemma OverlapsIsCover(rs: seq<Region>, b: nat, e: nat)
    requires NonEmpty(rs) && b < e
    ensures Overlaps(rs, b, e) <==> exists a :: b <= a < e && Covers(rs, a)
  {
    if Overlaps(rs, b, e) {
      var r :| 0 <= r < |rs| && Meets(rs[r], b, e);
      var a := if b < rs[r].lo then rs[r].lo else b;
      assert rs[r].lo <= a < rs[r].hi;
      assert Covers(rs, a);
    }
    if a :| b <= a < e && Covers(rs, a) {
      var r :| 0 <= r < |rs| && rs[r].lo <= a < rs[r].hi;
      assert Meets(rs[r], b, e);
    }
  }

  lemma SameOverlaps(rs: seq<Region>, accepted: seq<Region>, b: nat, e: nat)
    requires SameCover(rs, accepted) && NonEmpty(rs) && NonEmpty(accepted) && b < e
    ensures Overlaps(rs, b, e) <==> Overlaps(accepted, b, e)
  {
    OverlapsIsCover(rs, b, e);
    OverlapsIsCover(accepted, b, e);
  }

  lemma CoversSnoc(rs: seq<Region>, x: Region, a: int)
    ensures Covers(rs + [x], a) <==> Covers(rs, a) || x.lo <= a < x.hi
  {
    var all := rs + [x];
    assert all[|rs|] == x;
    if Covers(rs, a) {
      var r :| 0 <= r < |rs| && rs[r].lo <= a < rs[r].hi;
      assert all[r] == rs[r];
    }
  }

  /** A merge on one side and an acceptance on the other keep the covers equal. */
  lemma MergeIsAcceptance(rs: seq<Region>, accepted: seq<Region>, b: nat, e: nat)
    requires Sorted(rs) && SameCover(rs, accepted) && b < e
    ensures SameCover(Merged(rs, Slot(rs, b), b, e), accepted + [Region(b, e)])
  {
    forall a: int
      ensures Covers(Merged(rs, Slot(rs, b), b, e), a) <==> Covers(accepted + [Region(b, e)], a)
    {
      MergedCovers(rs, Slot(rs, b), b, e, a);
      CoversSnoc(accepted, Region(b, e), a);
    }
  }

  /** What is needed to go on after processing these entries: a well-formed map
      that covers exactly the accepted ones. */
  ghost predicate Folded(s: seq<nat>, n: nat, smaps: seq<Smap>) {
    MapOk(s, n) && SameCover(Regions(s, n), Accepted(smaps))
  }

  lemma AcceptedSnoc(smaps: seq<Smap>, x: Smap)
    ensures Accepted(smaps + [x]) ==
            if x.memory && x.length > 0 && !Overlaps(Accepted(smaps), x.base, x.base + x.length)
            then Accepted(smaps) + [Region(x.base, x.base + x.length)] else Accepted(smaps)
  {
    assert (smaps + [x])[..|smaps|] == smaps;
  }

  /** Only memory the firmware reported is accepted. */
  lemma {:induction false} AcceptedIsMemory(smaps: seq<Smap>, a: int)
    requires Covers(Accepted(smaps), a)
    ensures exists x | x in smaps :: x.memory && x.base <= a < x.base + x.length
  {
    if smaps != [] {
      var before, x := smaps[..|smaps| - 1], smaps[|smaps| - 1];
      if Covers(Accepted(before), a) {
        AcceptedIsMemory(before, a);
        var y :| y in before && y.memory && y.base <= a < y.base + y.length;
        assert y in smaps;
      } else {
        CoversSnoc(Accepted(before), Region(x.base, x.base + x.length), a);
        assert x in smaps;
      }
    }
  }

  lemma {:induction false} AcceptedGrows(smaps: seq<Smap>, i: nat, a: int)
    requires i <= |smaps| && Covers(Accepted(smaps[..i]), a)
    ensures Covers(Accepted(smaps), a)
    decreases |smaps|
  {
    if i < |smaps| {
      var before, x := smaps[..|smaps| - 1], smaps[|smaps| - 1];
      assert before[..i] == smaps[..i];
      AcceptedGrows(before, i, a);
      CoversSnoc(Accepted(before), Region(x.base, x.base + x.length), a);
    } else {
      assert smaps[..i] == smaps;
    }
  }

  /** Entry i is memory and shares no address with an earlier memory entry. */
  ghost predicate FirstThere(smaps: seq<Smap>, i: nat) {
    && i < |smaps| && smaps[i].memory
    && forall j | 0 <= j < i && smaps[j].memory && smaps[j].length > 0 ::
         || smaps[j].base + smaps[j].length <= smaps[i].base
         || smaps[i].base + smaps[i].length <= smaps[j].base
  }

  lemma NotCoveredBefore(smaps: seq<Smap>, i: nat, b: int)
    requires FirstThere(smaps, i) && smaps[i].base <= b < smaps[i].base + smaps[i].length
    ensures !Covers(Accepted(smaps[..i]), b)
  {
    if Covers(Accepted(smaps[..i]), b) {
      AcceptedIsMemory(smaps[..i], b);
      assert false;
    }
  }

  lemma NoOverlapBefore(smaps: seq<Smap>, i: nat)
    requires FirstThere(smaps, i) && smaps[i].length > 0
    ensures !Overlaps(Accepted(smaps[..i]), smaps[i].base, smaps[i].base + smaps[i].length)
  {
    AcceptedNonEmpty(smaps[..i]);
    OverlapsIsCover(Accepted(smaps[..i]), smaps[i].base, smaps[i].base + smaps[i].length);
    forall b | smaps[i].base <= b < smaps[i].base + smaps[i].length ensures !Covers(Accepted(smaps[..i]), b) {
      NotCoveredBefore(smaps, i, b);
    }
  }

  /** A memory entry that shares no address with an earlier one is accepted whole. */
  lemma FirstIsAccepted(smaps: seq<Smap>, i: nat, a: int)
    requires FirstThere(smaps, i) && smaps[i].base <= a < smaps[i].base + smaps[i].length
    ensures Covers(Accepted(smaps), a)
  {
    var before, x := smaps[..i], smaps[i];
    NoOverlapBefore(smaps, i);
    AcceptedSnoc(before, x);
    assert smaps[..i + 1] == before + [x];
    CoversSnoc(Accepted(before), Region(x.base, x.base + x.length), a);
    AcceptedGrows(smaps, i + 1, a);
  }

  /** The map and the accepted regions agree on whether an entry overlaps. */
  lemma StillAccepted(rs: seq<Region>, smaps: seq<Smap>, x: Smap)
    requires Sorted(rs) && SameCover(rs, Accepted(smaps)) && x.memory && x.length > 0
    ensures Accepted(smaps + [x]) ==
            if Overlaps(rs, x.base, x.base + x.length) then Accepted(smaps)
            else Accepted(smaps) + [Region(x.base, x.base + x.length)]
  {
    AcceptedSnoc(smaps, x);
    AcceptedNonEmpty(smaps);
    SameOverlaps(rs, Accepted(smaps), x.base, x.base + x.length);
  }

  lemma FoldPlaced(s: seq<nat>, n: nat, accepted: seq<Region>, b: nat, e: nat, s': seq<nat>, n': nat)
    requires MapOk(s, n) && SameCover(Regions(s, n), accepted) && b < e
    requires PlaceDone(s, n, Slot(Regions(s, n), b), b, e, s', n', true)
    ensures MapOk(s', n') && SameCover(Regions(s', n'), accepted + [Region(b, e)])
  {
    MergeIsAcceptance(Regions(s, n), accepted, b, e);
  }

  /** An entry that was ignored or went in is accounted for. */
  lemma FoldStep(s: seq<nat>, n: nat, smaps: seq<Smap>, x: Smap, s': seq<nat>, n': nat)
    requires Folded(s, n, smaps) && x.memory && EntryDone(s, n, x.base, x.length, s', n', true)
    ensures Folded(s', n', smaps + [x])
  {
    if x.length == 0 {
      AcceptedSnoc(smaps, x);
    } else {
      StillAccepted(Regions(s, n), smaps, x);
      if !Overlaps(Regions(s, n), x.base, x.base + x.length) {
        FoldPlaced(s, n, Accepted(smaps), x.base, x.base + x.length, s', n');
      }
    }
  }

  lemma RefusedNeedsPair(s: seq<nat>, n: nat, b: nat, length: nat, s': seq<nat>, n': nat)
    requires EntryDone(s, n, b, length, s', n', false) && 2 * n < PHYS_AVAIL_ENTRIES
    ensures length > 0 && !Overlaps(Regions(s, n), b, b + length)
    ensures 2 * n + 2 == 2 * n' == PHYS_AVAIL_ENTRIES && s' == s
  {
  }

  /** An entry is refused only if it needs a pair and the last but one is taken. */
  lemma FoldRefused(s: seq<nat>, n: nat, smaps: seq<Smap>, x: Smap, s': seq<nat>, n': nat)
    requires Folded(s, n, smaps) && x.memory && EntryDone(s, n, x.base, x.length, s', n', false)
    ensures 2 * n + 2 == 2 * n' == PHYS_AVAIL_ENTRIES && s' == s
    ensures Accepted(smaps + [x]) == Accepted(smaps) + [Region(x.base, x.base + x.length)]
  {
    RefusedNeedsPair(s, n, x.base, x.length, s', n');
    StillAccepted(Regions(s, n), smaps, x);
  }

  /** One entry: what is not memory is skipped. */
  function AddSmap(s: seq<nat>, n: nat, x: Smap): (a: Added)
    requires |s| == PHYS_AVAIL_ENTRIES && 2 * n < PHYS_AVAIL_ENTRIES
    ensures |a.s| == PHYS_AVAIL_ENTRIES && (a.ok <==> 2 * a.n < PHYS_AVAIL_ENTRIES)
  {
    if x.memory then AddEntry(s, n, x.base, x.length) else Added(s, n, true)
  }

  /** The array and the number of pairs between two entries. */
  datatype Map = Map(s: seq<nat>, n: nat)

  ghost predicate InBounds(m: Map) {
    |m.s| == PHYS_AVAIL_ENTRIES && 2 * m.n < PHYS_AVAIL_ENTRIES
  }

  ghost predicate Follows(m: Map, x: Smap, m': Map) {
    InBounds(m) && AddSmap(m.s, m.n, x) == Added(m'.s, m'.n, true)
  }

  ghost predicate Stops(m: Map, x: Smap, m': Map) {
    InBounds(m) && AddSmap(m.s, m.n, x) == Added(m'.s, m'.n, false)
  }

  /** The maps between the first entries, all of which were taken or ignored. */
  ghost predicate Trace(maps: seq<Map>, smaps: seq<Smap>) {
    && 0 < |maps| <= |smaps| + 1 && (forall i | 0 <= i < |maps| :: InBounds(maps[i]))
    && forall i | 0 <= i < |maps| - 1 :: Follows(maps[i], smaps[i], maps[i + 1])
  }

  /** bios_add_smap_entries, from any array, index and list of entries: entries
      in turn, up to the end or to the first that is refused. */
  method BiosAddSmapEntries(smaps: seq<Smap>, physmap: array<nat>, physmapIdx: nat, ghost n: nat)
    returns (newIdx: nat, done: nat, ghost n': nat, ghost maps: seq<Map>)
    requires physmap.Length == PHYS_AVAIL_ENTRIES && physmapIdx == 2 * n < PHYS_AVAIL_ENTRIES
    modifies physmap
    ensures newIdx == 2 * n' && |maps| == done + 1 && Trace(maps, smaps) && maps[0] == Map(old(physmap[..]), n)
    ensures done == |smaps| ==> maps[done] == Map(physmap[..], n')
    ensures done < |smaps| ==> Stops(maps[done], smaps[done], Map(physmap[..], n'))
  {
    newIdx, done, n', maps := physmapIdx, 0, n, [Map(physmap[..], n)];
    while done < |smaps|
      invariant done <= |smaps| && newIdx == 2 * n' < PHYS_AVAIL_ENTRIES
      invariant |maps| == done + 1 && Trace(maps, smaps)
      invariant maps[0] == Map(old(physmap[..]), n) && maps[done] == Map(physmap[..], n')
    {
      if smaps[done].memory {
        var ok;
        ok, newIdx, n' := AddPhysmapEntry(smaps[done].base, smaps[done].length, physmap, newIdx, n');
        if !ok {
          return;
        }
      }
      assert Follows(maps[done], smaps[done], Map(physmap[..], n'));
      maps := maps + [Map(physmap[..], n')];
      done := done + 1;
    }
  }

  /** A memory entry ends below 2^64, or is ignored when its turn comes. */
  ghost predicate Tame(m: Map, x: Smap)
    requires InBounds(m)
  {
    x.memory ==> x.base + x.length < WORD_SPAN || Ignored(m.s, m.n, x.base, x.length)
  }

  lemma FoldOne(s: seq<nat>, n: nat, before: seq<Smap>, x: Smap)
    requires Folded(s, n, before) && Tame(Map(s, n), x)
    ensures var a := AddSmap(s, n, x);
            if a.ok then Folded(a.s, a.n, before + [x])
            else
              && 2 * n + 2 == 2 * a.n == PHYS_AVAIL_ENTRIES && a.s == s
              && Accepted(before + [x]) == Accepted(before) + [Region(x.base, x.base + x.length)]
  {
    if !x.memory {
      AcceptedSnoc(before, x);
    } else {
      var a := AddEntry(s, n, x.base, x.length);
      EntryIsDone(s, n, x.base, x.length);
      if a.ok {
        FoldStep(s, n, before, x, a.s, a.n);
      } else {
        FoldRefused(s, n, before, x, a.s, a.n);
      }
    }
  }

  lemma FoldFollows(m: Map, before: seq<Smap>, x: Smap, m': Map)
    requires Folded(m.s, m.n, before) && Follows(m, x, m') && Tame(m, x)
    ensures Folded(m'.s, m'.n, before + [x])
  {
    FoldOne(m.s, m.n, before, x);
  }

  /** An entry is refused only if it would be accepted and needs a pair of its own
      when the last but one is taken; the array stays as it was. */
  lemma FoldStops(m: Map, before: seq<Smap>, x: Smap, m': Map)
    requires Folded(m.s, m.n, before) && Stops(m, x, m') && Tame(m, x)
    ensures m'.s == m.s && m.n == 62 && m'.n == 63
    ensures Accepted(before + [x]) == Accepted(before) + [Region(x.base, x.base + x.length)]
  {
    FoldOne(m.s, m.n, before, x);
  }

  /** From an empty map and through tame entries the map covers, at every
      moment, exactly the memory regions that, taken in order, overlapped
      nothing accepted before. */
  lemma {:induction false} TraceCovers(maps: seq<Map>, smaps: seq<Smap>, k: nat)
    requires Trace(maps, smaps) && MapOk(maps[0].s, 0) && maps[0].n == 0 && k < |maps|
    requires forall i | 0 <= i < |maps| - 1 :: Tame(maps[i], smaps[i])
    ensures Folded(maps[k].s, maps[k].n, smaps[..k])
  {
    if k == 0 {
      assert smaps[..0] == [];
    } else {
      var i := k - 1;
      TraceCovers(maps, smaps, i);
      assert Follows(maps[i], smaps[i], maps[i + 1]) && Tame(maps[i], smaps[i]);
      FoldFollows(maps[i], smaps[..i], smaps[i], maps[i + 1]);
      assert smaps[..i] + [smaps[i]] == smaps[..k];
    }
  }

  /** Folding a list whose memory entries all end below 2^64 into an empty map. */
  method FoldFirmware(smaps: seq<Smap>, physmap: array<nat>) returns (physmapIdx: nat, done: nat, ghost n: nat)
    requires MapOk(physmap[..], 0) && forall x | x in smaps && x.memory :: x.base + x.length < WORD_SPAN
    modifies physmap
    ensures physmapIdx == 2 * n && done <= |smaps| && (done == |smaps| ==> Folded(physmap[..], n, smaps))
  {
    ghost var maps;
    physmapIdx, done, n, maps := BiosAddSmapEntries(smaps, physmap, 0, 0);
    TraceCovers(maps, smaps, done);
    assert smaps[..|smaps|] == smaps;
  }
}
