/** The halving search for a key among the sorted entries of one xtree page, and what it
    costs. Both tree searches use it. */
module PageSearch {
  import opened Layout
  import opened XTree

  // XT_CMP and XT_CMP_4: 1 if the key is past the extent, -1 if it is before, 0 on a hit.
  function XtCmp(key: int, x: Xad): int {
    if key >= x.End() then 1 else if key < x.off then -1 else 0
  }

  /** The most comparisons a page of n entries can cost. */
  function Cost(n: nat): nat {
    if n == 0 then 0 else 1 + Cost(n / 2)
  }

  /** Cost is floor(log2 n) + 1. */
  lemma {:induction false} CostIsLog(n: nat)
    requires n > 0
    ensures Cost(n) > 0 && Shl(1, Cost(n) - 1) <= n < Shl(1, Cost(n))
  {
    if n > 1 {
      CostIsLog(n / 2);
    }
  }

  lemma {:induction false} CostMonotone(m: nat, n: nat)
    requires m <= n
    ensures Cost(m) <= Cost(n)
  {
    if m > 0 {
      CostMonotone(m / 2, n / 2);
    }
  }

  // The entries of the page, in slots 2 to nextindex, are sorted and disjoint.
  ghost predicate SortedPage(p: XPage) {
    && XTENTRYSTART <= p.nextindex <= |p.xad|
    && forall i, j :: XTENTRYSTART <= i < j < p.nextindex ==> p.xad[i].End() <= p.xad[j].off
  }

  lemma SortedEntries(p: XPage, es: seq<Xad>)
    requires XTENTRYSTART <= p.nextindex <= |p.xad| && es == p.xad[XTENTRYSTART..p.nextindex] && Sorted(es)
    ensures SortedPage(p)
  {
    forall i, j | XTENTRYSTART <= i < j < p.nextindex ensures p.xad[i].End() <= p.xad[j].off {
      assert es[i - XTENTRYSTART].End() <= es[j - XTENTRYSTART].off;
    }
  }

  /** Halve the range of slots until it is empty or a slot covers the key. `cmp0` is the
      comparison left over from the parent page; a page without entries returns it unchanged.
      On a miss `base` is the first entry beyond the key. */
  method Halve(p: XPage, key: int, cmp0: int)
      returns (hit: bool, index: int, base: int, cmp: int, ghost steps: nat)
    requires SortedPage(p)
    ensures hit ==> XTENTRYSTART <= index < p.nextindex && p.xad[index].Covers(key) && cmp == 0
    ensures !hit ==> XTENTRYSTART <= base <= p.nextindex
    ensures !hit ==> forall i :: XTENTRYSTART <= i < base ==> p.xad[i].End() <= key
    ensures !hit ==> forall i :: base <= i < p.nextindex ==> key < p.xad[i].off
    ensures !hit ==> if p.nextindex == XTENTRYSTART then cmp == cmp0 else cmp == 1 || cmp == -1
    ensures steps <= Cost(p.nextindex - XTENTRYSTART)
  {
    hit, index, cmp, steps := false, 0, cmp0, 0;
    base := XTENTRYSTART;
    var lim := p.nextindex - XTENTRYSTART;
    while lim != 0
      invariant 0 <= lim && XTENTRYSTART <= base && base + lim <= p.nextindex
      invariant forall i :: XTENTRYSTART <= i < base ==> p.xad[i].End() <= key
      invariant forall i :: base + lim <= i < p.nextindex ==> key < p.xad[i].off
      invariant if steps == 0 then cmp == cmp0 && lim == p.nextindex - XTENTRYSTART else cmp == 1 || cmp == -1
      invariant steps + Cost(lim) <= Cost(p.nextindex - XTENTRYSTART)
      decreases lim
    {
      index := base + lim / 2;
      cmp := XtCmp(key, p.xad[index]);
      CostMonotone((lim - 1) / 2, lim / 2);
      steps := steps + 1;
      if cmp == 0 {
        hit := true;
        return;
      }
      if cmp > 0 {
        base := index + 1;
        lim := lim - 1;
      }
      lim := lim / 2;
    }
  }

  /** The search of a page whose entries are `es`, against a scan of them: a hit is the
      extent the scan finds, and on a hit as on a miss the entry to descend through (`index`,
      or the one before `base`) is the last entry that starts at or before the key. */
  method SearchPage(p: XPage, key: int, cmp0: int, ghost es: seq<Xad>)
      returns (hit: bool, index: int, base: int, cmp: int, ghost steps: nat)
    requires XTENTRYSTART <= p.nextindex <= |p.xad| && es == p.xad[XTENTRYSTART..p.nextindex] && Sorted(es)
    ensures hit ==> XTENTRYSTART <= index < p.nextindex && cmp == 0
    ensures hit ==> Scan(es, key) == Some(p.xad[index]) && Rank(es, key) == index - XTENTRYSTART + 1
    ensures !hit ==> Scan(es, key).None? && base == XTENTRYSTART + Rank(es, key)
    ensures hit <==> Rank(es, key) > 0 && es[Rank(es, key) - 1].Covers(key)
    ensures !hit ==> if es == [] then cmp == cmp0 else cmp == 1 || cmp == -1
    ensures steps <= Cost(|es|)
  {
    SortedEntries(p, es);
    hit, index, base, cmp, steps := Halve(p, key, cmp0);
    if hit {
      var i := index - XTENTRYSTART;
      assert p.xad[index] == es[i];
      ScanHit(es, key, i);
      RankIs(es, key, i + 1);
    } else {
      forall i | 0 <= i < |es| ensures !es[i].Covers(key) && (i < base - XTENTRYSTART ==> es[i].off <= key) {
        assert es[i] == p.xad[i + XTENTRYSTART];
      }
      ScanNone(es, key);
      RankIs(es, key, base - XTENTRYSTART);
    }
  }
}
