/** The meaning of an extent tree: an abstract tree of any height, the sequence of leaf
    extents it denotes, and the facts that let a top-down search stand for a linear scan. */
module XTree {
  import opened Layout

  /** `es` are the entries of the page: file extents in a leaf, separators in a node. */
  datatype Tree =
    | Leaf(es: seq<Xad>)
    | Node(es: seq<Xad>, kids: seq<Tree>)

  ghost function Flatten(t: Tree): seq<Xad>
    decreases t, 1
  {
    match t
    case Leaf(es) => es
    case Node(_, kids) => FlattenAll(kids)
  }

  ghost function FlattenAll(ts: seq<Tree>): seq<Xad>
    decreases ts, 0
  {
    if ts == [] then [] else Flatten(ts[0]) + FlattenAll(ts[1..])
  }

  /** The reference definition of a lookup: the first extent, in order, that covers `key`. */
  function Scan(es: seq<Xad>, key: int): Option<Xad> {
    if es == [] then None
    else if es[0].Covers(key) then Some(es[0])
    else Scan(es[1..], key)
  }

  ghost predicate Sorted(es: seq<Xad>) {
    forall i, j :: 0 <= i < j < |es| ==> es[i].End() <= es[j].off
  }

  // Least key that is routed to child i of a page that itself receives keys from lo on.
  function ChildLo(es: seq<Xad>, lo: int, i: nat): int
    requires i < |es|
  {
    if i == 0 then lo else es[i].off
  }

  function ChildHi(es: seq<Xad>, hi: int, i: nat): int
    requires i < |es|
  {
    if i + 1 < |es| then es[i + 1].off else hi
  }

  /** Well-formedness of a tree that receives keys from `lo` on and whose extents end by
      `hi`. A leaf may be empty; an internal page may not, and its first separator is at
      most every key routed to it. */
  ghost predicate WellFormed(t: Tree, lo: int, hi: int)
    decreases t
  {
    && Sorted(t.es)
    && match t
       case Leaf(es) => forall i :: 0 <= i < |es| ==> lo <= es[i].off && es[i].End() <= hi
       case Node(es, kids) =>
         && |kids| == |es| > 0
         && es[0].off <= lo
         && (forall i :: 1 <= i < |es| ==> lo <= es[i].off <= hi)
         && (forall i :: 0 <= i < |kids| ==> WellFormed(kids[i], ChildLo(es, lo, i), ChildHi(es, hi, i)))
  }

  // No leaf below t is empty.
  ghost predicate NoEmptyLeaf(t: Tree)
    decreases t
  {
    match t
    case Leaf(es) => es != []
    case Node(_, kids) => forall i :: 0 <= i < |kids| ==> NoEmptyLeaf(kids[i])
  }

  /** The page `p` of the volume is the root of the on-disk form of `t`: exactly one of the
      two type bits is set, the entries fill slots 2 to nextindex, and every separator
      addresses the page of its child. */
  ghost predicate Stored(vol: Volume, p: XPage, t: Tree)
    decreases t
  {
    && p.nextindex == XTENTRYSTART + |t.es| <= |p.xad|
    && p.xad[XTENTRYSTART..p.nextindex] == t.es
    && match t
       case Leaf(_) => p.IsLeaf() && !p.IsInternal()
       case Node(es, kids) =>
         && !p.IsLeaf() && p.IsInternal()
         && |kids| == |es|
         && forall i :: 0 <= i < |kids| ==>
              vol.HasPage(es[i].addr) && Stored(vol, vol.XPageAt(es[i].addr), kids[i])
  }

  /** The number of entries that start at or before the key. A page routes the key to the
      child of the last of them. */
  ghost function Rank(es: seq<Xad>, key: int): (r: nat)
    ensures r <= |es|
  {
    if es == [] || key < es[0].off then 0 else 1 + Rank(es[1..], key)
  }

  lemma {:induction false} RankIs(es: seq<Xad>, key: int, r: nat)
    requires r <= |es|
    requires forall i :: 0 <= i < r ==> es[i].off <= key
    requires r < |es| ==> key < es[r].off
    ensures Rank(es, key) == r
  {
    if r > 0 {
      RankIs(es[1..], key, r - 1);
    }
  }

  lemma {:induction false} RankBounds(es: seq<Xad>, key: int)
    ensures Rank(es, key) > 0 ==> es[Rank(es, key) - 1].off <= key
    ensures Rank(es, key) < |es| ==> key < es[Rank(es, key)].off
  {
    if es != [] && es[0].off <= key {
      RankBounds(es[1..], key);
    }
  }

  /** A search whose path ends in an empty leaf that was entered by an exact hit on its
      separator (`hit`: the comparison left over from the parent page was equality). */
  ghost predicate StaleHit(t: Tree, key: int, hit: bool)
    decreases t
  {
    match t
    case Leaf(es) => hit && es == []
    case Node(es, kids) =>
      && 0 < Rank(es, key) <= |kids|
      && StaleHit(kids[Rank(es, key) - 1], key, es[Rank(es, key) - 1].Covers(key))
  }

  // ---------- scanning ----------

  lemma {:induction false} ScanNone(es: seq<Xad>, key: int)
    ensures Scan(es, key).None? <==> forall i :: 0 <= i < |es| ==> !es[i].Covers(key)
  {
    if es != [] {
      ScanNone(es[1..], key);
      if Scan(es[1..], key).Some? {
        var i :| 0 <= i < |es[1..]| && es[1..][i].Covers(key);
        assert es[i + 1].Covers(key);
      } else {
        forall i | 1 <= i < |es| ensures es[i].Covers(key) ==> es[0].Covers(key) {
          assert !es[1..][i - 1].Covers(key);
        }
      }
    }
  }

  lemma {:induction false} ScanAppend(a: seq<Xad>, b: seq<Xad>, key: int)
    ensures Scan(a + b, key) == if Scan(a, key).Some? then Scan(a, key) else Scan(b, key)
  {
    if a == [] {
      assert a + b == b;
    } else {
      assert (a + b)[1..] == a[1..] + b;
      ScanAppend(a[1..], b, key);
    }
  }

  lemma {:induction false} ScanHit(es: seq<Xad>, key: int, i: nat)
    requires Sorted(es) && i < |es| && es[i].Covers(key)
    ensures Scan(es, key) == Some(es[i])
  {
    if i > 0 {
      assert es[0].End() <= es[i].off;
      ScanHit(es[1..], key, i - 1);
    }
  }

  // Whatever a scan returns covers the key and is one of the extents scanned.
  lemma {:induction false} ScanSound(es: seq<Xad>, key: int)
    ensures Scan(es, key).Some? ==> Scan(es, key).value in es && Scan(es, key).value.Covers(key)
  {
    if es != [] && !es[0].Covers(key) {
      ScanSound(es[1..], key);
    }
  }

  lemma {:induction false} FlattenSplit(a: seq<Tree>, b: seq<Tree>)
    ensures FlattenAll(a + b) == FlattenAll(a) + FlattenAll(b)
  {
    if a == [] {
      assert a + b == b;
    } else {
      assert (a + b)[1..] == a[1..] + b;
      FlattenSplit(a[1..], b);
    }
  }

  // A key outside the range of every tree in the list is covered by none of their extents.
  lemma {:induction false} ScanOutside(ts: seq<Tree>, key: int, lo: seq<int>, hi: seq<int>)
    requires |ts| == |lo| == |hi|
    requires forall i :: 0 <= i < |ts| ==> WellFormed(ts[i], lo[i], hi[i]) && (key < lo[i] || hi[i] <= key)
    ensures Scan(FlattenAll(ts), key).None?
    decreases ts, 0
  {
    if ts != [] {
      ScanOutsideTree(ts[0], key, lo[0], hi[0]);
      ScanOutside(ts[1..], key, lo[1..], hi[1..]);
      ScanAppend(Flatten(ts[0]), FlattenAll(ts[1..]), key);
    }
  }

  lemma {:induction false} ScanOutsideTree(t: Tree, key: int, lo: int, hi: int)
    requires WellFormed(t, lo, hi) && (key < lo || hi <= key)
    ensures Scan(Flatten(t), key).None?
    decreases t, 1
  {
    match t
    case Leaf(es) => ScanNone(es, key);
    case Node(es, kids) =>
      var los := seq(|kids|, i requires 0 <= i < |kids| => ChildLo(es, lo, i));
      var his := seq(|kids|, i requires 0 <= i < |kids| => ChildHi(es, hi, i));
      ScanOutside(kids, key, los, his);
  }

  lemma ScanMiddle(ts: seq<Tree>, i: nat, key: int)
    requires i < |ts|
    requires Scan(FlattenAll(ts[..i]), key).None? && Scan(FlattenAll(ts[i + 1..]), key).None?
    ensures Scan(FlattenAll(ts), key) == Scan(Flatten(ts[i]), key)
  {
    hide Scan, Flatten;
    var rest := [ts[i]] + ts[i + 1..];
    assert ts == ts[..i] + rest;
    FlattenSplit(ts[..i], rest);
    ScanAppend(FlattenAll(ts[..i]), FlattenAll(rest), key);
    assert rest[1..] == ts[i + 1..];
    ScanAppend(Flatten(ts[i]), FlattenAll(ts[i + 1..]), key);
  }

  // The key lies outside the key range of every child but the one it is routed to.
  lemma RouteExcludes(es: seq<Xad>, key: int, lo: int, hi: int, i: nat, j: nat)
    requires Sorted(es) && lo <= key && i < |es| && j < |es| && i != j
    requires es[i].off <= key && (i + 1 < |es| ==> key < es[i + 1].off)
    ensures key < ChildLo(es, lo, j) || ChildHi(es, hi, j) <= key
  {
    if j < i {
      assert j + 1 < i ==> es[j + 1].End() <= es[i].off;
    } else {
      assert i + 1 < j ==> es[i + 1].End() <= es[j].off;
    }
  }

  /** Only the child a key is routed to can hold an extent that covers it, so scanning that
      child's leaves is the same as scanning all leaves of the page. */
  lemma {:induction false} ScanRoute(t: Tree, key: int, lo: int, hi: int, i: int)
    requires t.Node? && WellFormed(t, lo, hi) && lo <= key && i == Rank(t.es, key) - 1
    ensures 0 <= i < |t.kids|
    ensures Scan(Flatten(t), key) == Scan(Flatten(t.kids[i]), key)
    ensures ChildLo(t.es, lo, i) <= key
    ensures WellFormed(t.kids[i], ChildLo(t.es, lo, i), ChildHi(t.es, hi, i))
  {
    var es, kids := t.es, t.kids;
    RankBounds(es, key);
    var los := seq(|kids|, j requires 0 <= j < |kids| => ChildLo(es, lo, j));
    var his := seq(|kids|, j requires 0 <= j < |kids| => ChildHi(es, hi, j));
    forall j | 0 <= j < |kids| && j != i ensures key < los[j] || his[j] <= key {
      RouteExcludes(es, key, lo, hi, i, j);
    }
    assert Scan(FlattenAll(kids[..i]), key).None? by {
      ScanOutside(kids[..i], key, los[..i], his[..i]);
    }
    assert Scan(FlattenAll(kids[i + 1..]), key).None? by {
      ScanOutside(kids[i + 1..], key, los[i + 1..], his[i + 1..]);
    }
    ScanMiddle(kids, i, key);
  }

  /** On a stale hit no extent covers the key, so a lookup that trusts the leftover
      comparison is wrong exactly there. */
  lemma {:induction false} StaleHitIsMiss(t: Tree, key: int, lo: int, hi: int, hit: bool)
    requires WellFormed(t, lo, hi) && lo <= key && StaleHit(t, key, hit)
    ensures Scan(Flatten(t), key).None?
    decreases t
  {
    if t.Node? {
      var i := Rank(t.es, key) - 1;
      ScanRoute(t, key, lo, hi, i);
      StaleHitIsMiss(t.kids[i], key, ChildLo(t.es, lo, i), ChildHi(t.es, hi, i), t.es[i].Covers(key));
    }
  }

  lemma {:induction false} NoEmptyLeafNoStaleHit(t: Tree, key: int, hit: bool)
    requires NoEmptyLeaf(t)
    ensures !StaleHit(t, key, hit)
    decreases t
  {
    if t.Node? && 0 < Rank(t.es, key) <= |t.kids| {
      var i := Rank(t.es, key) - 1;
      NoEmptyLeafNoStaleHit(t.kids[i], key, t.es[i].Covers(key));
    }
  }

  // ---------- the leaf extents as a whole ----------

  ghost predicate Within(es: seq<Xad>, lo: int, hi: int) {
    forall i :: 0 <= i < |es| ==> lo <= es[i].off && es[i].End() <= hi
  }

  // The key ranges of neighbouring subtrees: each ends before the later ones begin.
  ghost predicate Ranges(lo: seq<int>, hi: seq<int>) {
    && |lo| == |hi|
    && forall i, j :: 0 <= i < j < |lo| ==> lo[i] <= lo[j] && hi[i] <= lo[j] && hi[i] <= hi[j]
  }

  lemma {:induction false} SortedList(ts: seq<Tree>, lo: seq<int>, hi: seq<int>)
    requires |ts| == |lo| > 0 && Ranges(lo, hi)
    requires forall i :: 0 <= i < |ts| ==> WellFormed(ts[i], lo[i], hi[i])
    ensures Sorted(FlattenAll(ts)) && Within(FlattenAll(ts), lo[0], hi[|hi| - 1])
    decreases ts, 0
  {
    LeavesSorted(ts[0], lo[0], hi[0]);
    if |ts| == 1 {
      assert FlattenAll(ts) == Flatten(ts[0]);
    } else {
      SortedList(ts[1..], lo[1..], hi[1..]);
      assert lo[0] <= lo[1] && hi[0] <= lo[1] && hi[0] <= hi[|hi| - 1];
    }
  }

  /** The leaf extents of a well-formed tree are in order and disjoint, so at most one of them
      covers a block. */
  lemma {:induction false} LeavesSorted(t: Tree, lo: int, hi: int)
    requires WellFormed(t, lo, hi)
    ensures Sorted(Flatten(t)) && Within(Flatten(t), lo, hi)
    decreases t, 1
  {
    if t.Node? {
      var es, n := t.es, |t.kids|;
      var los := seq(n, i requires 0 <= i < n => ChildLo(es, lo, i));
      var his := seq(n, i requires 0 <= i < n => ChildHi(es, hi, i));
      forall i, j | 0 <= i < j < n ensures los[i] <= los[j] && his[i] <= los[j] && his[i] <= his[j] {
        assert es[i].End() <= es[j].off;
        assert i + 1 < j ==> es[i + 1].End() <= es[j].off;
        assert j + 1 < n ==> es[i + 1].End() <= es[j + 1].off;
      }
      SortedList(t.kids, los, his);
    }
  }

  lemma OnlyOneCovers(t: Tree, lo: int, hi: int, key: int, i: nat, j: nat)
    requires WellFormed(t, lo, hi) && i < |Flatten(t)| && j < |Flatten(t)|
    requires Flatten(t)[i].Covers(key) && Flatten(t)[j].Covers(key)
    ensures i == j && Scan(Flatten(t), key) == Some(Flatten(t)[i])
  {
    LeavesSorted(t, lo, hi);
    ScanHit(Flatten(t), key, i);
  }
}
