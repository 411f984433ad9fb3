/** Directories: trees of pages whose leaves are also chained from left to right. Listing and
    lookup both go down to the leftmost leaf and follow the chain. */
module DirTree {
  import opened Layout
  import opened AlignedRead
  import opened InodeMap
  import opened DirNames

  /** A page of a directory tree. `stbl` lists the slots of its entries in order. */
  datatype DPage = DPage(flag: byte, nextindex: byte, next: int, slots: seq<Slot>, stbl: seq<byte>) {
    predicate IsLeaf() {
      flag / 2 % 2 == 1  // BT_LEAF
    }
  }

  // The root, inside the inode: dtroot_t.
  function DecodeDRoot(b: seq<byte>): DPage
    requires |b| == 288
  {
    DPage(b[16], b[17], 0, Slots(b), b[24..32])
  }

  // Any other page: dtpage_t.
  function DecodeDPage(b: seq<byte>): DPage
    requires |b| == PSIZE
  {
    var stbl := SLOT_SIZE * b[21] as int;
    DPage(b[16], b[17], S64(b, 0), Slots(b), if stbl <= |b| then b[stbl..] else [])
  }

  function DPageAt(vol: Volume, block: int): DPage
    requires vol.HasPage(block)
  {
    DecodeDPage(vol.Bytes(vol.ByteAddress(block), PSIZE))
  }

  // The block of the child page of an entry of an internal page (idtentry_t).
  function ChildBlock(s: Slot): int {
    DecodePxd(s, 0).addr
  }

  // ---------- the meaning of a directory ----------

  datatype Tree =
    | Leaf(block: int, es: seq<Entry>)
    | Node(kids: seq<Tree>)

  // The leaves below a tree, from left to right.
  ghost function Leaves(t: Tree): seq<Tree>
    decreases t, 1
  {
    match t
    case Leaf(_, _) => [t]
    case Node(kids) => LeavesOf(kids)
  }

  ghost function LeavesOf(ts: seq<Tree>): seq<Tree>
    decreases ts, 0
  {
    if ts == [] then [] else Leaves(ts[0]) + LeavesOf(ts[1..])
  }

  ghost function EntriesOf(leaves: seq<Tree>): seq<Entry> {
    if leaves == [] then []
    else (if leaves[0].Leaf? then leaves[0].es else []) + EntriesOf(leaves[1..])
  }

  /** The entries of a directory, in order. */
  ghost function Contents(t: Tree): seq<Entry> {
    EntriesOf(Leaves(t))
  }

  ghost predicate StoredLeaf(p: DPage, es: seq<Entry>) {
    && p.IsLeaf() && p.nextindex == |es| <= |p.stbl|
    && forall i :: 0 <= i < |es| ==> StoresEntry(p.slots, p.stbl[i], es[i])
  }

  /** The page `p` is the root of the on-disk form of `t`. Internal pages are not empty. */
  ghost predicate Stored(vol: Volume, p: DPage, t: Tree)
    decreases t, 0
  {
    match t
    case Leaf(_, es) => StoredLeaf(p, es)
    case Node(kids) =>
      && !p.IsLeaf() && 0 < |kids| == p.nextindex as int <= |p.stbl|
      && forall i :: 0 <= i < |kids| ==> StoredKid(vol, p, kids, i)
  }

  ghost predicate StoredKid(vol: Volume, p: DPage, kids: seq<Tree>, i: nat)
    requires i < |kids| <= |p.stbl|
    decreases kids[i], 1
  {
    && p.stbl[i] as int < |p.slots|
    && var block := ChildBlock(p.slots[p.stbl[i]]);
       && vol.HasPage(block) && (kids[i].Leaf? ==> kids[i].block == block)
       && Stored(vol, DPageAt(vol, block), kids[i])
  }

  // The leaf is stored at its block.
  ghost predicate InPlace(vol: Volume, leaf: Tree) {
    leaf.Leaf? && vol.HasPage(leaf.block) && StoredLeaf(DPageAt(vol, leaf.block), leaf.es)
  }

  ghost function BlockAt(leaves: seq<Tree>, i: nat): int {
    if i < |leaves| && leaves[i].Leaf? then leaves[i].block else 0
  }

  /** The `next` link of each leaf is the block of the one to its right; the last one's is 0,
      which is no leaf's block. */
  ghost predicate Chained(vol: Volume, leaves: seq<Tree>) {
    forall i :: 0 <= i < |leaves| ==>
      && InPlace(vol, leaves[i]) && leaves[i].block != 0
      && DPageAt(vol, leaves[i].block).next == BlockAt(leaves, i + 1)
  }

  /** A directory whose root page is `root`. */
  ghost predicate IsDirectory(vol: Volume, root: DPage, t: Tree) {
    && vol.Valid() && WholeBlocks(vol)
    && Stored(vol, root, t)
    && (t.Node? ==> Chained(vol, Leaves(t)))
  }

  // The first leaf of a tree is the first leaf of its first subtree.
  lemma {:induction false} LeavesFirst(t: Tree)
    requires t.Node? && t.kids != [] && Leaves(t.kids[0]) != []
    ensures Leaves(t) != [] && Leaves(t)[0] == Leaves(t.kids[0])[0]
  {
  }

  lemma {:induction false} LeavesNonempty(vol: Volume, p: DPage, t: Tree)
    requires Stored(vol, p, t)
    ensures Leaves(t) != []
    decreases t
  {
    if t.Node? {
      assert StoredKid(vol, p, t.kids, 0);
      LeavesNonempty(vol, DPageAt(vol, ChildBlock(p.slots[p.stbl[0]])), t.kids[0]);
      LeavesFirst(t);
    }
  }

  // ---------- reading pages ----------

  method ReadDPage(vol: Volume, block: int) returns (page: DPage)
    requires vol.Valid() && WholeBlocks(vol) && vol.HasPage(block)
    ensures page == DPageAt(vol, block)
  {
    ShortRead(vol, vol.ByteAddress(block), PSIZE);
    var buffer := XRead(vol, vol.ByteAddress(block), PSIZE);
    page := DecodeDPage(buffer);
  }

  /** Go down from an internal root to the leftmost leaf, at any height. */
  method LeftmostLeaf(vol: Volume, root: DPage, ghost t: Tree) returns (page: DPage)
    requires vol.Valid() && WholeBlocks(vol) && Stored(vol, root, t) && t.Node?
    ensures Leaves(t) != [] && Leaves(t)[0].Leaf?
    ensures vol.HasPage(Leaves(t)[0].block) && page == DPageAt(vol, Leaves(t)[0].block)
  {
    page := root;
    ghost var cur := t;
    LeavesNonempty(vol, root, t);
    while !page.IsLeaf()
      invariant Stored(vol, page, cur) && Leaves(cur) != [] && Leaves(cur)[0] == Leaves(t)[0]
      invariant cur.Leaf? ==> vol.HasPage(cur.block) && page == DPageAt(vol, cur.block)
      decreases cur
    {
      assert StoredKid(vol, page, cur.kids, 0);
      var entry := page.slots[page.stbl[0]];
      page := ReadDPage(vol, ChildBlock(entry));
      LeavesNonempty(vol, page, cur.kids[0]);
      LeavesFirst(cur);
      cur := cur.kids[0];
    }
  }

  // ---------- the walk along the leaves ----------

  /** A walk stands at leaf i, whose page is `page`; the entries of the leaves before it are
      `seen`. */
  ghost predicate AtLeaf(vol: Volume, leaves: seq<Tree>, i: nat, page: DPage, seen: seq<Entry>) {
    && Chained(vol, leaves) && i < |leaves|
    && leaves[i].Leaf? && vol.HasPage(leaves[i].block) && page == DPageAt(vol, leaves[i].block)
    && EntriesOf(leaves) == seen + EntriesOf(leaves[i..])
  }

  // What the walk sees at a leaf and where it goes from there.
  lemma NextLeaf(vol: Volume, leaves: seq<Tree>, i: nat, page: DPage, seen: seq<Entry>)
    requires AtLeaf(vol, leaves, i, page, seen)
    ensures i < |leaves| && leaves[i].Leaf? && StoredLeaf(page, leaves[i].es)
    ensures page.next == 0 ==> i + 1 == |leaves| && EntriesOf(leaves) == seen + leaves[i].es
    ensures page.next != 0 ==>
      && i + 1 < |leaves| && vol.HasPage(page.next)
      && AtLeaf(vol, leaves, i + 1, DPageAt(vol, page.next), seen + leaves[i].es)
    ensures EntriesOf(leaves) == seen + leaves[i].es + EntriesOf(leaves[i + 1..])
  {
    hide DPageAt, StoredLeaf;
    assert InPlace(vol, leaves[i]);
    EntriesFrom(leaves, i, seen);
    if i + 1 < |leaves| {
      assert InPlace(vol, leaves[i + 1]);
    } else {
      assert EntriesOf(leaves[i + 1..]) == [];
    }
  }

  lemma EntriesFrom(leaves: seq<Tree>, i: nat, seen: seq<Entry>)
    requires i < |leaves| && leaves[i].Leaf?
    ensures seen + EntriesOf(leaves[i..]) == seen + leaves[i].es + EntriesOf(leaves[i + 1..])
  {
    assert leaves[i..][1..] == leaves[i + 1..];
  }

  lemma ContentsOfLeaf(t: Tree)
    requires t.Leaf?
    ensures Contents(t) == t.es
  {
    assert EntriesOf([t]) == t.es + EntriesOf([]);
  }

  lemma FirstLeaf(vol: Volume, leaves: seq<Tree>, page: DPage)
    requires Chained(vol, leaves) && leaves != [] && InPlace(vol, leaves[0])
    requires page == DPageAt(vol, leaves[0].block)
    ensures AtLeaf(vol, leaves, 0, page, [])
  {
    assert [] + EntriesOf(leaves[0..]) == EntriesOf(leaves);
  }

  /** The buffer holds the name of the entry as a C string. */
  ghost predicate HoldsName(name: array<byte>, e: Entry)
    reads name
  {
    && |e.name| < name.Length && name[|e.name|] == 0
    && forall k :: 0 <= k < |e.name| ==> name[k] == CName(e.name)[k]
  }

  ghost predicate FitsNames(es: seq<Entry>, length: nat) {
    forall i :: 0 <= i < |es| ==> |es[i].name| < length
  }

  /** Count through the entries of a leaf; at position `pos` stop and give the entry. */
  method LeafEntry(page: DPage, pos: int, cpos0: nat, name: array<byte>, utf8: array<byte>, ghost es: seq<Entry>)
      returns (found: bool, rino: int, cpos: nat)
    requires StoredLeaf(page, es) && FitsNames(es, name.Length)
    requires utf8.Length == UTF8_BUFFER && name != utf8
    modifies name, utf8
    ensures found <==> cpos0 <= pos < cpos0 + |es|
    ensures found ==> HoldsName(name, es[pos - cpos0]) && rino == es[pos - cpos0].inumber
    ensures !found ==> cpos == cpos0 + |es| && forall k :: 0 <= k < name.Length ==> name[k] == old(name[k])
  {
    cpos, rino := cpos0, 0;
    for i := 0 to page.nextindex
      invariant cpos == cpos0 + i && !(cpos0 <= pos < cpos)
      invariant forall k :: 0 <= k < name.Length ==> name[k] == old(name[k])
    {
      if cpos == pos {
        assert StoresEntry(page.slots, page.stbl[i], es[i]);
        rino := NameInum(page.slots, page.stbl[i], name, utf8, es[i]);
        return true, rino, cpos;
      }
      cpos := cpos + 1;
    }
    found := false;
  }

  // The part of a list of entries that a leaf holds.
  lemma Slice(all: seq<Entry>, seen: seq<Entry>, es: seq<Entry>, rest: seq<Entry>, length: nat)
    requires all == seen + es + rest && FitsNames(all, length)
    ensures FitsNames(es, length) && |seen| + |es| <= |all|
    ensures forall k :: 0 <= k < |es| ==> all[|seen| + k] == es[k]
  {
    forall k | 0 <= k < |es| ensures all[|seen| + k] == es[k] {
    }
  }

  /** Follow the chain of leaves to position `pos` of the entries `all`. */
  method WalkTo(vol: Volume, first: DPage, pos: int, name: array<byte>, utf8: array<byte>,
                ghost leaves: seq<Tree>, ghost all: seq<Entry>)
      returns (found: bool, rino: int)
    requires vol.Valid() && WholeBlocks(vol)
    requires AtLeaf(vol, leaves, 0, first, []) && all == EntriesOf(leaves) && FitsNames(all, name.Length)
    requires utf8.Length == UTF8_BUFFER && name != utf8
    modifies name, utf8
    ensures found <==> 0 <= pos < |all|
    ensures found ==> HoldsName(name, all[pos]) && rino == all[pos].inumber
  {
    hide HoldsName, StoredLeaf, DPageAt, AtLeaf, EntriesOf, FitsNames;
    var page, cpos := first, 0;
    ghost var i, seen := 0, [];
    while true
      invariant AtLeaf(vol, leaves, i, page, seen) && cpos == |seen| && !(0 <= pos < cpos)
      decreases |leaves| - i
    {
      NextLeaf(vol, leaves, i, page, seen);
      Slice(all, seen, leaves[i].es, EntriesOf(leaves[i + 1..]), name.Length);
      found, rino, cpos := LeafEntry(page, pos, cpos, name, utf8, leaves[i].es);
      if found || page.next == 0 {
        return;
      }
      seen := seen + leaves[i].es;
      page := ReadDPage(vol, page.next);
      i := i + 1;
    }
  }

  /** The entry at position `pos` of a directory whose root page is `root`. */
  method EntryAt(vol: Volume, root: DPage, pos: int, name: array<byte>, utf8: array<byte>, ghost t: Tree)
      returns (rc: int, rino: int)
    requires IsDirectory(vol, root, t) && FitsNames(Contents(t), name.Length)
    requires utf8.Length == UTF8_BUFFER && name != utf8
    modifies name, utf8
    ensures rc == if 0 <= pos < |Contents(t)| then 0 else 1
    ensures rc == 0 ==> HoldsName(name, Contents(t)[pos]) && rino == Contents(t)[pos].inumber
  {
    var found, cpos := false, 0;
    if root.IsLeaf() {
      ContentsOfLeaf(t);
      if root.nextindex == 0 {
        return 1, 0;
      }
      found, rino, cpos := LeafEntry(root, pos, 0, name, utf8, t.es);
    } else {
      var page := LeftmostLeaf(vol, root, t);
      FirstLeaf(vol, Leaves(t), page);
      found, rino := WalkTo(vol, page, pos, name, utf8, Leaves(t), Contents(t));
    }
    rc := if found then 0 else 1;
  }
}
