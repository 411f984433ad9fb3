/** The cache of in-core nodes: a hash table whose chains run through the nodes themselves.
    Each node also points back at the very cell that points at it, so that it can be unlinked
    in constant time without knowing its bucket. */
module NodeHash {
  const INOHSZ := 512

  // INOHASH: ino & (INOHSZ - 1)
  function InoHash(ino: nat): nat {
    ino % INOHSZ
  }

  /** A cell that can hold a pointer to a node: a bucket of the table, or the link of a node. */
  datatype Cell = Bucket(index: nat) | HNext(node: Node)

  class Node {
    const cacheId: nat
    var references: int
    var fileinfo: bool  // a pager record is attached
    var hnext: Node?
    var hprevp: Cell

    constructor (cacheId: nat, references: int)
      ensures this.cacheId == cacheId && this.references == references && !fileinfo
    {
      this.cacheId, this.references, fileinfo, hnext, hprevp := cacheId, references, false, null, Bucket(0);
    }
  }

  /** `c` is the chain of bucket `b`, whose cell holds `head`. */
  ghost predicate Chain(head: Node?, b: nat, c: seq<Node>)
    reads c`hnext, c`hprevp
  {
    && (c == [] ==> head == null)
    && (c != [] ==> head == c[0] && c[0].hprevp == Bucket(b) && c[|c| - 1].hnext == null)
    && (forall i, j :: 0 <= i < j < |c| && j == i + 1 ==> c[i].hnext == c[j] && c[j].hprevp == HNext(c[i]))
    && (forall i, j :: 0 <= i < j < |c| ==> c[i].cacheId != c[j].cacheId)
  }

  // All nodes of the chain are in the table's set of nodes and hash to its bucket.
  ghost predicate Home(c: seq<Node>, b: nat, nodes: set<Node>) {
    forall i :: 0 <= i < |c| ==> c[i] in nodes && InoHash(c[i].cacheId) == b
  }

  // A chain without its k-th node.
  ghost function Without(c: seq<Node>, k: nat): (d: seq<Node>)
    requires k < |c|
    ensures |d| == |c| - 1
    ensures forall i :: 0 <= i < |d| ==> d[i] == if i < k then c[i] else c[i + 1]
  {
    c[..k] + c[k + 1..]
  }

  lemma HomeWithout(head: Node?, b: nat, c: seq<Node>, k: nat, nodes: set<Node>)
    requires Chain(head, b, c) && k < |c| && Home(c, b, nodes)
    ensures Home(Without(c, k), b, nodes - {c[k]})
  {
  }

  class Table {
    const nodehash: array<Node?>
    ghost var table: map<nat, Node>   // the abstract value: inode number to node
    ghost var chains: seq<seq<Node>>  // the nodes of each bucket, in order
    ghost var nodes: set<Node>        // all of them

    // Every bucket heads its chain.
    ghost predicate Linked()
      reads this`chains, this`nodes, nodehash, nodes`hnext, nodes`hprevp
    {
      && nodehash.Length == INOHSZ == |chains|
      && (forall b :: 0 <= b < INOHSZ ==> Home(chains[b], b, nodes))
      && (forall b :: 0 <= b < INOHSZ ==> Chain(nodehash[b], b, chains[b]))
    }

    /** The chains hold exactly the nodes of the abstract table, each under its own number. */
    ghost predicate Valid()
      reads this, nodehash, nodes`hnext, nodes`hprevp
    {
      && Linked()
      && (forall n :: n in table ==> table[n].cacheId == n && table[n] in chains[InoHash(n)])
      && (forall x :: x in nodes ==> x.cacheId in table && table[x.cacheId] == x)
    }

    constructor ()
      ensures Valid() && table == map[] && fresh(nodehash)
    {
      nodehash := new Node?[INOHSZ](_ => null);
      table := map[];
      chains := seq(INOHSZ, _ => []);
      nodes := {};
    }

    /** Walk the chain of the number's bucket. */
    method Find(inum: nat) returns (np: Node?)
      requires Valid()
      ensures np == if inum in table then table[inum] else null
    {
      ghost var c, i := chains[InoHash(inum)], 0;
      np := nodehash[InoHash(inum)];
      while np != null
        invariant 0 <= i <= |c| && np == if i < |c| then c[i] else null
        invariant forall k :: 0 <= k < i ==> c[k].cacheId != inum
        decreases |c| - i
      {
        if np.cacheId == inum {
          return;
        }
        assert i + 1 < |c| ==> c[i].hnext == c[i + 1];
        np := np.hnext;
        i := i + 1;
      }
    }

    // Chains of different buckets share no node.
    lemma Apart(h: nat)
      requires Linked() && h < INOHSZ
      ensures forall b, i, j :: 0 <= b < INOHSZ && b != h && 0 <= i < |chains[b]| && 0 <= j < |chains[h]| ==>
        chains[b][i] != chains[h][j]
    {
    }

    // Put a node in front of the chain c of bucket h.
    method Prepend(np: Node, h: nat, ghost c: seq<Node>)
      requires nodehash.Length == INOHSZ && h < INOHSZ && Chain(nodehash[h], h, c)
      requires np !in c && forall x :: x in c ==> x.cacheId != np.cacheId
      modifies nodehash, c`hprevp, np`hnext, np`hprevp
      ensures Chain(nodehash[h], h, [np] + c)
      ensures forall b :: 0 <= b < INOHSZ && b != h ==> nodehash[b] == old(nodehash[b])
    {
      np.hnext := nodehash[h];
      if np.hnext != null {
        np.hnext.hprevp := HNext(np);
      }
      np.hprevp := Bucket(h);
      nodehash[h] := np;
      ghost var d := [np] + c;
      assert forall i :: 0 < i < |d| ==> d[i] == c[i - 1];
    }

    // Take the k-th node out of the chain c of bucket h, knowing only the node.
    method TakeOut(np: Node, ghost h: nat, ghost c: seq<Node>, ghost k: nat)
      requires nodehash.Length == INOHSZ && h < INOHSZ && Chain(nodehash[h], h, c)
      requires k < |c| && c[k] == np
      modifies nodehash, c`hnext, c`hprevp
      ensures Chain(nodehash[h], h, Without(c, k))
      ensures forall b :: 0 <= b < INOHSZ && b != h ==> nodehash[b] == old(nodehash[b])
    {
      assert k > 0 ==> c[k - 1].hnext == c[k];
      assert k + 1 < |c| ==> c[k].hnext == c[k + 1];
      match np.hprevp {
        case Bucket(b) => nodehash[b] := np.hnext;
        case HNext(m) => m.hnext := np.hnext;
      }
      if np.hnext != null {
        np.hnext.hprevp := np.hprevp;
      }
    }

    /** Put a new node at the head of its chain. */
    method Link(np: Node)
      requires Linked() && np !in nodes
      requires forall x :: x in nodes ==> x.cacheId != np.cacheId
      modifies this`chains, this`nodes, nodehash, nodes`hprevp, np`hnext, np`hprevp
      ensures Linked() && nodes == old(nodes) + {np}
      ensures var h := InoHash(np.cacheId); chains == old(chains)[h := [np] + old(chains)[h]]
    {
      var h := InoHash(np.cacheId);
      ghost var c := chains[h];
      Apart(h);
      Prepend(np, h, c);
      chains, nodes := chains[h := [np] + c], nodes + {np};
    }

    /** Unlink a node. `k` is its place in its chain; the other nodes keep their order. */
    method Unlink(np: Node) returns (ghost k: nat)
      requires Linked() && np in chains[InoHash(np.cacheId)]
      modifies this`chains, this`nodes, nodehash, nodes`hnext, nodes`hprevp
      ensures Linked() && nodes == old(nodes) - {np}
      ensures var h := InoHash(np.cacheId);
        var c := old(chains)[h];
        k < |c| && c[k] == np && chains == old(chains)[h := Without(c, k)]
    {
      ghost var h := InoHash(np.cacheId);
      ghost var c := chains[h];
      k :| 0 <= k < |c| && c[k] == np;
      HomeWithout(nodehash[h], h, c, k, nodes);
      Apart(h);
      TakeOut(np, h, c, k);
      chains, nodes := chains[h := Without(c, k)], nodes - {np};
    }

    /** The node of an inode number: the cached one, or a new one that `refs0` references and
        whose inode is read with the result `readErr`. */
    method CachedLookup(inum: nat, refs0: int, readErr: int) returns (err: int, np: Node)
      requires Valid()
      modifies this, nodehash, nodes
      ensures Valid()
      ensures inum in old(table) ==>
        err == 0 && np == old(table)[inum] && table == old(table) && chains == old(chains)
        && np.references == old(np.references) + 1
      ensures inum !in old(table) ==>
        err == readErr && fresh(np) && np.cacheId == inum && table == old(table)[inum := np]
        && np.references == refs0 + 1 && !np.fileinfo
        && chains == old(chains)[InoHash(inum) := [np] + old(chains)[InoHash(inum)]]
      ensures forall x :: x in old(nodes) && x != np ==> x.references == old(x.references)
      ensures forall x :: x in old(nodes) ==> x.fileinfo == old(x.fileinfo)
    {
      hide Chain;
      var hit := Find(inum);
      if hit != null {
        np, err := hit, 0;
        np.references := np.references + 1;
        return;
      }
      np := new Node(inum, refs0);
      Link(np);
      table := table[inum := np];
      err := readErr;
      np.references := np.references + 1;
    }

    /** A node that nothing references any more, and no pager record, leaves the table. */
    method NodeNorefs(np: Node) returns (ghost k: nat)
      requires Valid() && np in nodes && !np.fileinfo
      modifies this, nodehash, nodes
      ensures Valid() && table == old(table) - {np.cacheId} && np !in nodes
      ensures var h := InoHash(np.cacheId);
        var c := old(chains)[h];
        k < |c| && c[k] == np && chains == old(chains)[h := Without(c, k)]
      ensures forall x :: x in nodes ==> x.references == old(x.references) && x.fileinfo == old(x.fileinfo)
    {
      hide Chain;
      k := Unlink(np);
      assert !np.fileinfo;
      table := table - {np.cacheId};
    }
  }
}
