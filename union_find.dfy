/**
 * Node.java: the disjoint-set forest. Every node has a fixed row text and
 * number, a mutable parent link (null for a root) and a size that is
 * meaningful on roots. The nodes live in an arena: node `i` is slot `i` of the
 * arrays, and a parent link is the slot of the parent, or -1 for null.
 */
module UnionFind {
  import opened Partition

  /** Node.NodeElement: a field value together with the node of the row it was read from. */
  datatype Element = Element(data: string, owner: nat)

  /** Node.parent's null. */
  const Null: int := -1

  class Forest {
    /** Node.row of every node. */
    const rows: seq<string>
    /** Node.number of every node. */
    const numbers: seq<int>
    /** Node.parent of every node, `Null` for a root. */
    var parent: array<int>
    /** Node.size of every node; only a root's size is kept up to date. */
    var size: array<int>

    /** The root every node's parent chain ends at: the partition the forest stands for. */
    ghost var root: seq<int>
    /** Strictly increases along every parent link, which makes the parent chains finite. */
    ghost var rank: seq<nat>
    ghost var maxRank: nat

    ghost predicate Valid()
      reads this, parent, size
    {
      && parent != size
      && |numbers| == |rows| && parent.Length == |rows| && size.Length == |rows|
      && Invariant(parent[..], size[..], root, rank, maxRank, numbers)
    }

    /** The nodes met when following parent links from `x`, ending with its root. */
    ghost function Path(x: int): seq<int>
      requires Valid() && 0 <= x < |rows|
      reads this, parent, size
      decreases maxRank - rank[x]
    {
      if parent[x] == Null then [x] else [x] + Path(parent[x])
    }

    /** Node.createNode for every row: each node starts as a root of size 1. */
    constructor (rows: seq<string>, numbers: seq<int>)
      requires |rows| == |numbers|
      ensures Valid() && fresh(parent) && fresh(size)
      ensures this.rows == rows && this.numbers == numbers
      ensures root == Singletons(|rows|)
      ensures forall i :: 0 <= i < |rows| ==> parent[i] == Null && size[i] == 1
    {
      this.rows := rows;
      this.numbers := numbers;
      parent := new int[|rows|](_ => Null);
      size := new int[|rows|](_ => 1);
      root := Singletons(|rows|);
      rank := seq(|rows|, _ => 0);
      maxRank := 0;
      new;
      forall i | 0 <= i < |rows|
        ensures size[i] == |Members(root, i)|
      {
        SingletonMembers(|rows|, i);
      }
      assert SizesCounted(size[..], root);
    }

    /**
     * Node.getParent: returns the root of `x` and points every node met on the
     * way directly at that root. Roots, the partition and all sizes stay as they were.
     */
    method Find(x: int) returns (r: int)
      requires Valid() && 0 <= x < |rows|
      modifies parent
      ensures Valid()
      ensures r == root[x] && parent[r] == Null
      ensures parent[..] == Compressed(old(parent[..]), old(Path(x)), r)
      ensures CompressedOnly(old(parent[..]), parent[..], root)
      decreases maxRank - rank[x]
    {
      if parent[x] == Null {
        return x;
      }
      ghost var before := parent[..];
      ghost var tail := Path(parent[x]);
      assert Path(x) == [x] + tail;
      r := Find(parent[x]);
      ghost var mid := parent[..];
      CompressedStep(before, x, tail, r);
      Compress(x, r);
      CompressedOnlyStep(before, mid, root, x, r);
    }

    /** The write of getParent's path compression: node `x` is pointed straight at its root `r`. */
    method Compress(x: int, r: int)
      requires Valid() && 0 <= x < |rows| && parent[x] != Null && r == root[x]
      modifies parent
      ensures Valid()
      ensures parent[..] == old(parent[..])[x := r]
    {
      CompressKeepsInvariant(parent[..], size[..], root, rank, maxRank, numbers, x);
      parent[x] := r;
    }

    /** Node.getSize: the size of `x`'s set, read at its root. */
    method Size(x: int) returns (s: int)
      requires Valid() && 0 <= x < |rows|
      modifies parent
      ensures Valid()
      ensures s == |Members(root, root[x])|
      ensures CompressedOnly(old(parent[..]), parent[..], root)
    {
      var r := Find(x);
      s := size[r];
    }

    /**
     * Node.unionNodes: resolves both nodes to their roots; unless the roots carry
     * the same number, the root with the larger number is hung under the other,
     * whose size grows by the absorbed root's size.
     */
    method Union(a: int, b: int)
      requires Valid() && 0 <= a < |rows| && 0 <= b < |rows|
      modifies this, parent, size
      ensures Valid() && parent == old(parent) && size == old(size)
      ensures root == Unite(old(root), numbers, a, b)
      ensures var ra, rb := old(root[a]), old(root[b]);
              numbers[ra] == numbers[rb] ==>
                && (forall i :: 0 <= i < |rows| ==> size[i] == old(size[i]))
                && (forall i :: 0 <= i < |rows| ==> OnlyCompressed(old(parent[i]), parent[i], old(root[i])))
      ensures var ra, rb := old(root[a]), old(root[b]);
              numbers[ra] != numbers[rb] ==>
                var (winner, loser) := if numbers[ra] < numbers[rb] then (ra, rb) else (rb, ra);
                && parent[loser] == winner
                && size[winner] == old(size[winner]) + old(size[loser])
                && (forall i :: 0 <= i < |rows| && i != winner ==> size[i] == old(size[i]))
                && (forall i :: 0 <= i < |rows| && i != loser ==> OnlyCompressed(old(parent[i]), parent[i], old(root[i])))
    {
      var topLeft, topRight := Roots(a, b);
      if numbers[topLeft] == numbers[topRight] {
        return;
      }
      if numbers[topLeft] < numbers[topRight] {
        Link(topLeft, topRight);
      } else {
        Link(topRight, topLeft);
      }
    }

    /** The two getParent calls of unionNodes: both roots, with both paths compressed. */
    method Roots(a: int, b: int) returns (ra: int, rb: int)
      requires Valid() && 0 <= a < |rows| && 0 <= b < |rows|
      modifies parent
      ensures Valid() && ra == root[a] && rb == root[b] && parent[ra] == Null && parent[rb] == Null
      ensures forall i :: 0 <= i < |rows| ==> OnlyCompressed(old(parent[i]), parent[i], root[i])
    {
      ghost var before := parent[..];
      ra := Find(a);
      ghost var mid := parent[..];
      rb := Find(b);
      CompressedOnlyTrans(before, mid, parent[..], root);
    }

    /** Hangs root `loser` under root `winner`, the root with the smaller number. */
    method Link(winner: int, loser: int)
      requires Valid() && 0 <= winner < |rows| && 0 <= loser < |rows|
      requires parent[winner] == Null && parent[loser] == Null
      requires numbers[winner] < numbers[loser]
      modifies this, parent, size
      ensures Valid() && parent == old(parent) && size == old(size)
      ensures root == Relabel(old(root), loser, winner)
      ensures parent[loser] == winner
      ensures forall i :: 0 <= i < |rows| && i != loser ==> parent[i] == old(parent[i])
      ensures size[winner] == old(size[winner]) + old(size[loser])
      ensures forall i :: 0 <= i < |rows| && i != winner ==> size[i] == old(size[i])
    {
      var root', rank', maxRank' := LinkKeepsInvariants(parent[..], size[..], root, rank, maxRank, numbers, winner, loser);
      Relink(winner, loser, root', rank', maxRank');
    }

    /**
     * The two field writes of a union, the absorbed root's parent and the
     * survivor's size, together with the new ghost partition and ranks.
     */
    method Relink(winner: int, loser: int, ghost root': seq<int>, ghost rank': seq<nat>, ghost maxRank': nat)
      requires parent != size && 0 <= winner < parent.Length && 0 <= loser < parent.Length
      requires size.Length == parent.Length
      modifies this, parent, size
      ensures parent == old(parent) && size == old(size)
      ensures root == root' && rank == rank' && maxRank == maxRank'
      ensures parent[..] == old(parent[..])[loser := winner]
      ensures size[..] == old(size[..])[winner := old(size[winner]) + old(size[loser])]
    {
      root, rank, maxRank := root', rank', maxRank';
      var merged := size[winner] + size[loser];
      size[winner] := merged;
      parent[loser] := winner;
    }
  }

  /** Hanging root `loser` under root `winner` keeps the shape, the counted sizes and the least numbers, with the new ghost state returned. */
  lemma LinkKeepsInvariants(p: seq<int>, s: seq<int>, root: seq<int>, rank: seq<nat>, maxRank: nat, numbers: seq<int>, winner: int, loser: int)
    returns (root': seq<int>, rank': seq<nat>, maxRank': nat)
    requires Invariant(p, s, root, rank, maxRank, numbers)
    requires 0 <= winner < |p| && 0 <= loser < |p|
    requires p[winner] == Null && p[loser] == Null && numbers[winner] < numbers[loser]
    ensures root' == Relabel(root, loser, winner)
    ensures Invariant(p[loser := winner], s[winner := s[winner] + s[loser]], root', rank', maxRank', numbers)
  {
    var newRank: nat := if rank[winner] < rank[loser] + 1 then rank[loser] + 1 else rank[winner];
    LinkKeepsShape(p, root, rank, maxRank, winner, loser);
    LinkKeepsSizes(s, root, winner, loser);
    UniteKeepsLeastNumberAt(root, numbers, winner, loser);
    root', rank', maxRank' := Relabel(root, loser, winner), rank[winner := newRank], if maxRank < newRank then newRank else maxRank;
  }

  /**
   * What the arrays and the ghost state of a valid forest satisfy: the parent
   * links form a forest over the partition `root`, every root's size counts its
   * set, and every root has the least number of its set.
   */
  ghost predicate Invariant(parent: seq<int>, size: seq<int>, root: seq<int>, rank: seq<nat>, maxRank: nat, numbers: seq<int>)
  {
    && |numbers| == |parent|
    && ForestShape(parent, root, rank, maxRank)
    && SizesCounted(size, root)
    && RootsHaveLeastNumber(root, numbers)
  }

  /** `parent` with every node of `path` that has a parent pointed straight at `r`. */
  function Compressed(parent: seq<int>, path: seq<int>, r: int): (q: seq<int>)
    ensures |q| == |parent|
    ensures forall i :: 0 <= i < |parent| && i !in path ==> q[i] == parent[i]
  {
    seq(|parent|, i requires 0 <= i < |parent| => if i in path && parent[i] != Null then r else parent[i])
  }

  /** Compressing a path is compressing its tail and then pointing its first node at `r`. */
  lemma CompressedStep(parent: seq<int>, x: int, tail: seq<int>, r: int)
    requires 0 <= x < |parent| && parent[x] != Null
    ensures Compressed(parent, tail, r)[x := r] == Compressed(parent, [x] + tail, r)
  {
  }

  /** Every link of `after` is the link of `before` or, by path compression, the node's root. */
  ghost predicate CompressedOnly(before: seq<int>, after: seq<int>, root: seq<int>)
  {
    |before| == |root| && |after| == |root| && forall i :: 0 <= i < |root| ==> OnlyCompressed(before[i], after[i], root[i])
  }

  /** Pointing a linked node at its root is one more compression. */
  lemma CompressedOnlyStep(before: seq<int>, mid: seq<int>, root: seq<int>, x: int, r: int)
    requires CompressedOnly(before, mid, root) && 0 <= x < |root| && before[x] != Null && r == root[x]
    ensures CompressedOnly(before, mid[x := r], root)
  {
  }

  /** Compressions compose. */
  lemma CompressedOnlyTrans(a: seq<int>, b: seq<int>, c: seq<int>, root: seq<int>)
    requires CompressedOnly(a, b, root) && CompressedOnly(b, c, root)
    ensures CompressedOnly(a, c, root)
  {
  }

  /** A parent link either stayed as it was or was redirected, by path compression, to the node's root. */
  ghost predicate OnlyCompressed(before: int, after: int, root: int)
  {
    after == before || (before != Null && after == root)
  }

  /**
   * The shape of a forest of parent links: every link stays inside its set,
   * ranks strictly increase along links, and a node is a root exactly when it
   * has no parent.
   */
  ghost predicate ForestShape(parent: seq<int>, root: seq<int>, rank: seq<nat>, maxRank: nat)
  {
    && |parent| == |root| && |rank| == |root|
    && IsLabeling(root)
    && (forall i :: 0 <= i < |parent| ==> Null <= parent[i] < |parent|)
    && (forall i :: 0 <= i < |parent| ==> (parent[i] == Null <==> root[i] == i))
    && (forall i :: 0 <= i < |parent| && parent[i] != Null ==>
          root[parent[i]] == root[i] && rank[i] < rank[parent[i]])
    && (forall i :: 0 <= i < |parent| ==> rank[i] <= rank[root[i]] <= maxRank)
  }

  /** Every root's size is the number of nodes in its set. */
  ghost predicate SizesCounted(size: seq<int>, root: seq<int>)
  {
    |size| == |root| && forall i :: 0 <= i < |root| && root[i] == i ==> size[i] == |Members(root, i)|
  }

  /** Pointing a node straight at its root keeps the shape of the forest. */
  lemma CompressKeepsShape(parent: seq<int>, root: seq<int>, rank: seq<nat>, maxRank: nat, x: int)
    requires ForestShape(parent, root, rank, maxRank) && 0 <= x < |parent| && parent[x] != Null
    ensures ForestShape(parent[x := root[x]], root, rank, maxRank)
  {
    assert rank[x] < rank[parent[x]] <= rank[root[parent[x]]];
  }

  /** Pointing a node straight at its root keeps the whole invariant: sizes and numbers do not depend on the links. */
  lemma CompressKeepsInvariant(parent: seq<int>, size: seq<int>, root: seq<int>, rank: seq<nat>, maxRank: nat, numbers: seq<int>, x: int)
    requires Invariant(parent, size, root, rank, maxRank, numbers) && 0 <= x < |parent| && parent[x] != Null
    ensures Invariant(parent[x := root[x]], size, root, rank, maxRank, numbers)
  {
    CompressKeepsShape(parent, root, rank, maxRank, x);
  }

  /** Hanging one root under another keeps the shape, once the survivor's rank is raised above the absorbed root's. */
  lemma LinkKeepsShape(parent: seq<int>, root: seq<int>, rank: seq<nat>, maxRank: nat, winner: int, loser: int)
    requires ForestShape(parent, root, rank, maxRank)
    requires 0 <= winner < |parent| && 0 <= loser < |parent| && winner != loser
    requires parent[winner] == Null && parent[loser] == Null
    ensures var newRank := if rank[winner] < rank[loser] + 1 then rank[loser] + 1 else rank[winner];
            ForestShape(parent[loser := winner], Relabel(root, loser, winner), rank[winner := newRank],
                        if maxRank < newRank then newRank else maxRank)
  {
  }

  /** Hanging root `loser` under root `winner` adds the absorbed set's size to the survivor's. */
  lemma LinkKeepsSizes(size: seq<int>, root: seq<int>, winner: int, loser: int)
    requires IsLabeling(root) && SizesCounted(size, root)
    requires 0 <= winner < |root| && 0 <= loser < |root| && winner != loser
    requires root[winner] == winner && root[loser] == loser
    ensures SizesCounted(size[winner := size[winner] + size[loser]], Relabel(root, loser, winner))
  {
    RelabelMembers(root, loser, winner);
  }

  /** Hanging the root with the larger number under the other keeps the least number at every root. */
  lemma UniteKeepsLeastNumberAt(root: seq<int>, numbers: seq<int>, winner: int, loser: int)
    requires IsLabeling(root) && |numbers| == |root| && RootsHaveLeastNumber(root, numbers)
    requires 0 <= winner < |root| && 0 <= loser < |root| && root[winner] == winner && root[loser] == loser
    requires numbers[winner] < numbers[loser]
    ensures IsLabeling(Relabel(root, loser, winner))
    ensures RootsHaveLeastNumber(Relabel(root, loser, winner), numbers)
  {
    assert Relabel(root, loser, winner) == Unite(root, numbers, winner, loser);
    UniteKeepsLeastNumber(root, numbers, winner, loser);
  }
}
