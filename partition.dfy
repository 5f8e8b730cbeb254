/**
 * The abstract state of the disjoint-set forest of Node.java: a labeling that
 * maps every node to the root its parent chain ends at. The imperative forest
 * in union_find.dfy keeps such a labeling as a ghost field, and every union it
 * performs is the pure `Unite` below.
 */
module Partition {

  /** `root[i]` is the representative of node `i`, and representatives represent themselves. */
  ghost predicate IsLabeling(root: seq<int>)
  {
    && (forall i :: 0 <= i < |root| ==> 0 <= root[i] < |root|)
    && (forall i {:trigger root[root[i]]} :: 0 <= i < |root| ==> root[root[i]] == root[i])
  }

  /** Every node is its own representative: the state right after the nodes are created. */
  function Singletons(n: nat): (r: seq<int>)
    ensures |r| == n && forall i :: 0 <= i < n ==> r[i] == i
  {
    seq(n, i => i)
  }

  /** The nodes whose representative is `r`. */
  function Members(root: seq<int>, r: int): set<int>
  {
    set i | 0 <= i < |root| && root[i] == r
  }

  /** Distinct nodes carry distinct numbers. */
  ghost predicate Injective(numbers: seq<int>)
  {
    forall i, j :: 0 <= i < |numbers| && 0 <= j < |numbers| && numbers[i] == numbers[j] ==> i == j
  }

  /** The representative of every set has the smallest number in that set. */
  ghost predicate RootsHaveLeastNumber(root: seq<int>, numbers: seq<int>)
    requires IsLabeling(root) && |numbers| == |root|
  {
    forall i :: 0 <= i < |root| ==> numbers[root[i]] <= numbers[i]
  }

  /** `L` is constant on every set of the labeling: the labeling is at least as fine as `L`. */
  ghost predicate Refines(root: seq<int>, L: seq<int>)
    requires IsLabeling(root)
  {
    |L| == |root| && forall i :: 0 <= i < |root| ==> L[i] == L[root[i]]
  }

  /** The set represented by `from` is merged into the one represented by `to`. */
  function Relabel(root: seq<int>, from: int, to: int): seq<int>
  {
    seq(|root|, i requires 0 <= i < |root| => if root[i] == from then to else root[i])
  }

  /**
   * Node.unionNodes on the labeling: both nodes are resolved to their roots; roots
   * with equal numbers are left alone, otherwise the root with the larger number
   * is hung under the root with the smaller one.
   */
  function Unite(root: seq<int>, numbers: seq<int>, a: int, b: int): (r: seq<int>)
    requires IsLabeling(root) && |numbers| == |root|
    requires 0 <= a < |root| && 0 <= b < |root|
    ensures |r| == |root| && IsLabeling(r)
    // the two nodes end up together exactly when their roots' numbers differ or the roots coincide
    ensures numbers[root[a]] != numbers[root[b]] ==> r[a] == r[b]
    ensures numbers[root[a]] == numbers[root[b]] ==> r == root
    // sets are only ever merged, never split
    ensures forall x, y :: 0 <= x < |root| && 0 <= y < |root| && root[x] == root[y] ==> r[x] == r[y]
    // only the members of the two sets can change their representative, and they get one of the two old roots
    ensures forall x :: 0 <= x < |root| && r[x] != root[x] ==> root[x] in {root[a], root[b]} && r[x] in {root[a], root[b]}
    // the surviving representative is the one with the smaller number
    ensures forall x :: 0 <= x < |root| ==> numbers[r[x]] <= numbers[root[x]]
  {
    var ra, rb := root[a], root[b];
    if numbers[ra] == numbers[rb] then root
    else if numbers[ra] < numbers[rb] then Relabel(root, rb, ra)
    else Relabel(root, ra, rb)
  }

  /** Merging two sets whose members `L` already labels alike keeps the labeling at least as fine as `L`. */
  lemma UniteRefines(root: seq<int>, numbers: seq<int>, a: int, b: int, L: seq<int>)
    requires IsLabeling(root) && |numbers| == |root|
    requires 0 <= a < |root| && 0 <= b < |root|
    requires Refines(root, L) && L[a] == L[b]
    ensures Refines(Unite(root, numbers, a, b), L)
  {
    var r := Unite(root, numbers, a, b);
    forall i | 0 <= i < |root|
      ensures L[i] == L[r[i]]
    {
      if r[i] != root[i] {
        assert L[root[a]] == L[root[b]];
      }
    }
  }

  /** Unite keeps the least number of every set at its representative. */
  lemma UniteKeepsLeastNumber(root: seq<int>, numbers: seq<int>, a: int, b: int)
    requires IsLabeling(root) && |numbers| == |root|
    requires 0 <= a < |root| && 0 <= b < |root|
    requires RootsHaveLeastNumber(root, numbers)
    ensures RootsHaveLeastNumber(Unite(root, numbers, a, b), numbers)
  {
    var r := Unite(root, numbers, a, b);
    forall i | 0 <= i < |root|
      ensures numbers[r[i]] <= numbers[i]
    {
      assert numbers[r[i]] <= numbers[root[i]];
    }
  }

  /**
   * Relabelling moves the members of `from` into the set of `to` and leaves every
   * other set as it was; the two sets were disjoint, so the sizes add up.
   */
  lemma RelabelMembers(root: seq<int>, from: int, to: int)
    requires from != to
    ensures Members(Relabel(root, from, to), to) == Members(root, to) + Members(root, from)
    ensures |Members(Relabel(root, from, to), to)| == |Members(root, to)| + |Members(root, from)|
    ensures Members(Relabel(root, from, to), from) == {}
    ensures forall r :: r != from && r != to ==> Members(Relabel(root, from, to), r) == Members(root, r)
  {
    var m, mt, mf := Members(Relabel(root, from, to), to), Members(root, to), Members(root, from);
    assert m == mt + mf;
    assert mt !! mf;
  }

  /** In the initial labeling every node is the only member of its set. */
  lemma SingletonMembers(n: nat, i: int)
    requires 0 <= i < n
    ensures Members(Singletons(n), i) == {i}
  {
  }

  /** A set never has more members than there are nodes. */
  lemma {:induction false} MembersBounded(root: seq<int>, r: int)
    ensures |Members(root, r)| <= |root|
  {
    if |root| > 0 {
      var front := root[..|root| - 1];
      MembersBounded(front, r);
      if root[|root| - 1] == r {
        assert Members(root, r) == Members(front, r) + {|root| - 1};
      } else {
        assert Members(root, r) == Members(front, r);
      }
    }
  }
}
