/**
 * The part of the pipeline both Backend.java variants share: uniting the rows
 * that hold an equal value through the value's first-seen anchor
 * (unionNodesByDSU), bucketing the rows by (root size, root number) into a
 * TreeMap ordered by KeySizeParent.comparator (transformInputToResult), and
 * counting the groups with more than one row
 * (getGroupsAmountWithMoreThanOneNode).
 */
module Grouping {
  import opened Partition
  import opened UnionFind

  /** The exceptions the pipeline can throw once the rows are loaded. */
  datatype Error =
    | StringIndexOutOfBounds  // substring(1, length - 1) of a field shorter than two characters
    | IndexOutOfBounds        // a column slot past the last one
    | NullPointer             // Objects.requireNonNull of a null
    | UnsupportedOperation    // add on the immutable List.of()

  datatype Result<+T> = Success(value: T) | Failure(error: Error)

  /** Every element belongs to one of the `n` nodes. */
  ghost predicate OwnersIn(es: seq<Element>, n: int)
  {
    forall k :: 0 <= k < |es| ==> es[k].owner < n
  }

  ghost predicate AnchorsIn(anchors: map<string, Element>, n: int)
  {
    forall d :: d in anchors ==> anchors[d].owner < n
  }

  /** Any two elements of `es` with equal data have owners that `L` labels alike. */
  ghost predicate AgreesOnValues(L: seq<int>, es: seq<Element>)
    requires OwnersIn(es, |L|)
  {
    forall k, l :: 0 <= k < |es| && 0 <= l < |es| && es[k].data == es[l].data ==> L[es[k].owner] == L[es[l].owner]
  }

  /** Every element of `es` whose data already has an anchor has an owner that `L` labels like the anchor's. */
  ghost predicate AgreesWithAnchors(L: seq<int>, anchors: map<string, Element>, es: seq<Element>)
    requires OwnersIn(es, |L|) && AnchorsIn(anchors, |L|)
  {
    forall k :: 0 <= k < |es| && es[k].data in anchors ==> L[es[k].owner] == L[anchors[es[k].data].owner]
  }

  /**
   * The inner loop of unionNodesByDSU on the labeling: the first element with a
   * value becomes its anchor, and every later element with that value is united
   * with the anchor.
   */
  ghost function FirstAnchorUnions(root: seq<int>, numbers: seq<int>, anchors: map<string, Element>, es: seq<Element>): (r: seq<int>)
    requires IsLabeling(root) && |numbers| == |root|
    requires OwnersIn(es, |root|) && AnchorsIn(anchors, |root|)
    ensures |r| == |root| && IsLabeling(r)
    // sets are only merged
    ensures forall x, y :: 0 <= x < |root| && 0 <= y < |root| && root[x] == root[y] ==> r[x] == r[y]
    decreases |es|
  {
    if es == [] then root
    else
      var e := es[0];
      if e.data !in anchors then
        FirstAnchorUnions(root, numbers, anchors[e.data := e], es[1..])
      else
        FirstAnchorUnions(Unite(root, numbers, anchors[e.data].owner, e.owner), numbers, anchors, es[1..])
  }

  /** unionNodesByDSU on the labeling: every list is processed in turn, each with anchors of its own. */
  ghost function UnionAll(root: seq<int>, numbers: seq<int>, lists: seq<seq<Element>>): (r: seq<int>)
    requires IsLabeling(root) && |numbers| == |root|
    requires forall k :: 0 <= k < |lists| ==> OwnersIn(lists[k], |root|)
    ensures |r| == |root| && IsLabeling(r)
    ensures forall x, y :: 0 <= x < |root| && 0 <= y < |root| && root[x] == root[y] ==> r[x] == r[y]
    decreases |lists|
  {
    if lists == [] then root
    else UnionAll(FirstAnchorUnions(root, numbers, map[], lists[0]), numbers, lists[1..])
  }

  /**
   * After the first-anchor unions, elements with equal data are in one set, and
   * so is every element whose data had an anchor already, together with that anchor.
   */
  lemma {:induction false} FirstAnchorUnionsJoin(root: seq<int>, numbers: seq<int>, anchors: map<string, Element>, es: seq<Element>)
    requires IsLabeling(root) && |numbers| == |root| && Injective(numbers)
    requires OwnersIn(es, |root|) && AnchorsIn(anchors, |root|)
    ensures AgreesOnValues(FirstAnchorUnions(root, numbers, anchors, es), es)
    ensures AgreesWithAnchors(FirstAnchorUnions(root, numbers, anchors, es), anchors, es)
    decreases |es|
  {
    if es != [] {
      var e, tail := es[0], es[1..];
      var r := FirstAnchorUnions(root, numbers, anchors, es);
      if e.data !in anchors {
        FirstAnchorUnionsJoin(root, numbers, anchors[e.data := e], tail);
        NewAnchorStep(r, anchors, es);
      } else {
        var root' := Unite(root, numbers, anchors[e.data].owner, e.owner);
        assert root'[anchors[e.data].owner] == root'[e.owner];
        FirstAnchorUnionsJoin(root', numbers, anchors, tail);
        KnownAnchorStep(r, anchors, es);
      }
    }
  }

  /** An element whose value has no anchor yet becomes the anchor: agreement on the rest carries over to the whole list. */
  lemma NewAnchorStep(r: seq<int>, anchors: map<string, Element>, es: seq<Element>)
    requires es != [] && es[0].data !in anchors && OwnersIn(es, |r|) && AnchorsIn(anchors, |r|)
    requires AgreesOnValues(r, es[1..]) && AgreesWithAnchors(r, anchors[es[0].data := es[0]], es[1..])
    ensures AgreesOnValues(r, es) && AgreesWithAnchors(r, anchors, es)
  {
    var e, tail := es[0], es[1..];
    forall k, l | 0 <= k < |es| && 0 <= l < |es| && es[k].data == es[l].data
      ensures r[es[k].owner] == r[es[l].owner]
    {
      if k > 0 { assert es[k] == tail[k - 1]; }
      if l > 0 { assert es[l] == tail[l - 1]; }
    }
    forall k | 0 <= k < |es| && es[k].data in anchors
      ensures r[es[k].owner] == r[anchors[es[k].data].owner]
    {
      assert es[k] == tail[k - 1];
    }
  }

  /** An element whose value is anchored, once joined with its anchor: agreement on the rest carries over to the whole list. */
  lemma KnownAnchorStep(r: seq<int>, anchors: map<string, Element>, es: seq<Element>)
    requires es != [] && es[0].data in anchors && OwnersIn(es, |r|) && AnchorsIn(anchors, |r|)
    requires r[anchors[es[0].data].owner] == r[es[0].owner]
    requires AgreesOnValues(r, es[1..]) && AgreesWithAnchors(r, anchors, es[1..])
    ensures AgreesOnValues(r, es) && AgreesWithAnchors(r, anchors, es)
  {
    var e, tail := es[0], es[1..];
    forall k | 0 <= k < |es| && es[k].data in anchors
      ensures r[es[k].owner] == r[anchors[es[k].data].owner]
    {
      if k > 0 { assert es[k] == tail[k - 1]; }
    }
    forall k, l | 0 <= k < |es| && 0 <= l < |es| && es[k].data == es[l].data
      ensures r[es[k].owner] == r[es[l].owner]
    {
      if k > 0 { assert es[k] == tail[k - 1]; }
      if l > 0 { assert es[l] == tail[l - 1]; }
    }
  }

  /**
   * The first-anchor unions merge only what any labeling `L` that agrees on equal
   * data (and with the anchors) already labels alike: rows linked by no chain of
   * equal values stay apart.
   */
  lemma {:induction false} FirstAnchorUnionsRefines(root: seq<int>, numbers: seq<int>, anchors: map<string, Element>, es: seq<Element>, L: seq<int>)
    requires IsLabeling(root) && |numbers| == |root|
    requires OwnersIn(es, |root|) && AnchorsIn(anchors, |root|)
    requires Refines(root, L) && AgreesOnValues(L, es) && AgreesWithAnchors(L, anchors, es)
    ensures Refines(FirstAnchorUnions(root, numbers, anchors, es), L)
    decreases |es|
  {
    if es != [] {
      var e, tail := es[0], es[1..];
      assert forall k :: 0 <= k < |tail| ==> tail[k] == es[k + 1];
      if e.data !in anchors {
        var anchors' := anchors[e.data := e];
        forall k | 0 <= k < |tail| && tail[k].data in anchors'
          ensures L[tail[k].owner] == L[anchors'[tail[k].data].owner]
        {
          assert es[k + 1] == tail[k];
        }
        FirstAnchorUnionsRefines(root, numbers, anchors', tail, L);
      } else {
        UniteRefines(root, numbers, anchors[e.data].owner, e.owner, L);
        FirstAnchorUnionsRefines(Unite(root, numbers, anchors[e.data].owner, e.owner), numbers, anchors, tail, L);
      }
    }
  }

  /** Once equal data already shares a set, the first-anchor unions change nothing. */
  lemma {:induction false} FirstAnchorUnionsSettled(root: seq<int>, numbers: seq<int>, anchors: map<string, Element>, es: seq<Element>)
    requires IsLabeling(root) && |numbers| == |root|
    requires OwnersIn(es, |root|) && AnchorsIn(anchors, |root|)
    requires AgreesOnValues(root, es) && AgreesWithAnchors(root, anchors, es)
    ensures FirstAnchorUnions(root, numbers, anchors, es) == root
    decreases |es|
  {
    if es != [] {
      var e, tail := es[0], es[1..];
      assert forall k :: 0 <= k < |tail| ==> tail[k] == es[k + 1];
      if e.data !in anchors {
        var anchors' := anchors[e.data := e];
        forall k | 0 <= k < |tail| && tail[k].data in anchors'
          ensures root[tail[k].owner] == root[anchors'[tail[k].data].owner]
        {
          assert es[k + 1] == tail[k];
        }
        FirstAnchorUnionsSettled(root, numbers, anchors', tail);
      } else {
        assert Unite(root, numbers, anchors[e.data].owner, e.owner) == root;
        FirstAnchorUnionsSettled(root, numbers, anchors, tail);
      }
    }
  }

  /** After all lists are processed, elements with equal data in one list are in one set. */
  lemma {:induction false} UnionAllJoins(root: seq<int>, numbers: seq<int>, lists: seq<seq<Element>>)
    requires IsLabeling(root) && |numbers| == |root| && Injective(numbers)
    requires forall k :: 0 <= k < |lists| ==> OwnersIn(lists[k], |root|)
    ensures forall k :: 0 <= k < |lists| ==> AgreesOnValues(UnionAll(root, numbers, lists), lists[k])
    decreases |lists|
  {
    if lists != [] {
      var first := FirstAnchorUnions(root, numbers, map[], lists[0]);
      FirstAnchorUnionsJoin(root, numbers, map[], lists[0]);
      UnionAllJoins(first, numbers, lists[1..]);
      var r := UnionAll(root, numbers, lists);
      forall k | 0 <= k < |lists|
        ensures AgreesOnValues(r, lists[k])
      {
        if k > 0 {
          assert lists[k] == lists[1..][k - 1];
        }
      }
    }
  }

  /** Processing all lists merges only what any labeling agreeing on every list's equal data labels alike. */
  lemma {:induction false} UnionAllRefines(root: seq<int>, numbers: seq<int>, lists: seq<seq<Element>>, L: seq<int>)
    requires IsLabeling(root) && |numbers| == |root|
    requires forall k :: 0 <= k < |lists| ==> OwnersIn(lists[k], |root|)
    requires Refines(root, L)
    requires forall k :: 0 <= k < |lists| ==> AgreesOnValues(L, lists[k])
    ensures Refines(UnionAll(root, numbers, lists), L)
    decreases |lists|
  {
    if lists != [] {
      FirstAnchorUnionsRefines(root, numbers, map[], lists[0], L);
      var first := FirstAnchorUnions(root, numbers, map[], lists[0]);
      assert forall k :: 0 <= k < |lists| - 1 ==> lists[1..][k] == lists[k + 1];
      UnionAllRefines(first, numbers, lists[1..], L);
    }
  }

  /** Processing lists whose equal data already shares a set changes nothing. */
  lemma {:induction false} UnionAllSettled(root: seq<int>, numbers: seq<int>, lists: seq<seq<Element>>)
    requires IsLabeling(root) && |numbers| == |root|
    requires forall k :: 0 <= k < |lists| ==> OwnersIn(lists[k], |root|) && AgreesOnValues(root, lists[k])
    ensures UnionAll(root, numbers, lists) == root
    decreases |lists|
  {
    if lists != [] {
      FirstAnchorUnionsSettled(root, numbers, map[], lists[0]);
      assert forall k :: 0 <= k < |lists| - 1 ==> lists[1..][k] == lists[k + 1];
      UnionAllSettled(root, numbers, lists[1..]);
    }
  }

  /** The inner loop of unionNodesByDSU (lines 99-110 of the working variant, 102-113 of the draft). */
  method UniteByFirstAnchor(f: Forest, entry: seq<Element>)
    requires f.Valid() && OwnersIn(entry, |f.rows|)
    modifies f, f.parent, f.size
    ensures f.Valid() && f.parent == old(f.parent) && f.size == old(f.size)
    ensures f.root == FirstAnchorUnions(old(f.root), f.numbers, map[], entry)
  {
    var anchors: map<string, Element> := map[];
    for j := 0 to |entry|
      invariant f.Valid() && f.parent == old(f.parent) && f.size == old(f.size)
      invariant AnchorsIn(anchors, |f.rows|)
      invariant FirstAnchorUnions(f.root, f.numbers, anchors, entry[j..]) == FirstAnchorUnions(old(f.root), f.numbers, map[], entry)
    {
      var element := entry[j];
      assert entry[j..][1..] == entry[j + 1..];
      if element.data !in anchors {
        anchors := anchors[element.data := element];
        continue;
      }
      f.Union(anchors[element.data].owner, element.owner);
    }
  }

  /** KeySizeParent: the size of a row's set and the number of its root. */
  datatype Key = Key(size: int, parentNumber: int)

  const IntMax: int := 0x7fff_ffff

  /** Java `int` subtraction: the difference wrapped into [-2^31, 2^31), exact when it fits. */
  function Sub32(a: int, b: int): (d: int)
    ensures -0x8000_0000 <= d <= IntMax
    ensures (d - (a - b)) % 0x1_0000_0000 == 0
    ensures -0x8000_0000 <= a - b <= IntMax ==> d == a - b
  {
    var d := (a - b) % 0x1_0000_0000;
    if d > IntMax then d - 0x1_0000_0000 else d
  }

  /**
   * KeySizeParent.comparator: size descending, then parent number ascending, by
   * subtraction. On non-negative `int` keys the subtractions cannot overflow, so
   * the sign of the result orders the keys as intended.
   */
  function Compare(o1: Key, o2: Key): (c: int)
    ensures InRange(o1) && InRange(o2) ==> (c < 0 <==> Before(o1, o2))
    ensures InRange(o1) && InRange(o2) ==> (c == 0 <==> o1 == o2)
    ensures InRange(o1) && InRange(o2) ==> (c > 0 <==> Before(o2, o1))
  {
    if o1.size != o2.size then Sub32(o2.size, o1.size) else Sub32(o1.parentNumber, o2.parentNumber)
  }

  /** Both components are non-negative Java `int` values. */
  predicate InRange(k: Key)
  {
    0 <= k.size <= IntMax && 0 <= k.parentNumber <= IntMax
  }

  /** The intended order of the groups: larger sets first, then the smaller root number. */
  predicate Before(a: Key, b: Key)
  {
    a.size > b.size || (a.size == b.size && a.parentNumber < b.parentNumber)
  }

  /** A TreeMap entry: a key and the HashSet of row texts filed under it. */
  datatype Group = Group(key: Key, rows: set<string>)

  /** The entries of a TreeMap, in its iteration order. */
  ghost predicate SortedGroups(groups: seq<Group>)
  {
    && (forall j :: 0 <= j < |groups| ==> InRange(groups[j].key))
    && (forall i, j :: 0 <= i < j < |groups| ==> Before(groups[i].key, groups[j].key))
  }

  function KeysOf(groups: seq<Group>): set<Key>
  {
    set j | 0 <= j < |groups| :: groups[j].key
  }

  /** TreeMap.get, with the empty set for an absent key. */
  function RowsAt(groups: seq<Group>, key: Key): set<string>
  {
    if groups == [] then {}
    else if groups[0].key == key then groups[0].rows
    else RowsAt(groups[1..], key)
  }

  /** In a sorted entry sequence every key occurs once, so looking a key up finds its entry's rows. */
  lemma {:induction false} RowsAtEntry(groups: seq<Group>, j: int)
    requires SortedGroups(groups) && 0 <= j < |groups|
    ensures RowsAt(groups, groups[j].key) == groups[j].rows
  {
    if j > 0 {
      assert Before(groups[0].key, groups[j].key);
      RowsAtEntry(groups[1..], j - 1);
    }
  }

  lemma {:induction false} RowsAtAbsent(groups: seq<Group>, key: Key)
    requires key !in KeysOf(groups)
    ensures RowsAt(groups, key) == {}
  {
    if groups != [] {
      assert groups[0].key in KeysOf(groups);
      assert KeysOf(groups[1..]) <= KeysOf(groups) by {
        forall k | k in KeysOf(groups[1..]) ensures k in KeysOf(groups) {
          var j :| 0 <= j < |groups[1..]| && groups[1..][j].key == k;
          assert groups[j + 1].key == k;
        }
      }
      RowsAtAbsent(groups[1..], key);
    }
  }

  /** The keys of an entry put in front of others. */
  lemma KeysOfCons(g: Group, groups: seq<Group>)
    ensures KeysOf([g] + groups) == KeysOf(groups) + {g.key}
  {
    var r := [g] + groups;
    assert r[0].key == g.key;
    forall k | k in KeysOf(r) ensures k in KeysOf(groups) + {g.key} {
      var j :| 0 <= j < |r| && r[j].key == k;
      if j > 0 { assert groups[j - 1].key == k; }
    }
    forall k | k in KeysOf(groups) ensures k in KeysOf(r) {
      var j :| 0 <= j < |groups| && groups[j].key == k;
      assert r[j + 1].key == k;
    }
  }

  /**
   * `resultGroup.putIfAbsent(key, new HashSet<>()); resultGroup.get(key).add(row)`:
   * the entry for `key`, created at its place in comparator order if absent,
   * gains `row`; every other entry stays as it was.
   */
  function Put(groups: seq<Group>, key: Key, row: string): (r: seq<Group>)
    requires SortedGroups(groups) && InRange(key)
    ensures SortedGroups(r)
    ensures KeysOf(r) == KeysOf(groups) + {key}
    ensures forall k :: RowsAt(r, k) == if k == key then RowsAt(groups, k) + {row} else RowsAt(groups, k)
  {
    if groups == [] then
      var r := [Group(key, {row})];
      assert r[0].key == key;
      assert KeysOf(r) == {key};
      r
    else
      var c := Compare(key, groups[0].key);
      if c < 0 then
        InsertFront(groups, key, row);
        [Group(key, {row})] + groups
      else if c == 0 then
        var r := [Group(groups[0].key, groups[0].rows + {row})] + groups[1..];
        assert r[1..] == groups[1..];
        KeysOfCons(groups[0], groups[1..]);
        KeysOfCons(r[0], groups[1..]);
        assert groups == [groups[0]] + groups[1..];
        r
      else
        var rest := Put(groups[1..], key, row);
        var r := [groups[0]] + rest;
        assert r[1..] == rest;
        KeepFront(groups, rest, key);
        r
  }

  /** A key ordered before every entry goes in front. */
  lemma InsertFront(groups: seq<Group>, key: Key, row: string)
    requires SortedGroups(groups) && InRange(key) && groups != [] && Before(key, groups[0].key)
    ensures SortedGroups([Group(key, {row})] + groups)
    ensures KeysOf([Group(key, {row})] + groups) == KeysOf(groups) + {key}
    ensures forall k :: RowsAt([Group(key, {row})] + groups, k) == if k == key then RowsAt(groups, k) + {row} else RowsAt(groups, k)
  {
    var r := [Group(key, {row})] + groups;
    assert r[1..] == groups;
    KeysOfCons(Group(key, {row}), groups);
    forall j | 0 <= j < |groups| ensures Before(key, groups[j].key) && groups[j].key != key {
      if j > 0 {
        assert Before(groups[0].key, groups[j].key);
      }
    }
    RowsAtAbsent(groups, key);
  }

  /** The first entry stays in front of the tail the key went into. */
  lemma KeepFront(groups: seq<Group>, rest: seq<Group>, key: Key)
    requires SortedGroups(groups) && groups != [] && Before(groups[0].key, key)
    requires SortedGroups(rest) && KeysOf(rest) == KeysOf(groups[1..]) + {key}
    ensures SortedGroups([groups[0]] + rest)
    ensures KeysOf([groups[0]] + rest) == KeysOf(groups) + {key}
  {
    KeysOfCons(groups[0], groups[1..]);
    assert groups == [groups[0]] + groups[1..];
    KeysOfCons(groups[0], rest);
    forall j | 0 <= j < |rest| ensures Before(groups[0].key, rest[j].key) {
      assert rest[j].key in KeysOf(rest);
      if rest[j].key != key {
        var i :| 0 <= i < |groups[1..]| && groups[1..][i].key == rest[j].key;
        assert groups[i + 1].key == rest[j].key;
      }
    }
  }

  /** getGroupsAmountWithMoreThanOneNode: the number of keys whose size exceeds one. */
  function GroupsWithMoreThanOneNode(groups: seq<Group>): nat
  {
    if groups == [] then 0
    else (if groups[0].key.size > 1 then 1 else 0) + GroupsWithMoreThanOneNode(groups[1..])
  }

  /** In comparator order the groups with more than one node come first, and the count says how many there are. */
  lemma {:induction false} MultiRowGroupsComeFirst(groups: seq<Group>)
    requires SortedGroups(groups)
    ensures GroupsWithMoreThanOneNode(groups) <= |groups|
    ensures forall j :: 0 <= j < |groups| ==> (groups[j].key.size > 1 <==> j < GroupsWithMoreThanOneNode(groups))
  {
    if groups != [] {
      var tail := groups[1..];
      MultiRowGroupsComeFirst(tail);
      assert forall j :: 0 <= j < |tail| ==> tail[j] == groups[j + 1];
      if groups[0].key.size <= 1 {
        assert forall j :: 0 < j < |groups| ==> Before(groups[0].key, groups[j].key);
        assert tail != [] ==> tail[0].key.size <= 1;
      }
    }
  }

  /** The keys of the map whose size exceeds one. */
  function MultiRowKeys(groups: seq<Group>): set<Key>
  {
    set k | k in KeysOf(groups) && k.size > 1
  }

  /** The recursive count is the stream's count of the keys whose size exceeds one. */
  lemma {:induction false} MultiRowCount(groups: seq<Group>)
    requires SortedGroups(groups)
    ensures GroupsWithMoreThanOneNode(groups) == |MultiRowKeys(groups)|
  {
    if groups != [] {
      var g, tail := groups[0], groups[1..];
      assert forall j :: 0 <= j < |tail| ==> tail[j] == groups[j + 1];
      MultiRowCount(tail);
      assert groups == [g] + tail;
      KeysOfCons(g, tail);
      assert g.key !in KeysOf(tail) by {
        forall j | 0 <= j < |tail|
          ensures tail[j].key != g.key
        {
          assert Before(g.key, groups[j + 1].key);
        }
      }
      if g.key.size > 1 {
        assert MultiRowKeys(groups) == MultiRowKeys(tail) + {g.key};
      } else {
        assert MultiRowKeys(groups) == MultiRowKeys(tail);
      }
    }
  }

  /** The key node `x` is filed under: the size of its set and the number of its root. */
  ghost function KeyOf(root: seq<int>, numbers: seq<int>, x: int): Key
    requires IsLabeling(root) && |numbers| == |root| && 0 <= x < |root|
  {
    Key(|Members(root, root[x])|, numbers[root[x]])
  }

  /** The position of the entry with key `k`. */
  ghost function IndexOfKey(groups: seq<Group>, k: Key): (j: int)
    requires k in KeysOf(groups)
    ensures 0 <= j < |groups| && groups[j].key == k
  {
    var j :| 0 <= j < |groups| && groups[j].key == k; j
  }

  /** The nodes filed under entry `j`. */
  ghost function NodesIn(groupOf: seq<int>, j: int): set<int>
  {
    set z | 0 <= z < |groupOf| && groupOf[z] == j
  }

  /** Two nodes get the same key exactly when they share a root. */
  lemma SameKeySameRoot(root: seq<int>, numbers: seq<int>, i: int, i2: int)
    requires IsLabeling(root) && |numbers| == |root| && Injective(numbers)
    requires 0 <= i < |root| && 0 <= i2 < |root|
    ensures KeyOf(root, numbers, i) == KeyOf(root, numbers, i2) <==> root[i] == root[i2]
  {
  }

  /** The first `x` nodes are filed: the entries are sorted, hold their keys, and each key holds its nodes' rows. */
  ghost predicate Filed(rows: seq<string>, root: seq<int>, numbers: seq<int>, groups: seq<Group>, x: int)
    requires IsLabeling(root) && |rows| == |root| && |numbers| == |root| && 0 <= x <= |root|
  {
    && SortedGroups(groups)
    && KeysOf(groups) == (set y | 0 <= y < x :: KeyOf(root, numbers, y))
    && forall k :: RowsAt(groups, k) == set z | 0 <= z < x && KeyOf(root, numbers, z) == k :: rows[z]
  }

  /** Filing node `x` under its key extends the filed prefix by one node. */
  lemma FileOne(rows: seq<string>, root: seq<int>, numbers: seq<int>, groups: seq<Group>, x: int)
    requires IsLabeling(root) && |rows| == |root| && |numbers| == |root| && 0 <= x < |root|
    requires Filed(rows, root, numbers, groups, x) && InRange(KeyOf(root, numbers, x))
    ensures Filed(rows, root, numbers, Put(groups, KeyOf(root, numbers, x), rows[x]), x + 1)
  {
    var key := KeyOf(root, numbers, x);
    var groups' := Put(groups, key, rows[x]);
    FiledKeysStep(root, numbers, x);
    forall k
      ensures RowsAt(groups', k) == set z | 0 <= z < x + 1 && KeyOf(root, numbers, z) == k :: rows[z]
    {
      FiledRowsStep(rows, root, numbers, x, k);
    }
  }

  lemma FiledKeysStep(root: seq<int>, numbers: seq<int>, x: int)
    requires IsLabeling(root) && |numbers| == |root| && 0 <= x < |root|
    ensures (set y | 0 <= y < x + 1 :: KeyOf(root, numbers, y)) == (set y | 0 <= y < x :: KeyOf(root, numbers, y)) + {KeyOf(root, numbers, x)}
  {
  }

  lemma FiledRowsStep(rows: seq<string>, root: seq<int>, numbers: seq<int>, x: int, k: Key)
    requires IsLabeling(root) && |rows| == |root| && |numbers| == |root| && 0 <= x < |root|
    ensures (set z | 0 <= z < x + 1 && KeyOf(root, numbers, z) == k :: rows[z])
            == (set z | 0 <= z < x && KeyOf(root, numbers, z) == k :: rows[z]) + (if KeyOf(root, numbers, x) == k then {rows[x]} else {})
  {
  }

  /** Entry `j` of the filed nodes holds exactly the nodes of one set, and its key's size counts them. */
  lemma BucketEntry(rows: seq<string>, root: seq<int>, numbers: seq<int>, groups: seq<Group>, groupOf: seq<int>, j: int)
    requires IsLabeling(root) && |rows| == |root| && |numbers| == |root| && Injective(numbers)
    requires Filed(rows, root, numbers, groups, |root|) && 0 <= j < |groups|
    requires |groupOf| == |root|
    requires forall i :: 0 <= i < |root| ==> 0 <= groupOf[i] < |groups| && groups[groupOf[i]].key == KeyOf(root, numbers, i)
    ensures NodesIn(groupOf, j) != {}
    ensures groups[j].rows == set z | z in NodesIn(groupOf, j) :: rows[z]
    ensures groups[j].key.size == |NodesIn(groupOf, j)|
  {
    var n := |root|;
    assert groups[j].key in KeysOf(groups);
    var y :| 0 <= y < n && KeyOf(root, numbers, y) == groups[j].key;
    assert y in NodesIn(groupOf, j);
    forall z | 0 <= z < n
      ensures groupOf[z] == j <==> KeyOf(root, numbers, z) == groups[j].key
    {
    }
    RowsAtEntry(groups, j);
    forall z | 0 <= z < n
      ensures z in NodesIn(groupOf, j) <==> root[z] == root[y]
    {
      SameKeySameRoot(root, numbers, z, y);
    }
    assert NodesIn(groupOf, j) == Members(root, root[y]);
  }

  /**
   * `groupOf` files each node under one entry of `groups`: two nodes share an
   * entry exactly when they share a root, every entry holds the rows of its
   * nodes, and its key's size counts them.
   */
  ghost predicate Buckets(rows: seq<string>, root: seq<int>, groups: seq<Group>, groupOf: seq<int>)
  {
    && |groupOf| == |rows| && |root| == |rows|
    && (forall i :: 0 <= i < |rows| ==> 0 <= groupOf[i] < |groups|)
    && (forall i, i2 :: 0 <= i < |rows| && 0 <= i2 < |rows| ==> (groupOf[i] == groupOf[i2] <==> root[i] == root[i2]))
    && (forall j :: 0 <= j < |groups| ==> NodesIn(groupOf, j) != {})
    && (forall j :: 0 <= j < |groups| ==> groups[j].rows == set z | z in NodesIn(groupOf, j) :: rows[z])
    && (forall j :: 0 <= j < |groups| ==> groups[j].key.size == |NodesIn(groupOf, j)|)
  }

  /** Every entry's key names the least node filed under it. */
  ghost predicate KeyedByLeastNode(groups: seq<Group>, groupOf: seq<int>)
  {
    forall j :: 0 <= j < |groups| ==>
      && groups[j].key.parentNumber in NodesIn(groupOf, j)
      && forall z :: z in NodesIn(groupOf, j) ==> groups[j].key.parentNumber <= z
  }

  /**
   * With nodes numbered by position, the root number in an entry's key is the
   * least position among the entry's nodes, because every root is least in its set.
   */
  lemma LeastNodeKeys(rows: seq<string>, root: seq<int>, groups: seq<Group>, groupOf: seq<int>)
    requires IsLabeling(root) && |root| == |rows| && RootsHaveLeastNumber(root, Singletons(|root|))
    requires Buckets(rows, root, groups, groupOf)
    requires forall i :: 0 <= i < |root| ==> groups[groupOf[i]].key == KeyOf(root, Singletons(|root|), i)
    ensures KeyedByLeastNode(groups, groupOf)
  {
    var numbers := Singletons(|root|);
    forall j | 0 <= j < |groups|
      ensures groups[j].key.parentNumber in NodesIn(groupOf, j)
      ensures forall z :: z in NodesIn(groupOf, j) ==> groups[j].key.parentNumber <= z
    {
      var z :| z in NodesIn(groupOf, j);
      var p := root[z];
      assert groups[j].key.parentNumber == numbers[p] == p;
      assert root[p] == p;
      assert groupOf[p] == groupOf[z];
      forall z' | z' in NodesIn(groupOf, j)
        ensures p <= z'
      {
        assert root[z'] == root[z];
        assert numbers[root[z']] <= numbers[z'];
      }
    }
  }

  /** Once every node is filed under its key, the entries are the buckets of the sets, each under its set's key. */
  lemma BucketsByRoot(rows: seq<string>, root: seq<int>, numbers: seq<int>, groups: seq<Group>) returns (groupOf: seq<int>)
    requires IsLabeling(root) && |rows| == |root| && |numbers| == |root| && Injective(numbers)
    requires Filed(rows, root, numbers, groups, |root|)
    ensures Buckets(rows, root, groups, groupOf)
    ensures forall i :: 0 <= i < |root| ==> groups[groupOf[i]].key == KeyOf(root, numbers, i)
  {
    var n := |root|;
    forall i | 0 <= i < n
      ensures KeyOf(root, numbers, i) in KeysOf(groups)
    {
    }
    groupOf := seq(n, i requires 0 <= i < n => IndexOfKey(groups, KeyOf(root, numbers, i)));
    forall i, i2 | 0 <= i < n && 0 <= i2 < n
      ensures groupOf[i] == groupOf[i2] <==> root[i] == root[i2]
    {
      SameKeySameRoot(root, numbers, i, i2);
    }
    forall j | 0 <= j < |groups|
      ensures NodesIn(groupOf, j) != {}
      ensures groups[j].rows == set z | z in NodesIn(groupOf, j) :: rows[z]
      ensures groups[j].key.size == |NodesIn(groupOf, j)|
    {
      BucketEntry(rows, root, numbers, groups, groupOf, j);
    }
  }

  /**
   * The bucketing loop of transformInputToResult: every node, in number order,
   * is filed with its row text under the key (size of its set, number of its root).
   */
  method BucketRows(f: Forest) returns (groups: seq<Group>, ghost groupOf: seq<int>)
    requires f.Valid() && f.numbers == Singletons(|f.rows|) && |f.rows| <= IntMax
    modifies f.parent
    ensures f.Valid() && f.root == old(f.root)
    ensures SortedGroups(groups) && Buckets(f.rows, f.root, groups, groupOf)
    ensures forall i :: 0 <= i < |f.rows| ==> groups[groupOf[i]].key == KeyOf(f.root, f.numbers, i)
    ensures KeyedByLeastNode(groups, groupOf)
  {
    assert Injective(f.numbers);
    groups := FileAll(f);
    groupOf := BucketsByRoot(f.rows, f.root, f.numbers, groups);
    LeastNodeKeys(f.rows, f.root, groups, groupOf);
  }

  /** The loop of BucketRows: files node after node with `Put`. */
  method FileAll(f: Forest) returns (groups: seq<Group>)
    requires f.Valid() && |f.rows| <= IntMax
    requires forall i :: 0 <= i < |f.numbers| ==> 0 <= f.numbers[i] <= IntMax
    modifies f.parent
    ensures f.Valid() && Filed(f.rows, f.root, f.numbers, groups, |f.rows|)
  {
    groups := [];
    assert Filed(f.rows, f.root, f.numbers, groups, 0);
    for x := 0 to |f.rows|
      invariant f.Valid()
      invariant Filed(f.rows, f.root, f.numbers, groups, x)
    {
      groups := FileNode(f, groups, x);
    }
  }

  /** One step of the bucketing loop: node `x` is filed under (size of its set, number of its root). */
  method FileNode(f: Forest, groups: seq<Group>, x: int) returns (groups': seq<Group>)
    requires f.Valid() && |f.rows| <= IntMax && 0 <= x < |f.rows|
    requires forall i :: 0 <= i < |f.numbers| ==> 0 <= f.numbers[i] <= IntMax
    requires Filed(f.rows, f.root, f.numbers, groups, x)
    modifies f.parent
    ensures f.Valid() && Filed(f.rows, f.root, f.numbers, groups', x + 1)
  {
    var s := f.Size(x);
    var r := f.Find(x);
    MembersBounded(f.root, f.root[x]);
    var key := Key(s, f.numbers[r]);
    FileOne(f.rows, f.root, f.numbers, groups, x);
    groups' := Put(groups, key, f.rows[x]);
  }

  /** unionNodesByDSU: the lists are processed in order, each by first-anchor unions. */
  method UnionNodesByDsu(f: Forest, lists: seq<seq<Element>>)
    requires f.Valid()
    requires forall k :: 0 <= k < |lists| ==> OwnersIn(lists[k], |f.rows|)
    modifies f, f.parent, f.size
    ensures f.Valid() && f.parent == old(f.parent) && f.size == old(f.size)
    ensures f.root == UnionAll(old(f.root), f.numbers, lists)
  {
    for k := 0 to |lists|
      invariant f.Valid() && f.parent == old(f.parent) && f.size == old(f.size)
      invariant UnionAll(f.root, f.numbers, lists[k..]) == UnionAll(old(f.root), f.numbers, lists)
    {
      assert lists[k..][1..] == lists[k + 1..];
      UniteByFirstAnchor(f, lists[k]);
    }
  }

  /** Processing the same list again and again gives what the first pass gave. */
  lemma {:induction false} RepeatedPassesSettled(root: seq<int>, numbers: seq<int>, pool: seq<Element>, m: nat)
    requires IsLabeling(root) && |numbers| == |root| && Injective(numbers) && OwnersIn(pool, |root|) && m >= 1
    ensures UnionAll(root, numbers, seq(m, _ => pool)) == FirstAnchorUnions(root, numbers, map[], pool)
  {
    var lists := seq(m, _ => pool);
    var first := FirstAnchorUnions(root, numbers, map[], pool);
    FirstAnchorUnionsJoin(root, numbers, map[], pool);
    assert lists[0] == pool;
    UnionAllSettled(first, numbers, lists[1..]);
  }

  /** Taking the rows of a set of nodes gives at most as many texts, and exactly as many when the texts are distinct. */
  lemma ImageCount(rows: seq<string>, s: set<int>)
    requires forall z :: z in s ==> 0 <= z < |rows|
    ensures |set z | z in s :: rows[z]| <= |s|
    ensures (forall a, b :: 0 <= a < |rows| && 0 <= b < |rows| && rows[a] == rows[b] ==> a == b) ==>
              |set z | z in s :: rows[z]| == |s|
  {
    ImageCountBelow(rows, s, |rows|);
    assert (set z | z in s && z < |rows|) == s;
    assert (set z | z in s && z < |rows| :: rows[z]) == (set z | z in s :: rows[z]);
  }

  lemma {:induction false} ImageCountBelow(rows: seq<string>, s: set<int>, n: nat)
    requires forall z :: z in s ==> 0 <= z < |rows|
    requires n <= |rows|
    ensures |set z | z in s && z < n :: rows[z]| <= |set z | z in s && z < n|
    ensures (forall a, b :: 0 <= a < |rows| && 0 <= b < |rows| && rows[a] == rows[b] ==> a == b) ==>
              |set z | z in s && z < n :: rows[z]| == |set z | z in s && z < n|
  {
    var below := set z | z in s && z < n;
    var image := set z | z in s && z < n :: rows[z];
    if n == 0 {
      assert below == {} && image == {};
    } else {
      ImageCountBelow(rows, s, n - 1);
      var below' := set z | z in s && z < n - 1;
      var image' := set z | z in s && z < n - 1 :: rows[z];
      if n - 1 in s {
        assert below == below' + {n - 1};
        assert image == image' + {rows[n - 1]};
        if forall a, b :: 0 <= a < |rows| && 0 <= b < |rows| && rows[a] == rows[b] ==> a == b {
          assert rows[n - 1] !in image';
        }
      } else {
        assert below == below';
        assert image == image';
      }
    }
  }
}
