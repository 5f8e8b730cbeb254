/**
 * org.grunskii.Backend: the working pipeline. Lines are filtered by the quote
 * test and stored, trimmed and re-joined, in a set; every stored row gets a
 * node numbered in the set's iteration order; the non-blank fields of every
 * row go into one list that all fifteen column slots share (they are copies
 * of one ArrayList); the list is processed by first-anchor unions once per
 * slot; and the rows are bucketed by (size of the set, number of its root).
 */
module Backend {
  import opened Partition
  import opened UnionFind
  import opened Text
  import opened Grouping

  /** MAX_COLUMNS_COUNT: the number of column slots. */
  const MaxColumnsCount: int := 15

  /** loadFile's test of one raw line: every piece, trimmed, passes the field test. */
  predicate IsKept(line: string)
  {
    IsCorrectRow(TrimAll(SplitLine(line)))
  }

  /** A line is kept exactly when every piece of it, trimmed, is a quoted value with no quote inside. */
  lemma IsKeptMeaning(line: string)
    ensures IsKept(line) <==> forall k :: 0 <= k < |SplitLine(line)| ==> ValidField(Trim(SplitLine(line)[k]))
  {
    IsCorrectRowMeaning(TrimAll(SplitLine(line)));
  }

  /** The text a kept line is stored as: its trimmed pieces joined by the delimiter. */
  function Canonical(line: string): string
  {
    Join(TrimAll(SplitLine(line)))
  }

  /**
   * loadFile without the file read: the stored rows are the canonical texts of
   * the kept lines, so lines with equal canonical text become one row.
   */
  method LoadFile(lines: seq<string>) returns (result: set<string>)
    ensures result == set k | 0 <= k < |lines| && IsKept(lines[k]) :: Canonical(lines[k])
  {
    result := {};
    for k := 0 to |lines|
      invariant result == KeptTexts(lines, k)
    {
      var row := TrimAll(SplitLine(lines[k]));
      var isCorrectRow := IsCorrectRow(row);
      if isCorrectRow {
        result := result + {Join(row)};
      }
      KeptTextsStep(lines, k);
    }
  }

  /** The canonical texts of the kept lines among the first `k`. */
  ghost function KeptTexts(lines: seq<string>, k: int): set<string>
    requires 0 <= k <= |lines|
  {
    set m | 0 <= m < k && IsKept(lines[m]) :: Canonical(lines[m])
  }

  lemma KeptTextsStep(lines: seq<string>, k: int)
    requires 0 <= k < |lines|
    ensures KeptTexts(lines, k + 1) == KeptTexts(lines, k) + if IsKept(lines[k]) then {Canonical(lines[k])} else {}
  {
  }

  /**
   * A kept line with at least one piece is stored in a form the loader would
   * keep again unchanged: splitting the stored text gives back the trimmed pieces.
   */
  lemma CanonicalIsStable(line: string)
    requires IsKept(line) && SplitLine(line) != []
    ensures SplitLine(Canonical(line)) == TrimAll(SplitLine(line))
    ensures IsKept(Canonical(line)) && Canonical(Canonical(line)) == Canonical(line)
  {
    SplitLinePieces(line);
    CorrectRowSplitsBack(SplitLine(line));
    TrimAllIdempotent(SplitLine(line));
  }

  /**
   * A line made only of the delimiter has no pieces, passes the test, and is
   * stored as the empty text, whose one empty field the index loop throws on.
   */
  lemma DelimiterOnlyLine()
    ensures SplitLine(";") == [] && IsKept(";") && Canonical(";") == ""
    ensures SplitLine("") == [""] && RowCrashes(SplitLine(Canonical(";")))
  {
    assert Split([]) == [""];
    assert Split(";") == [""] + Split([]);
    assert FieldCrashes(SplitLine("")[0], 0);
  }

  /** A value the index takes: a field of at least two characters whose inner text is not blank. */
  predicate Indexed(field: string)
  {
    |field| >= 2 && !IsBlank(Inner(field))
  }

  /**
   * A field the index loop throws on: substring(1, length - 1) needs at least two
   * characters, and a non-blank value past the last slot has no list to go to.
   */
  predicate FieldCrashes(field: string, column: int)
  {
    |field| < 2 || (!IsBlank(Inner(field)) && column >= MaxColumnsCount)
  }

  ghost predicate RowCrashes(fields: seq<string>)
  {
    exists c :: 0 <= c < |fields| && FieldCrashes(fields[c], c)
  }

  /** Puts `prefix` in front of a successful list; a failure stays as it is. */
  function Prepend(prefix: seq<Element>, r: Result<seq<Element>>): Result<seq<Element>>
  {
    match r
    case Success(es) => Success(prefix + es)
    case Failure(e) => Failure(e)
  }

  /** The index entries of one row from column `c` on, or the exception the first offending field raises. */
  function RowEntries(fields: seq<string>, owner: nat, c: nat): Result<seq<Element>>
    decreases |fields| - c
  {
    if c >= |fields| then Success([])
    else if |fields[c]| < 2 then Failure(StringIndexOutOfBounds)
    else if IsBlank(Inner(fields[c])) then RowEntries(fields, owner, c + 1)
    else if c >= MaxColumnsCount then Failure(IndexOutOfBounds)
    else Prepend([Element(fields[c], owner)], RowEntries(fields, owner, c + 1))
  }

  /** The pieces of every stored row, in node order. */
  function Pieces(texts: seq<string>): seq<seq<string>>
  {
    seq(|texts|, i requires 0 <= i < |texts| => SplitLine(texts[i]))
  }

  /** The shared list after the first `k` rows, or the exception raised on the way. */
  function Index(rows: seq<seq<string>>, k: nat): Result<seq<Element>>
    requires k <= |rows|
  {
    if k == 0 then Success([])
    else match Index(rows, k - 1)
      case Failure(e) => Failure(e)
      case Success(es) => Prepend(es, RowEntries(rows[k - 1], k - 1, 0))
  }

  /** Fifteen column slots that all hold the same list. */
  function Slots(pool: seq<Element>): (r: seq<seq<Element>>)
    ensures |r| == MaxColumnsCount && forall k :: 0 <= k < |r| ==> r[k] == pool
  {
    seq(MaxColumnsCount, _ => pool)
  }

  /** getColumnWordsMap's result: fifteen slots that all hold the one shared list. */
  function ColumnSlots(texts: seq<string>): Result<seq<seq<Element>>>
  {
    match Index(Pieces(texts), |texts|)
    case Success(pool) => Success(Slots(pool))
    case Failure(e) => Failure(e)
  }

  /** The sets that unionNodesByDSU leaves when it runs over the fifteen slots of the shared list, starting from singletons. */
  ghost function Merged(n: nat, pool: seq<Element>): (R: seq<int>)
    requires OwnersIn(pool, n)
    ensures |R| == n && IsLabeling(R)
  {
    UnionAll(Singletons(n), Singletons(n), Slots(pool))
  }

  /** A row fails exactly when one of its fields from column `c` on crashes. */
  lemma {:induction false} RowEntriesFails(fields: seq<string>, owner: nat, c: nat)
    requires c <= |fields|
    ensures RowEntries(fields, owner, c).Failure? <==> exists d :: c <= d < |fields| && FieldCrashes(fields[d], d)
    decreases |fields| - c
  {
    if c < |fields| {
      RowEntriesFails(fields, owner, c + 1);
    }
  }

  /** Every entry of a row is one of its indexed fields from column `c` on. */
  lemma {:induction false} RowEntryFrom(fields: seq<string>, owner: nat, c: nat, e: Element) returns (d: int)
    requires c <= |fields| && RowEntries(fields, owner, c).Success? && e in RowEntries(fields, owner, c).value
    ensures c <= d < |fields| && e == Element(fields[d], owner) && Indexed(fields[d])
    decreases |fields| - c
  {
    if |fields[c]| >= 2 && !IsBlank(Inner(fields[c])) && e == Element(fields[c], owner) {
      d := c;
    } else {
      d := RowEntryFrom(fields, owner, c + 1, e);
    }
  }

  /** Every indexed field of a row from column `c` on is one of its entries. */
  lemma {:induction false} RowHasEntry(fields: seq<string>, owner: nat, c: nat, d: int)
    requires c <= d < |fields| && RowEntries(fields, owner, c).Success? && Indexed(fields[d])
    ensures Element(fields[d], owner) in RowEntries(fields, owner, c).value
    decreases |fields| - c
  {
    if c < d {
      RowHasEntry(fields, owner, c + 1, d);
    }
  }

  /** The index fails exactly when one of the rows read so far crashes. */
  lemma {:induction false} IndexFails(rows: seq<seq<string>>, k: nat)
    requires k <= |rows|
    ensures Index(rows, k).Failure? <==> exists i :: 0 <= i < k && RowCrashes(rows[i])
  {
    if k > 0 {
      IndexFails(rows, k - 1);
      RowEntriesFails(rows[k - 1], k - 1, 0);
    }
  }

  /** Every entry of the index is an indexed field of a row read so far, owned by that row. */
  lemma {:induction false} IndexEntryFrom(rows: seq<seq<string>>, k: nat, e: Element) returns (i: int, c: int)
    requires k <= |rows| && Index(rows, k).Success? && e in Index(rows, k).value
    ensures 0 <= i < k && 0 <= c < |rows[i]| && e == Element(rows[i][c], i) && Indexed(rows[i][c])
  {
    IndexGrows(rows, k);
    if e in Index(rows, k - 1).value {
      i, c := IndexEntryFrom(rows, k - 1, e);
    } else {
      i := k - 1;
      c := RowEntryFrom(rows[k - 1], k - 1, 0, e);
    }
  }

  /** Every indexed field of a row read so far is an entry of the index, owned by that row. */
  lemma {:induction false} IndexHasEntry(rows: seq<seq<string>>, k: nat, i: int, c: int)
    requires 0 <= i < k <= |rows| && Index(rows, k).Success?
    requires 0 <= c < |rows[i]| && Indexed(rows[i][c])
    ensures Element(rows[i][c], i) in Index(rows, k).value
  {
    IndexGrows(rows, k);
    if i < k - 1 {
      IndexHasEntry(rows, k - 1, i, c);
    } else {
      RowHasEntry(rows[k - 1], k - 1, 0, c);
    }
  }

  /** A successful index is the index of the earlier rows followed by the last row's entries. */
  lemma IndexGrows(rows: seq<seq<string>>, k: nat)
    requires 0 < k <= |rows| && Index(rows, k).Success?
    ensures Index(rows, k - 1).Success? && RowEntries(rows[k - 1], k - 1, 0).Success?
    ensures Index(rows, k).value == Index(rows, k - 1).value + RowEntries(rows[k - 1], k - 1, 0).value
  {
  }

  /** Every entry of the index belongs to one of the rows read so far. */
  lemma IndexOwners(rows: seq<seq<string>>, k: nat)
    requires k <= |rows| && Index(rows, k).Success?
    ensures OwnersIn(Index(rows, k).value, k)
  {
    var pool := Index(rows, k).value;
    forall j | 0 <= j < |pool|
      ensures pool[j].owner < k
    {
      var i, c := IndexEntryFrom(rows, k, pool[j]);
    }
  }

  /** Once the index has failed, later rows do not change the outcome. */
  lemma {:induction false} IndexStaysFailed(rows: seq<seq<string>>, k: nat, m: nat)
    requires k <= m <= |rows| && Index(rows, k).Failure?
    ensures Index(rows, m) == Index(rows, k)
    decreases m - k
  {
    if k < m {
      IndexStaysFailed(rows, k + 1, m);
    }
  }

  /**
   * getColumnWordsMap: every field of every row, in row order and column order,
   * either raises the exception of the first offending field, is skipped when its
   * inner text is blank, or is added, quotes and all, to the one shared list.
   */
  method ColumnWordsMap(texts: seq<string>) returns (res: Result<seq<seq<Element>>>)
    ensures res == ColumnSlots(texts)
  {
    ghost var rows := Pieces(texts);
    var pool: seq<Element> := [];
    for i := 0 to |texts|
      invariant Index(rows, i) == Success(pool)
    {
      var next := IndexRow(pool, SplitLine(texts[i]), i);
      IndexStep(rows, i, pool);
      if next.Failure? {
        IndexStaysFailed(rows, i + 1, |rows|);
        return Failure(next.error);
      }
      pool := next.value;
    }
    res := Success(Slots(pool));
  }

  lemma IndexStep(rows: seq<seq<string>>, k: nat, pool: seq<Element>)
    requires k < |rows| && Index(rows, k) == Success(pool)
    ensures Index(rows, k + 1) == Prepend(pool, RowEntries(rows[k], k, 0))
  {
  }

  /** The inner loop of getColumnWordsMap over the fields of one row. */
  method IndexRow(pool: seq<Element>, row: seq<string>, owner: nat) returns (res: Result<seq<Element>>)
    ensures res == Prepend(pool, RowEntries(row, owner, 0))
  {
    var acc := pool;
    var column := 0;
    while column < |row|
      invariant 0 <= column <= |row|
      invariant Prepend(pool, RowEntries(row, owner, 0)) == Prepend(acc, RowEntries(row, owner, column))
    {
      if |row[column]| < 2 {
        return Failure(StringIndexOutOfBounds);
      }
      if IsBlank(Inner(row[column])) {
        column := column + 1;
        continue;
      }
      if column >= MaxColumnsCount {
        return Failure(IndexOutOfBounds);
      }
      var rest := RowEntries(row, owner, column + 1);
      if rest.Success? {
        assert acc + ([Element(row[column], owner)] + rest.value) == (acc + [Element(row[column], owner)]) + rest.value;
      }
      acc := acc + [Element(row[column], owner)];
      column := column + 1;
    }
    res := Success(acc);
    assert acc + [] == acc;
  }

  /** No two positions hold the same text. */
  ghost predicate Distinct(rows: seq<string>)
  {
    forall a, b :: 0 <= a < |rows| && 0 <= b < |rows| && rows[a] == rows[b] ==> a == b
  }

  /**
   * getNodes: one node per stored row, numbered 0, 1, ... in the set's
   * iteration order, which the model leaves arbitrary.
   */
  method GetNodes(input: set<string>) returns (f: Forest)
    ensures f.Valid() && fresh(f) && fresh(f.parent) && fresh(f.size)
    ensures |f.rows| == |input| && Distinct(f.rows) && forall t :: t in input <==> t in f.rows
    ensures f.numbers == Singletons(|f.rows|) && f.root == Singletons(|f.rows|)
    ensures forall i :: 0 <= i < |f.rows| ==> f.parent[i] == Null && f.size[i] == 1
  {
    var order: seq<string> := [];
    var remaining := input;
    while remaining != {}
      invariant |order| + |remaining| == |input| && Distinct(order)
      invariant forall t :: t in input <==> t in order || t in remaining
      invariant forall t :: t in order ==> t !in remaining
      decreases |remaining|
    {
      var row :| row in remaining;
      order := order + [row];
      remaining := remaining - {row};
    }
    f := new Forest(order, Singletons(|order|));
  }

  /**
   * Two stored rows share a value: one quoted field with a non-blank inner text
   * occurs in both, in any columns, since all column slots share one list.
   */
  ghost predicate SharesValue(t: string, u: string)
  {
    SharesField(SplitLine(t), SplitLine(u))
  }

  /** Two stored rows share a value exactly when their pieces hold an indexed field in common. */
  lemma PiecesShare(order: seq<string>, i: int, i2: int)
    requires 0 <= i < |order| && 0 <= i2 < |order|
    ensures SharesValue(order[i], order[i2]) <==> SharesField(Pieces(order)[i], Pieces(order)[i2])
  {
    assert Pieces(order)[i] == SplitLine(order[i]) && Pieces(order)[i2] == SplitLine(order[i2]);
  }

  /** Two rows of pieces hold one indexed field in common, in any columns. */
  ghost predicate SharesField(r: seq<string>, s: seq<string>)
  {
    exists c, d :: 0 <= c < |r| && 0 <= d < |s| && r[c] == s[d] && Indexed(r[c])
  }

  /** `L` gives rows that share a value the same label. */
  ghost predicate RespectsSharing(L: map<string, int>, input: set<string>)
  {
    input <= L.Keys && forall t, u :: t in input && u in input && SharesValue(t, u) ==> L[t] == L[u]
  }

  /** Every row of `input` is in exactly one group, and every group is a non-empty set of rows of `input`. */
  ghost predicate Partitions(groups: seq<Group>, input: set<string>)
  {
    && (forall t :: t in input ==> exists j :: 0 <= j < |groups| && t in groups[j].rows)
    && (forall j, j2, t :: 0 <= j < |groups| && 0 <= j2 < |groups| && t in groups[j].rows && t in groups[j2].rows ==> j == j2)
    && (forall j :: 0 <= j < |groups| ==> groups[j].rows != {} && groups[j].rows <= input)
  }

  /** A row sharing a value with a member of a group is in that group. */
  ghost predicate ClosedUnderSharing(groups: seq<Group>, input: set<string>)
  {
    forall j, t, u :: 0 <= j < |groups| && t in groups[j].rows && u in input && SharesValue(t, u) ==> u in groups[j].rows
  }

  /** `L` labels all members of a group alike. */
  ghost predicate RespectedBy(groups: seq<Group>, L: map<string, int>)
  {
    forall j, t, u :: 0 <= j < |groups| && t in groups[j].rows && u in groups[j].rows && t in L && u in L ==> L[t] == L[u]
  }

  /** The merged sets give equal entries of the shared list one set. */
  lemma MergedAgrees(n: nat, pool: seq<Element>)
    requires OwnersIn(pool, n)
    ensures AgreesOnValues(Merged(n, pool), pool)
  {
    UnionAllJoins(Singletons(n), Singletons(n), Slots(pool));
    assert Slots(pool)[0] == pool;
  }

  /** A value two rows share sits in the shared list once for each of them. */
  lemma SharedValueEntries(rows: seq<seq<string>>, pool: seq<Element>, i: int, i2: int) returns (k: int, l: int)
    requires Index(rows, |rows|) == Success(pool)
    requires 0 <= i < |rows| && 0 <= i2 < |rows| && SharesField(rows[i], rows[i2])
    ensures 0 <= k < |pool| && 0 <= l < |pool| && pool[k].data == pool[l].data
    ensures pool[k].owner == i && pool[l].owner == i2
  {
    var c, d :| 0 <= c < |rows[i]| && 0 <= d < |rows[i2]| && rows[i][c] == rows[i2][d] && Indexed(rows[i][c]);
    var v := rows[i][c];
    IndexHasEntry(rows, |rows|, i, c);
    IndexHasEntry(rows, |rows|, i2, d);
    k :| 0 <= k < |pool| && pool[k] == Element(v, i);
    l :| 0 <= l < |pool| && pool[l] == Element(v, i2);
  }

  /** Nodes whose rows share a value end in one set. */
  lemma SharersJoined(rows: seq<seq<string>>, pool: seq<Element>, i: int, i2: int)
    requires Index(rows, |rows|) == Success(pool) && OwnersIn(pool, |rows|)
    requires 0 <= i < |rows| && 0 <= i2 < |rows| && SharesField(rows[i], rows[i2])
    ensures Merged(|rows|, pool)[i] == Merged(|rows|, pool)[i2]
  {
    var k, l := SharedValueEntries(rows, pool, i, i2);
    MergedAgrees(|rows|, pool);
  }

  /** The sets merge only rows that every labeling respecting the sharing relation labels alike. */
  lemma SetsRespectSharing(order: seq<string>, input: set<string>, pool: seq<Element>, L: map<string, int>)
    requires Index(Pieces(order), |order|) == Success(pool) && OwnersIn(pool, |order|)
    requires forall i :: 0 <= i < |order| ==> order[i] in input
    requires RespectsSharing(L, input)
    ensures forall i, i2 :: 0 <= i < |order| && 0 <= i2 < |order| && Merged(|order|, pool)[i] == Merged(|order|, pool)[i2] ==>
              L[order[i]] == L[order[i2]]
  {
    var n := |order|;
    var labels := seq(n, i requires 0 <= i < n => L[order[i]]);
    SharingLabels(order, input, L, labels);
    LabelsAgree(Pieces(order), pool, labels);
    MergedRefines(n, pool, labels);
  }

  /** Labels that agree on equal entries of the shared list are constant on every merged set. */
  lemma MergedRefines(n: nat, pool: seq<Element>, labels: seq<int>)
    requires OwnersIn(pool, n) && |labels| == n && AgreesOnValues(labels, pool)
    ensures forall i, i2 :: 0 <= i < n && 0 <= i2 < n && Merged(n, pool)[i] == Merged(n, pool)[i2] ==> labels[i] == labels[i2]
  {
    assert Refines(Singletons(n), labels);
    UnionAllRefines(Singletons(n), Singletons(n), Slots(pool), labels);
  }

  /** A labeling that respects the sharing relation, read node by node, agrees on rows whose pieces share an indexed field. */
  lemma SharingLabels(order: seq<string>, input: set<string>, L: map<string, int>, labels: seq<int>)
    requires forall i :: 0 <= i < |order| ==> order[i] in input
    requires RespectsSharing(L, input)
    requires |labels| == |order| && forall i :: 0 <= i < |order| ==> labels[i] == L[order[i]]
    ensures forall i, i2 :: 0 <= i < |order| && 0 <= i2 < |order| && SharesField(Pieces(order)[i], Pieces(order)[i2]) ==>
              labels[i] == labels[i2]
  {
    forall i, i2 | 0 <= i < |order| && 0 <= i2 < |order| && SharesField(Pieces(order)[i], Pieces(order)[i2])
      ensures labels[i] == labels[i2]
    {
      PiecesShare(order, i, i2);
    }
  }

  /** Labels that agree on rows sharing an indexed field agree on equal entries of the shared list. */
  lemma LabelsAgree(rows: seq<seq<string>>, pool: seq<Element>, labels: seq<int>)
    requires Index(rows, |rows|) == Success(pool) && OwnersIn(pool, |rows|) && |labels| == |rows|
    requires forall i, i2 :: 0 <= i < |rows| && 0 <= i2 < |rows| && SharesField(rows[i], rows[i2]) ==> labels[i] == labels[i2]
    ensures AgreesOnValues(labels, pool)
  {
    forall k, l | 0 <= k < |pool| && 0 <= l < |pool| && pool[k].data == pool[l].data
      ensures labels[pool[k].owner] == labels[pool[l].owner]
    {
      SameDataShares(rows, pool, k, l);
    }
  }

  /** Two entries of the shared list with equal data come from rows that share a value. */
  lemma SameDataShares(rows: seq<seq<string>>, pool: seq<Element>, k: int, l: int)
    requires Index(rows, |rows|) == Success(pool)
    requires 0 <= k < |pool| && 0 <= l < |pool| && pool[k].data == pool[l].data
    ensures pool[k].owner < |rows| && pool[l].owner < |rows|
    ensures SharesField(rows[pool[k].owner], rows[pool[l].owner])
  {
    var i, c := IndexEntryFrom(rows, |rows|, pool[k]);
    var i2, d := IndexEntryFrom(rows, |rows|, pool[l]);
  }

  /**
   * transformInputToResult. It raises an exception exactly when some stored row
   * has a field shorter than two characters or a non-blank field past the
   * fifteenth column. Otherwise the groups come in comparator order, partition
   * the rows, each hold as many rows as their key's size, never split two rows
   * that share a value, and never join two rows that no chain of shared values
   * connects. The ghost `order` is the enumeration getNodes numbers the rows by;
   * each group's key carries the position of its first row in it.
   */
  method TransformInputToResult(input: set<string>) returns (res: Result<seq<Group>>, ghost order: seq<string>)
    requires |input| <= IntMax
    ensures |order| == |input| && Distinct(order) && forall t :: t in input <==> t in order
    ensures res.Failure? <==> exists t :: t in input && RowCrashes(SplitLine(t))
    ensures res.Success? ==> SortedGroups(res.value) && Partitions(res.value, input)
    ensures res.Success? ==> forall j :: 0 <= j < |res.value| ==> |res.value[j].rows| == res.value[j].key.size
    ensures res.Success? ==> ClosedUnderSharing(res.value, input)
    ensures res.Success? ==> forall L :: RespectsSharing(L, input) ==> RespectedBy(res.value, L)
    ensures res.Success? ==> (res.value == [] <==> input == {})
    ensures res.Success? ==> KeyedByFirstRow(order, res.value)
  {
    var f := GetNodes(input);
    order := f.rows;
    var n := |f.rows|;
    var slots := ColumnWordsMap(f.rows);
    CrashesInSomeRow(f.rows, input);
    if slots.Failure? {
      return Failure(slots.error), order;
    }
    ghost var pool := Index(Pieces(f.rows), n).value;
    IndexOwners(Pieces(f.rows), n);
    var groups := GroupRows(f, input, slots.value, pool);
    res := Success(groups);
  }

  /** The union passes and the bucketing of transformInputToResult, once the index is built. */
  method GroupRows(f: Forest, input: set<string>, slots: seq<seq<Element>>, ghost pool: seq<Element>)
    returns (groups: seq<Group>)
    requires f.Valid() && |f.rows| <= IntMax && Distinct(f.rows) && (forall t :: t in input <==> t in f.rows)
    requires f.numbers == Singletons(|f.rows|) && f.root == Singletons(|f.rows|)
    requires Index(Pieces(f.rows), |f.rows|) == Success(pool) && OwnersIn(pool, |f.rows|) && slots == Slots(pool)
    modifies f, f.parent, f.size
    ensures SortedGroups(groups) && Partitions(groups, input)
    ensures forall j :: 0 <= j < |groups| ==> |groups[j].rows| == groups[j].key.size
    ensures ClosedUnderSharing(groups, input)
    ensures forall L :: RespectsSharing(L, input) ==> RespectedBy(groups, L)
    ensures groups == [] <==> input == {}
    ensures KeyedByFirstRow(f.rows, groups)
  {
    UnionNodesByDsu(f, slots);
    assert f.root == UnionAll(Singletons(|f.rows|), Singletons(|f.rows|), slots);
    ghost var groupOf;
    groups, groupOf := BucketRows(f);
    TextGroups(f.rows, input, pool, slots, f.root, groups, groupOf);
    TextGroupsKeyed(f.rows, f.root, groups, groupOf);
  }

  /** What the buckets of the merged sets say about the stored rows. */
  lemma TextGroups(order: seq<string>, input: set<string>, pool: seq<Element>, slots: seq<seq<Element>>, R: seq<int>,
                   groups: seq<Group>, groupOf: seq<int>)
    requires Distinct(order) && (forall t :: t in input <==> t in order)
    requires Index(Pieces(order), |order|) == Success(pool) && OwnersIn(pool, |order|)
    requires slots == Slots(pool) && R == UnionAll(Singletons(|order|), Singletons(|order|), slots)
    requires Buckets(order, R, groups, groupOf)
    ensures Partitions(groups, input)
    ensures forall j :: 0 <= j < |groups| ==> |groups[j].rows| == groups[j].key.size
    ensures ClosedUnderSharing(groups, input)
    ensures forall L :: RespectsSharing(L, input) ==> RespectedBy(groups, L)
    ensures groups == [] <==> input == {}
  {
    TextGroupsPartition(order, input, R, groups, groupOf);
    TextGroupsClosed(order, input, pool, R, groups, groupOf);
    forall L | RespectsSharing(L, input)
      ensures RespectedBy(groups, L)
    {
      TextGroupsRespected(order, input, pool, R, groups, groupOf, L);
    }
  }

  /** The index fails exactly when some stored row crashes, whatever order the rows are enumerated in. */
  lemma CrashesInSomeRow(order: seq<string>, input: set<string>)
    requires forall t :: t in input <==> t in order
    ensures Index(Pieces(order), |order|).Failure? <==> exists t :: t in input && RowCrashes(SplitLine(t))
  {
    var rows := Pieces(order);
    IndexFails(rows, |order|);
    if Index(rows, |order|).Failure? {
      var i :| 0 <= i < |order| && RowCrashes(rows[i]);
      assert rows[i] == SplitLine(order[i]) && order[i] in input;
    }
    if exists t :: t in input && RowCrashes(SplitLine(t)) {
      var t :| t in input && RowCrashes(SplitLine(t));
      var i :| 0 <= i < |order| && order[i] == t;
      assert rows[i] == SplitLine(t);
    }
  }

  /** A text in a group is the text of a node of that group. */
  lemma GroupMember(order: seq<string>, R: seq<int>, groups: seq<Group>, groupOf: seq<int>, j: int, t: string)
    returns (z: int)
    requires Buckets(order, R, groups, groupOf)
    requires 0 <= j < |groups| && t in groups[j].rows
    ensures 0 <= z < |order| && order[z] == t && groupOf[z] == j
  {
    z :| z in NodesIn(groupOf, j) && order[z] == t;
  }

  /** The bucketed texts partition the stored rows, and each group holds as many texts as its key counts nodes. */
  lemma TextGroupsPartition(order: seq<string>, input: set<string>, R: seq<int>, groups: seq<Group>, groupOf: seq<int>)
    requires Distinct(order) && (forall t :: t in input <==> t in order)
    requires Buckets(order, R, groups, groupOf)
    ensures Partitions(groups, input)
    ensures forall j :: 0 <= j < |groups| ==> |groups[j].rows| == groups[j].key.size
    ensures groups == [] <==> input == {}
  {
    var n := |order|;
    forall t | t in input
      ensures exists j :: 0 <= j < |groups| && t in groups[j].rows
    {
      var z :| 0 <= z < n && order[z] == t;
      assert z in NodesIn(groupOf, groupOf[z]);
    }
    forall j, j2, t | 0 <= j < |groups| && 0 <= j2 < |groups| && t in groups[j].rows && t in groups[j2].rows
      ensures j == j2
    {
      var z := GroupMember(order, R, groups, groupOf, j, t);
      var z2 := GroupMember(order, R, groups, groupOf, j2, t);
    }
    forall j | 0 <= j < |groups|
      ensures groups[j].rows != {} && groups[j].rows <= input
      ensures |groups[j].rows| == groups[j].key.size
    {
      var z :| z in NodesIn(groupOf, j);
      assert order[z] in groups[j].rows;
      ImageCount(order, NodesIn(groupOf, j));
    }
    if |groups| > 0 {
      var z :| z in NodesIn(groupOf, 0);
      assert order[z] in input;
    }
  }

  /** A row sharing a value with a member of a group is in that group. */
  lemma TextGroupsClosed(order: seq<string>, input: set<string>, pool: seq<Element>, R: seq<int>, groups: seq<Group>, groupOf: seq<int>)
    requires forall t :: t in input <==> t in order
    requires Index(Pieces(order), |order|) == Success(pool) && OwnersIn(pool, |order|)
    requires R == Merged(|order|, pool)
    requires Buckets(order, R, groups, groupOf)
    ensures ClosedUnderSharing(groups, input)
  {
    forall j, t, u | 0 <= j < |groups| && t in groups[j].rows && u in input && SharesValue(t, u)
      ensures u in groups[j].rows
    {
      var z := GroupMember(order, R, groups, groupOf, j, t);
      var z2 :| 0 <= z2 < |order| && order[z2] == u;
      PiecesShare(order, z, z2);
      SharersJoined(Pieces(order), pool, z, z2);
      assert z2 in NodesIn(groupOf, j);
    }
  }

  /** Every labeling that respects the sharing relation labels the members of each group alike. */
  lemma TextGroupsRespected(order: seq<string>, input: set<string>, pool: seq<Element>, R: seq<int>, groups: seq<Group>, groupOf: seq<int>, L: map<string, int>)
    requires forall t :: t in input <==> t in order
    requires Index(Pieces(order), |order|) == Success(pool) && OwnersIn(pool, |order|)
    requires R == Merged(|order|, pool)
    requires Buckets(order, R, groups, groupOf)
    requires RespectsSharing(L, input)
    ensures RespectedBy(groups, L)
  {
    SetsRespectSharing(order, input, pool, L);
    forall j, t, u | 0 <= j < |groups| && t in groups[j].rows && u in groups[j].rows && t in L && u in L
      ensures L[t] == L[u]
    {
      var z := GroupMember(order, R, groups, groupOf, j, t);
      var z2 := GroupMember(order, R, groups, groupOf, j, u);
    }
  }

  /** Every group's key names the first position, in the node enumeration `order`, of any of its rows. */
  ghost predicate KeyedByFirstRow(order: seq<string>, groups: seq<Group>)
  {
    forall j :: 0 <= j < |groups| ==>
      && 0 <= groups[j].key.parentNumber < |order|
      && order[groups[j].key.parentNumber] in groups[j].rows
      && forall q :: 0 <= q < |order| && order[q] in groups[j].rows ==> groups[j].key.parentNumber <= q
  }

  /** With distinct row texts, keying each bucket by its least node keys each group by its first row. */
  lemma TextGroupsKeyed(order: seq<string>, R: seq<int>, groups: seq<Group>, groupOf: seq<int>)
    requires Distinct(order) && Buckets(order, R, groups, groupOf) && KeyedByLeastNode(groups, groupOf)
    ensures KeyedByFirstRow(order, groups)
  {
    forall j | 0 <= j < |groups|
      ensures 0 <= groups[j].key.parentNumber < |order| && order[groups[j].key.parentNumber] in groups[j].rows
      ensures forall q :: 0 <= q < |order| && order[q] in groups[j].rows ==> groups[j].key.parentNumber <= q
    {
      var p := groups[j].key.parentNumber;
      assert p in NodesIn(groupOf, j);
      forall q | 0 <= q < |order| && order[q] in groups[j].rows
        ensures p <= q
      {
        var z := GroupMember(order, R, groups, groupOf, j, order[q]);
        assert z == q;
      }
    }
  }

  /** The fifteen passes over the shared list leave the sets as the first pass left them. */
  lemma FifteenPassesAreOne(n: nat, pool: seq<Element>)
    requires OwnersIn(pool, n)
    ensures Merged(n, pool) == FirstAnchorUnions(Singletons(n), Singletons(n), map[], pool)
  {
    RepeatedPassesSettled(Singletons(n), Singletons(n), pool, MaxColumnsCount);
  }
}
