/**
 * org.example.Backend: the earlier draft of the pipeline. Kept lines stay in
 * a list as their untrimmed pieces, duplicates included; node `i` holds the
 * joined row `i`; every column position gets its own list of dequoted values
 * in row order, blanks included; each column list is processed by
 * first-anchor unions; and the nodes are bucketed as in the working version.
 *
 * As written, the column index throws on its first insert (line 130), so the
 * model keeps that behaviour in ColumnIndexAsWritten and builds the rest of
 * the pipeline on the evidently intended per-column map, ColumnIndex.
 */
module DraftBackend {
  import opened Partition
  import opened UnionFind
  import opened Text
  import opened Grouping
  import Backend

  // ---------------------------------------------------------------- loadFile

  /** The rows `rowOf` makes of the lines among the first `k` that `keep` accepts, in line order. */
  function Select(lines: seq<string>, keep: string -> bool, rowOf: string -> seq<string>, k: nat): seq<seq<string>>
    requires k <= |lines|
  {
    if k == 0 then []
    else Select(lines, keep, rowOf, k - 1) + if keep(lines[k - 1]) then [rowOf(lines[k - 1])] else []
  }

  /** The positions among the first `k` lines that `keep` accepts. */
  ghost function Accepted(lines: seq<string>, keep: string -> bool, k: nat): set<nat>
    requires k <= |lines|
  {
    set m | 0 <= m < k && keep(lines[m])
  }

  /** The rows loadFile keeps among the first `k` lines: the untrimmed pieces of each kept line, in file order. */
  function KeptRows(lines: seq<string>, k: nat): seq<seq<string>>
    requires k <= |lines|
  {
    Select(lines, Backend.IsKept, SplitLine, k)
  }

  /** The first `c` pieces of `row` pass the field test once trimmed. */
  ghost predicate ValidPrefix(row: seq<string>, c: int)
    requires 0 <= c <= |row|
  {
    forall d :: 0 <= d < c ==> ValidField(Trim(row[d]))
  }

  /** The inner loop of loadFile: the flag stays set until a trimmed piece fails the test, and the loop stops there. */
  method RowIsCorrect(row: seq<string>) returns (isCorrectRow: bool)
    ensures isCorrectRow == IsCorrectRow(TrimAll(row))
  {
    isCorrectRow := true;
    var c := 0;
    while c < |row|
      invariant 0 <= c <= |row| && ValidPrefix(row, c)
    {
      var column := Trim(row[c]);
      if |column| < 2 || column[0] != QuoteChar || column[|column| - 1] != QuoteChar || QuoteChar in Inner(column) {
        isCorrectRow := false;
        assert TrimAll(row)[c] == column;
        break;
      }
      c := c + 1;
    }
    IsCorrectRowMeaning(TrimAll(row));
  }

  /** loadFile without the file read: the kept lines' pieces, untrimmed, one row per kept line. */
  method LoadFile(lines: seq<string>) returns (result: seq<seq<string>>)
    ensures result == KeptRows(lines, |lines|)
  {
    result := [];
    for k := 0 to |lines|
      invariant result == KeptRows(lines, k)
    {
      var row := SplitLine(lines[k]);
      var isCorrectRow := RowIsCorrect(row);
      if isCorrectRow {
        result := result + [row];
      }
    }
  }

  /** A row is selected exactly for each accepted line. */
  lemma {:induction false} SelectMeaning(lines: seq<string>, keep: string -> bool, rowOf: string -> seq<string>, k: nat)
    requires k <= |lines|
    ensures forall r :: r in Select(lines, keep, rowOf, k) <==> exists m :: 0 <= m < k && keep(lines[m]) && r == rowOf(lines[m])
  {
    if k > 0 {
      SelectMeaning(lines, keep, rowOf, k - 1);
      var before := Select(lines, keep, rowOf, k - 1);
      if keep(lines[k - 1]) {
        assert Select(lines, keep, rowOf, k) == before + [rowOf(lines[k - 1])];
      } else {
        assert Select(lines, keep, rowOf, k) == before;
      }
    }
  }

  /** One row per accepted line: equal lines give equal rows, and each is kept. */
  lemma {:induction false} SelectCount(lines: seq<string>, keep: string -> bool, rowOf: string -> seq<string>, k: nat)
    requires k <= |lines|
    ensures |Select(lines, keep, rowOf, k)| == |Accepted(lines, keep, k)|
  {
    if k > 0 {
      SelectCount(lines, keep, rowOf, k - 1);
      if keep(lines[k - 1]) {
        assert Accepted(lines, keep, k) == Accepted(lines, keep, k - 1) + {k - 1};
      } else {
        assert Accepted(lines, keep, k) == Accepted(lines, keep, k - 1);
      }
    }
  }

  /**
   * A row is kept exactly for each kept line, as that line's pieces; unlike
   * the working version's set, the list holds one row per kept line, so
   * duplicate lines stay.
   */
  lemma KeptRowsMeaning(lines: seq<string>)
    ensures forall r :: r in KeptRows(lines, |lines|) <==> exists m :: 0 <= m < |lines| && Backend.IsKept(lines[m]) && r == SplitLine(lines[m])
    ensures |KeptRows(lines, |lines|)| == |Accepted(lines, Backend.IsKept, |lines|)|
  {
    SelectMeaning(lines, Backend.IsKept, SplitLine, |lines|);
    SelectCount(lines, Backend.IsKept, SplitLine, |lines|);
  }

  /** A field that passes the test once trimmed has at least two characters untrimmed, so dequoting it cannot throw. */
  lemma KeptRowsHaveNoShortField(lines: seq<string>)
    ensures !HasShortField(KeptRows(lines, |lines|), |KeptRows(lines, |lines|)|)
  {
    var rows := KeptRows(lines, |lines|);
    SelectMeaning(lines, Backend.IsKept, SplitLine, |lines|);
    forall i, c | 0 <= i < |rows| && 0 <= c < |rows[i]|
      ensures |rows[i][c]| >= 2
    {
      assert rows[i] in rows;
      var m :| 0 <= m < |lines| && Backend.IsKept(lines[m]) && rows[i] == SplitLine(lines[m]);
      IsCorrectRowMeaning(TrimAll(rows[i]));
      assert ValidField(TrimAll(rows[i])[c]);
      var _ := TrimShape(rows[i][c]);
    }
  }

  // ------------------------------------------------------ getColumnWordsMap

  /** One of the first `k` rows has a field shorter than two characters, which substring(1, length - 1) rejects. */
  ghost predicate HasShortField(input: seq<seq<string>>, k: nat)
    requires k <= |input|
  {
    exists i, c :: 0 <= i < k && 0 <= c < |input[i]| && |input[i][c]| < 2
  }

  /** Appends `e` to the list of column `c`, creating the list if the column has none yet. */
  function AddField(m: map<int, seq<Element>>, c: int, e: Element): map<int, seq<Element>>
  {
    m[c := (if c in m then m[c] else []) + [e]]
  }

  /** The intended inner loop of getColumnWordsMap from column `c` on: each dequoted field joins its column's list. */
  function RowFields(m: map<int, seq<Element>>, row: seq<string>, owner: nat, c: nat): Result<map<int, seq<Element>>>
    decreases |row| - c
  {
    if c >= |row| then Success(m)
    else if |row[c]| < 2 then Failure(StringIndexOutOfBounds)
    else RowFields(AddField(m, c, Element(Inner(row[c]), owner)), row, owner, c + 1)
  }

  /** The intended column index after the first `k` rows. */
  function ColumnIndex(input: seq<seq<string>>, k: nat): Result<map<int, seq<Element>>>
    requires k <= |input|
  {
    if k == 0 then Success(map[])
    else match ColumnIndex(input, k - 1)
      case Failure(e) => Failure(e)
      case Success(m) => RowFields(m, input[k - 1], k - 1, 0)
  }

  /** Reference definition: the dequoted fields of column `c` among the first `k` rows, in row order. */
  function ColumnEntries(input: seq<seq<string>>, c: int, k: nat): (es: seq<Element>)
    requires k <= |input|
    ensures OwnersIn(es, k)
  {
    if k == 0 then []
    else ColumnEntries(input, c, k - 1) + if 0 <= c < |input[k - 1]| && |input[k - 1][c]| >= 2 then [Element(Inner(input[k - 1][c]), k - 1)] else []
  }

  /** The number of fields of the widest of the first `k` rows. */
  function Width(input: seq<seq<string>>, k: nat): (w: nat)
    requires k <= |input|
    ensures forall i :: 0 <= i < k ==> |input[i]| <= w
    ensures k > 0 ==> exists i :: 0 <= i < k && |input[i]| == w
  {
    if k == 0 then 0
    else if |input[k - 1]| > Width(input, k - 1) then |input[k - 1]|
    else Width(input, k - 1)
  }

  /** One row's fields throw exactly when one of them, from column `c` on, is shorter than two characters. */
  lemma {:induction false} RowFieldsFails(m: map<int, seq<Element>>, row: seq<string>, owner: nat, c: nat)
    requires c <= |row|
    ensures RowFields(m, row, owner, c).Failure? <==> exists d :: c <= d < |row| && |row[d]| < 2
    decreases |row| - c
  {
    if c < |row| && |row[c]| >= 2 {
      RowFieldsFails(AddField(m, c, Element(Inner(row[c]), owner)), row, owner, c + 1);
    }
  }

  /** When one row's fields go in, the columns are the earlier ones and those of the row from `c` on. */
  lemma {:induction false} RowFieldsKeys(m: map<int, seq<Element>>, row: seq<string>, owner: nat, c: nat)
    requires c <= |row| && RowFields(m, row, owner, c).Success?
    ensures forall d :: d in RowFields(m, row, owner, c).value <==> d in m || c <= d < |row|
    decreases |row| - c
  {
    if c < |row| {
      RowFieldsKeys(AddField(m, c, Element(Inner(row[c]), owner)), row, owner, c + 1);
    }
  }

  /** When one row's fields go in, each of its columns from `c` on gains that row's dequoted field at its end. */
  lemma {:induction false} RowFieldsValues(m: map<int, seq<Element>>, row: seq<string>, owner: nat, c: nat, d: int)
    requires c <= |row| && forall e :: c <= e < |row| ==> |row[e]| >= 2
    requires RowFields(m, row, owner, c).Success? && d in RowFields(m, row, owner, c).value
    ensures RowFields(m, row, owner, c).value[d]
            == (if d in m then m[d] else []) + (if c <= d < |row| then [Element(Inner(row[d]), owner)] else [])
    decreases |row| - c
  {
    if c < |row| {
      RowFieldsValues(AddField(m, c, Element(Inner(row[c]), owner)), row, owner, c + 1, d);
    }
  }

  /** A column no row reaches has no entries. */
  lemma {:induction false} ColumnEntriesBeyondWidth(input: seq<seq<string>>, c: int, k: nat)
    requires k <= |input| && (c < 0 || c >= Width(input, k))
    ensures ColumnEntries(input, c, k) == []
  {
    if k > 0 {
      ColumnEntriesBeyondWidth(input, c, k - 1);
    }
  }

  /** The intended index fails exactly when one of the rows has a short field. */
  lemma {:induction false} ColumnIndexFails(input: seq<seq<string>>, k: nat)
    requires k <= |input|
    ensures ColumnIndex(input, k).Failure? <==> HasShortField(input, k)
  {
    if k > 0 {
      ColumnIndexFails(input, k - 1);
      if ColumnIndex(input, k - 1).Success? {
        RowFieldsFails(ColumnIndex(input, k - 1).value, input[k - 1], k - 1, 0);
      }
    }
  }

  /** The intended index has a list for each column from 0 up to the widest row, and for no other. */
  lemma {:induction false} ColumnIndexKeys(input: seq<seq<string>>, k: nat)
    requires k <= |input| && ColumnIndex(input, k).Success?
    ensures forall c :: c in ColumnIndex(input, k).value <==> 0 <= c < Width(input, k)
  {
    if k > 0 {
      ColumnIndexKeys(input, k - 1);
      RowFieldsKeys(ColumnIndex(input, k - 1).value, input[k - 1], k - 1, 0);
    }
  }

  /** Each column's list in the intended index is that column's dequoted fields in row order. */
  lemma {:induction false} ColumnIndexValues(input: seq<seq<string>>, k: nat, c: int)
    requires k <= |input| && ColumnIndex(input, k).Success? && c in ColumnIndex(input, k).value
    ensures ColumnIndex(input, k).value[c] == ColumnEntries(input, c, k)
  {
    if k > 0 {
      var m := ColumnIndex(input, k - 1).value;
      var row := input[k - 1];
      RowFieldsFails(m, row, k - 1, 0);
      RowFieldsValues(m, row, k - 1, 0, c);
      if c in m {
        ColumnIndexValues(input, k - 1, c);
      } else {
        ColumnIndexKeys(input, k - 1);
        ColumnEntriesBeyondWidth(input, c, k - 1);
      }
    }
  }

  /** getColumnWordsMap as intended: row by row, column by column, each dequoted field joins its column's list. */
  method ColumnWordsMap(input: seq<seq<string>>) returns (res: Result<map<int, seq<Element>>>)
    ensures res == ColumnIndex(input, |input|)
  {
    var m: map<int, seq<Element>> := map[];
    for i := 0 to |input|
      invariant ColumnIndex(input, i) == Success(m)
    {
      var next := IndexRow(m, input[i], i);
      if next.Failure? {
        ColumnIndexStaysFailed(input, i + 1, |input|);
        return Failure(next.error);
      }
      m := next.value;
    }
    res := Success(m);
  }

  /** The intended inner loop over the fields of one row. */
  method IndexRow(m: map<int, seq<Element>>, row: seq<string>, owner: nat) returns (res: Result<map<int, seq<Element>>>)
    ensures res == RowFields(m, row, owner, 0)
  {
    var acc := m;
    for column := 0 to |row|
      invariant RowFields(m, row, owner, 0) == RowFields(acc, row, owner, column)
    {
      if |row[column]| < 2 {
        return Failure(StringIndexOutOfBounds);
      }
      acc := AddField(acc, column, Element(Inner(row[column]), owner));
    }
    res := Success(acc);
  }

  /** Once the index has failed, later rows do not change the outcome. */
  lemma {:induction false} ColumnIndexStaysFailed(input: seq<seq<string>>, k: nat, m: nat)
    requires k <= m <= |input| && ColumnIndex(input, k).Failure?
    ensures ColumnIndex(input, m) == ColumnIndex(input, k)
    decreases m - k
  {
    if k < m {
      ColumnIndexStaysFailed(input, k + 1, m);
    }
  }

  /**
   * Line 130 as written: putIfAbsent returns null for a column seen for the
   * first time, so requireNonNull throws; a column already present would hold
   * the immutable List.of(), whose add throws once the field is dequoted.
   */
  function RowFieldsAsWritten(m: map<int, seq<Element>>, row: seq<string>, owner: nat): Result<map<int, seq<Element>>>
  {
    if |row| == 0 then Success(m)
    else if 0 !in m then Failure(NullPointer)
    else if |row[0]| < 2 then Failure(StringIndexOutOfBounds)
    else Failure(UnsupportedOperation)
  }

  /** getColumnWordsMap as written, after the first `k` rows. */
  function ColumnIndexAsWritten(input: seq<seq<string>>, k: nat): Result<map<int, seq<Element>>>
    requires k <= |input|
  {
    if k == 0 then Success(map[])
    else match ColumnIndexAsWritten(input, k - 1)
      case Failure(e) => Failure(e)
      case Success(m) => RowFieldsAsWritten(m, input[k - 1], k - 1)
  }

  /** As written, the index throws NullPointerException as soon as any row has a field, and is otherwise empty. */
  lemma {:induction false} AsWrittenFailsOnFirstField(input: seq<seq<string>>, k: nat)
    requires k <= |input|
    ensures ColumnIndexAsWritten(input, k) == if exists i :: 0 <= i < k && |input[i]| > 0 then Failure(NullPointer) else Success(map[])
  {
    if k > 0 {
      AsWrittenFailsOnFirstField(input, k - 1);
    }
  }

  /** One quoted field shows the discrepancy: as written it throws, as intended it is indexed under column 0. */
  lemma FirstInsertThrows()
    ensures ColumnIndexAsWritten([["\"a\""]], 1) == Failure(NullPointer)
    ensures ColumnIndex([["\"a\""]], 1) == Success(map[0 := [Element("a", 0)]])
  {
    var input := [["\"a\""]];
    assert Inner(input[0][0]) == "a";
    var e := Element(Inner(input[0][0]), 0);
    assert e == Element("a", 0);
    assert [] + [e] == [e];
    assert AddField(map[], 0, e) == map[0 := [e]];
    assert RowFields(map[0 := [Element("a", 0)]], input[0], 0, 1) == Success(map[0 := [Element("a", 0)]]);
  }

  // ---------------------------------------------------------------- getNodes

  /** The text node `i` holds: the `;`-join of row `i`'s untrimmed pieces. */
  function Texts(input: seq<seq<string>>): (texts: seq<string>)
    ensures |texts| == |input|
  {
    seq(|input|, i requires 0 <= i < |input| => Join(input[i]))
  }

  /** getNodes: node `i` gets number `i` and the joined row `i`, each a root of size 1. */
  method GetNodes(input: seq<seq<string>>) returns (f: Forest)
    ensures f.Valid() && fresh(f) && fresh(f.parent) && fresh(f.size)
    ensures f.rows == Texts(input) && f.numbers == Singletons(|input|) && f.root == Singletons(|input|)
    ensures forall i :: 0 <= i < |input| ==> f.parent[i] == Null && f.size[i] == 1
  {
    var texts: seq<string> := [];
    for i := 0 to |input|
      invariant texts == Texts(input[..i])
    {
      assert Texts(input[..i + 1]) == Texts(input[..i]) + [Join(input[i])];
      texts := texts + [Join(input[i])];
    }
    assert input[..|input|] == input;
    f := new Forest(texts, Singletons(|input|));
  }

  // -------------------------------------------------------- unionNodesByDSU

  /** Every entry of column `c` is the dequoted field `c` of one of the first `k` rows, owned by that row. */
  lemma {:induction false} ColumnEntriesFrom(input: seq<seq<string>>, c: int, k: nat, p: int)
    requires k <= |input| && 0 <= p < |ColumnEntries(input, c, k)|
    ensures var e := ColumnEntries(input, c, k)[p];
      0 <= e.owner < k && 0 <= c < |input[e.owner]| && |input[e.owner][c]| >= 2 && e.data == Inner(input[e.owner][c])
  {
    if p < |ColumnEntries(input, c, k - 1)| {
      ColumnEntriesFrom(input, c, k - 1, p);
    }
  }

  /** Every field of the first `k` rows long enough to dequote is an entry of its column, owned by its row. */
  lemma {:induction false} ColumnEntriesHas(input: seq<seq<string>>, c: int, k: nat, i: int) returns (p: int)
    requires k <= |input| && 0 <= i < k && 0 <= c < |input[i]| && |input[i][c]| >= 2
    ensures 0 <= p < |ColumnEntries(input, c, k)| && ColumnEntries(input, c, k)[p] == Element(Inner(input[i][c]), i)
  {
    if i < k - 1 {
      p := ColumnEntriesHas(input, c, k - 1, i);
    } else {
      p := |ColumnEntries(input, c, k - 1)|;
    }
  }

  /** The column lists in ascending column order, one per column up to the widest row. */
  function ColumnLists(input: seq<seq<string>>): (lists: seq<seq<Element>>)
    ensures |lists| == Width(input, |input|)
    ensures forall c :: 0 <= c < |lists| ==> OwnersIn(lists[c], |input|)
  {
    seq(Width(input, |input|), c requires 0 <= c => ColumnEntries(input, c, |input|))
  }

  /** The sets after unionNodesByDSU: every column list processed by first-anchor unions, starting from singletons. */
  ghost function ColumnMerged(input: seq<seq<string>>): (R: seq<int>)
    ensures |R| == |input| && IsLabeling(R)
  {
    UnionAll(Singletons(|input|), Singletons(|input|), ColumnLists(input))
  }

  /** Rows `i` and `i2` hold, in one column position, fields whose dequoted texts are equal. */
  ghost predicate SharesColumnValue(input: seq<seq<string>>, i: int, i2: int)
    requires 0 <= i < |input| && 0 <= i2 < |input|
  {
    exists c :: 0 <= c < |input[i]| && 0 <= c < |input[i2]| && |input[i][c]| >= 2 && |input[i2][c]| >= 2 &&
      Inner(input[i][c]) == Inner(input[i2][c])
  }

  /** `L` labels the rows and gives rows that share a value in one column the same label. */
  ghost predicate RespectsColumns(L: seq<int>, input: seq<seq<string>>)
  {
    |L| == |input| && forall i, i2 :: 0 <= i < |input| && 0 <= i2 < |input| && SharesColumnValue(input, i, i2) ==> L[i] == L[i2]
  }

  /** Rows that share a value in one column end up in one set. */
  lemma ColumnMergedJoins(input: seq<seq<string>>, i: int, i2: int)
    requires 0 <= i < |input| && 0 <= i2 < |input| && SharesColumnValue(input, i, i2)
    ensures ColumnMerged(input)[i] == ColumnMerged(input)[i2]
  {
    var n := |input|;
    var c :| 0 <= c < |input[i]| && 0 <= c < |input[i2]| && |input[i][c]| >= 2 && |input[i2][c]| >= 2 &&
      Inner(input[i][c]) == Inner(input[i2][c]);
    var p := ColumnEntriesHas(input, c, n, i);
    var q := ColumnEntriesHas(input, c, n, i2);
    var lists := ColumnLists(input);
    assert lists[c] == ColumnEntries(input, c, n);
    UnionAllJoins(Singletons(n), Singletons(n), lists);
    assert AgreesOnValues(ColumnMerged(input), lists[c]);
  }

  /**
   * Rows end up in one set only when they must: any labeling that gives rows
   * sharing a value in one column the same label gives every set one label.
   * Equal values in different column positions therefore never join rows by
   * themselves.
   */
  lemma ColumnMergedRefines(input: seq<seq<string>>, L: seq<int>)
    requires RespectsColumns(L, input)
    ensures forall i, i2 :: 0 <= i < |input| && 0 <= i2 < |input| && ColumnMerged(input)[i] == ColumnMerged(input)[i2] ==> L[i] == L[i2]
  {
    var n := |input|;
    var lists := ColumnLists(input);
    forall c | 0 <= c < |lists|
      ensures AgreesOnValues(L, lists[c])
    {
      forall p, q | 0 <= p < |lists[c]| && 0 <= q < |lists[c]| && lists[c][p].data == lists[c][q].data
        ensures L[lists[c][p].owner] == L[lists[c][q].owner]
      {
        ColumnEntriesFrom(input, c, n, p);
        ColumnEntriesFrom(input, c, n, q);
        assert SharesColumnValue(input, lists[c][p].owner, lists[c][q].owner);
      }
    }
    UnionAllRefines(Singletons(n), Singletons(n), lists, L);
  }

  /** unionNodesByDSU: the column lists are processed in ascending column order, each by first-anchor unions. */
  method UnionNodesByColumn(f: Forest, m: map<int, seq<Element>>, ghost input: seq<seq<string>>)
    requires f.Valid() && |f.rows| == |input| && ColumnIndex(input, |input|) == Success(m)
    modifies f, f.parent, f.size
    ensures f.Valid() && f.parent == old(f.parent) && f.size == old(f.size)
    ensures f.root == UnionAll(old(f.root), f.numbers, ColumnLists(input))
  {
    ghost var lists := ColumnLists(input);
    ColumnIndexKeys(input, |input|);
    var c := 0;
    while c in m
      invariant 0 <= c <= |lists|
      invariant f.Valid() && f.parent == old(f.parent) && f.size == old(f.size)
      invariant UnionAll(f.root, f.numbers, lists[c..]) == UnionAll(old(f.root), f.numbers, lists)
      decreases |lists| - c
    {
      ColumnIndexValues(input, |input|, c);
      assert lists[c..][1..] == lists[c + 1..];
      UniteByFirstAnchor(f, m[c]);
      c := c + 1;
    }
  }

  // -------------------------------------------------- transformInputToResult

  /**
   * transformInputToResult as intended. It throws exactly when some row has a
   * field shorter than two characters. Otherwise the groups come in comparator
   * order and are the buckets of the sets unionNodesByDSU forms, each holding
   * its nodes' texts; equal texts collapse, so a group may hold fewer texts
   * than its key's size. Each key carries the least row index of its group.
   */
  method TransformInputToResult(input: seq<seq<string>>) returns (res: Result<seq<Group>>, ghost groupOf: seq<int>)
    requires |input| <= IntMax
    ensures res.Failure? <==> HasShortField(input, |input|)
    ensures res.Success? ==> SortedGroups(res.value) && Buckets(Texts(input), ColumnMerged(input), res.value, groupOf)
    ensures res.Success? ==> forall j :: 0 <= j < |res.value| ==> |res.value[j].rows| <= res.value[j].key.size
    ensures res.Success? ==> (res.value == [] <==> input == [])
    ensures res.Success? ==> KeyedByLeastNode(res.value, groupOf)
  {
    var f := GetNodes(input);
    var index := ColumnWordsMap(input);
    ColumnIndexFails(input, |input|);
    if index.Failure? {
      return Failure(index.error), [];
    }
    var groups;
    groups, groupOf := GroupColumns(f, index.value, input);
    BucketSizes(Texts(input), ColumnMerged(input), groups, groupOf);
    res := Success(groups);
  }

  /** The union passes and the bucketing of transformInputToResult, once the column index is built. */
  method GroupColumns(f: Forest, m: map<int, seq<Element>>, ghost input: seq<seq<string>>) returns (groups: seq<Group>, ghost groupOf: seq<int>)
    requires f.Valid() && |input| <= IntMax && ColumnIndex(input, |input|) == Success(m)
    requires |f.rows| == |input| && f.numbers == Singletons(|input|) && f.root == Singletons(|input|)
    modifies f, f.parent, f.size
    ensures f.root == ColumnMerged(input)
    ensures SortedGroups(groups) && Buckets(f.rows, f.root, groups, groupOf)
    ensures KeyedByLeastNode(groups, groupOf)
  {
    UnionNodesByColumn(f, m, input);
    groups, groupOf := BucketRows(f);
  }

  /** Each bucket holds at most as many texts as nodes, and there are buckets exactly when there are rows. */
  lemma BucketSizes(texts: seq<string>, R: seq<int>, groups: seq<Group>, groupOf: seq<int>)
    requires Buckets(texts, R, groups, groupOf)
    ensures forall j :: 0 <= j < |groups| ==> |groups[j].rows| <= groups[j].key.size
    ensures groups == [] <==> texts == []
  {
    forall j | 0 <= j < |groups|
      ensures |groups[j].rows| <= groups[j].key.size
    {
      ImageCount(texts, NodesIn(groupOf, j));
    }
    if |groups| > 0 {
      var z :| z in NodesIn(groupOf, 0);
    }
    if |texts| > 0 {
      assert 0 <= groupOf[0] < |groups|;
    }
  }

  /** Identical rows with at least one field share a value in column 0, so they land in one set. */
  lemma DuplicatesShareSet(input: seq<seq<string>>, i: int, i2: int)
    requires !HasShortField(input, |input|)
    requires 0 <= i < |input| && 0 <= i2 < |input| && input[i] == input[i2] && |input[i]| > 0
    ensures ColumnMerged(input)[i] == ColumnMerged(input)[i2]
  {
    assert |input[i][0]| >= 2;
    ColumnMergedJoins(input, i, i2);
  }

  /** Two rows whose only equal value sits in different column positions stay in different sets. */
  lemma CrossColumnValuesStaySeparate()
    ensures var input := [["\"a\"", "\"b\""], ["\"b\"", "\"c\""]];
      ColumnMerged(input)[0] != ColumnMerged(input)[1]
  {
    var input := [["\"a\"", "\"b\""], ["\"b\"", "\"c\""]];
    SeparateRowsLabelled(input);
    ColumnMergedRefines(input, [0, 1]);
  }

  /** Labelling the two rows apart respects the columns: they share no value in one column position. */
  lemma SeparateRowsLabelled(input: seq<seq<string>>)
    requires input == [["\"a\"", "\"b\""], ["\"b\"", "\"c\""]]
    ensures RespectsColumns([0, 1], input)
  {
    assert Inner(input[0][0]) == "a" && Inner(input[0][1]) == "b";
    assert Inner(input[1][0]) == "b" && Inner(input[1][1]) == "c";
    assert !SharesColumnValue(input, 0, 1) && !SharesColumnValue(input, 1, 0);
  }
}
