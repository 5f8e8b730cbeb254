# Row grouping by shared values, with a disjoint-set forest

The program reads a file of lines such as `"a";"b";"c"`. It keeps only the lines whose every
`;`-separated field, once trimmed, is a quoted value with no quote inside. It then puts two rows
in the same group whenever they share a value, directly or through a chain of other rows. Groups
are reported largest first, and the program counts the groups with more than one row.

This project models three parts of the program in Dafny and proves their properties:

- **The disjoint-set forest** of `org.example.Node` (module `UnionFind`, class `Forest`).
  - The nodes live in an arena: node `i` is slot `i` of a `parent` array (with `-1` for null)
    and a `size` array.
  - `Find` is `getParent` with full path compression. Its contract (`CompressedOnly`) says that
    every link it rewrites now points at the node's own root, and no other link changes.
  - `Union` is `unionNodes`. It hangs the root with the larger number under the root with the
    smaller one.
  - Ghost state proves that the parent chains end:
    - `root`, the partition the forest stands for;
    - `rank`, which strictly increases along every parent link.
  - `Valid()` holds three invariants:
    - the forest shape: every link stays inside the arena and inside its set, ranks rise along
      links, and a node has a null parent exactly when it is its own root;
    - every root's size counts its set;
    - every root has the smallest number in its set.
  - Module `Partition` holds the pure partition that every union is proved against (`Unite`).
- **The working pipeline** `org.grunskii.Backend` (module `Backend`):
  - `loadFile`'s filter and de-duplication through a set of canonical row texts;
  - node numbering in an arbitrary enumeration of that set;
  - the column index. All fifteen column slots are copies of one list, so values from every
    column are pooled.
  - the first-anchor unions, run once per slot;
  - bucketing by `(size, root number)` into a map sorted by the comparator;
  - the count of multi-row groups.

  The main theorem is `Backend.TransformInputToResult`. Either some row makes the index loop
  throw, or the result has seven properties:
  - it is sorted by the comparator;
  - it partitions the stored rows;
  - every group has exactly `key.size` rows;
  - every key's root number is the position of the group's first row in the enumeration the
    nodes are numbered by;
  - it is closed under sharing a non-blank value;
  - it is no coarser than any labelling that respects sharing;
  - it is empty if and only if there are no stored rows.
- **The draft pipeline** `org.example.Backend` (module `DraftBackend`). It differs from the
  working one in four ways:
  - untrimmed rows kept in a list, with duplicates;
  - a per-column map of dequoted values;
  - unions within each column only;
  - groups that can hold fewer texts than `key.size` when lines repeat.

  As written, its column index throws on the first field (see "Findings"). The model shows that
  behaviour, and then uses the evidently intended index everywhere else.

Shared pieces:
- Module `Text` holds Java's `trim`, `isBlank`, `split(";")` and `String.join`, and the quoted-field
  test.
- Module `Grouping` holds the pieces both pipelines share:
  - the first-anchor union pass and its specification;
  - the `TreeMap` as a sorted sequence of groups;
  - the comparator;
  - the count;
  - the bucketing loop.

Files:
- `partition.dfy`
- `union_find.dfy`
- `text.dfy`
- `grouping.dfy`
- `backend.dfy`
- `draft_backend.dfy`

## Model

| member | source | states |
|---|---|---|
| Partition.Unite | src/main/java/org/example/Node.java:26-41 | A union keeps a valid partition. If the roots' numbers differ, the two nodes end up together. If they are equal, nothing changes. Sets are only merged. Only members of the two sets move, and they move to one of the two old roots. No representative's number grows. |
| Partition.UniteRefines | src/main/java/org/example/Node.java:26-41 | Uniting two nodes that a labelling L gives the same label keeps the partition finer than L. |
| Partition.UniteKeepsLeastNumber | src/main/java/org/example/Node.java:34-40 | If every root has the least number in its set before a union, that still holds after it. |
| Partition.RelabelMembers | src/main/java/org/example/Node.java:34-40 | Merging set `from` into set `to` gives `to` the union of both member sets, with the sum of their sizes. It empties `from` and leaves every other set alone. |
| Partition.SingletonMembers | src/main/java/org/example/Node.java:6-7 | A fresh node's set is the node alone, so its initial size 1 counts it. |
| Partition.MembersBounded | src/main/java/org/example/Node.java:34-40 | A set never has more members than there are nodes. |
| UnionFind.Forest.constructor | src/main/java/org/example/Node.java:6-12 | Every node starts with a null parent and size 1. The forest is valid, and every node is its own root (`Singletons`). With `Partition.SingletonMembers`, each fresh set is the node alone. |
| UnionFind.Forest.Find | src/main/java/org/example/Node.java:43-50 | Returns x's root, and that root has a null parent. Every node on x's former path now points at the root, and no other link changes. The invariants hold, so no node's root and no size changes. |
| UnionFind.Forest.Compress | src/main/java/org/example/Node.java:45 | Redirects one node's parent link to its root, and changes nothing else. |
| UnionFind.Forest.Size | src/main/java/org/example/Node.java:18-20 | getSize returns the number of members of the node's set, which is the same for every member. Only path compression changes. |
| UnionFind.Forest.Union | src/main/java/org/example/Node.java:26-41 | The new partition is `Unite` of the old one. If the roots are the same, no size changes and links change only by compression. Otherwise the root with the larger number points at the other one. The winner's size becomes the sum of the two. No other size or link changes, apart from compression. |
| UnionFind.Forest.Roots | src/main/java/org/example/Node.java:27-28 | Resolves both roots, each with a null parent, and changes links only by compression. |
| UnionFind.Forest.Link | src/main/java/org/example/Node.java:34-40 | Hangs the loser root under the winner root and adds the loser's size to the winner's. The partition becomes the loser's set merged into the winner's. No other link or size changes. |
| UnionFind.Forest.Relink | src/main/java/org/example/Node.java:35-39 | Writes exactly the loser's parent and the winner's size, and installs the given ghost state. |
| UnionFind.LinkKeepsInvariants | src/main/java/org/example/Node.java:34-40 | Linking two roots, with the smaller number winning, keeps the forest shape, the size counts and the least-number roots. The new partition is the loser's set merged into the winner's. |
| UnionFind.Compressed | src/main/java/org/example/Node.java:43-50 | Path compression leaves the links of nodes off the path as they were. |
| UnionFind.CompressedStep | src/main/java/org/example/Node.java:44-46 | Compressing `[x] + tail` is compressing the tail and then pointing x at the root: the order of the recursive walk. |
| UnionFind.CompressedOnlyStep | src/main/java/org/example/Node.java:45 | Pointing one more non-root node at its root is still compression only. |
| UnionFind.CompressedOnlyTrans | src/main/java/org/example/Node.java:43-50 | Two rounds of compression are compression. |
| UnionFind.CompressKeepsShape | src/main/java/org/example/Node.java:45 | Pointing a node at its root keeps the links acyclic, the ranks increasing and the partition unchanged. |
| UnionFind.CompressKeepsInvariant | src/main/java/org/example/Node.java:45 | Pointing a node at its root keeps the whole forest invariant. |
| UnionFind.LinkKeepsShape | src/main/java/org/example/Node.java:34-40 | Hanging one root under another keeps a forest over the merged partition, with ranks still increasing along links. |
| UnionFind.LinkKeepsSizes | src/main/java/org/example/Node.java:34-40 | After `winner.size += loser.size`, every root's size still counts its set. |
| UnionFind.UniteKeepsLeastNumberAt | src/main/java/org/example/Node.java:34-40 | Merging the larger-numbered root's set into the smaller-numbered one keeps every root least in its set. |
| Text.TrimStartShape | src/main/java/org/grunskii/Backend.java:68 | trim's leading cut removes a prefix made only of code points up to U+0020, and stops at one above it. |
| Text.TrimEndShape | src/main/java/org/grunskii/Backend.java:68 | trim's trailing cut removes such a suffix, and stops at a code point above U+0020. |
| Text.TrimShape | src/main/java/org/grunskii/Backend.java:68 | `Trim` (`String.trim`) returns a substring. Everything it drops is at most U+0020, and it does not start or end with such a code point. |
| Text.TrimIdempotent | src/main/java/org/grunskii/Backend.java:68 | Trimming twice is trimming once. |
| Text.TrimKeepsDelimiterOut | src/main/java/org/grunskii/Backend.java:68 | Trimming a piece without `;` gives a piece without `;`. |
| Text.ValidFieldIsQuotedValue | src/main/java/org/grunskii/Backend.java:71-73 | The quote test `ValidField` holds of a field if and only if the field is a quote-free value wrapped in quotes. |
| Text.QuotedValueIsValidField | src/main/java/org/grunskii/Backend.java:71-73 | Every quote-free value, quoted, passes the test, and dequoting gives the value back. |
| Text.IsCorrectRowMeaning | src/main/java/org/grunskii/Backend.java:69-74 | A row is correct (`IsCorrectRow`) if and only if none of its fields fails the quote test. |
| Text.TrimAllIdempotent | src/main/java/org/grunskii/Backend.java:68 | `TrimAll`, the `map(String::trim)` over the pieces, changes nothing when applied to trimmed pieces. |
| Text.TrimAllKeepsDelimiterOut | src/main/java/org/grunskii/Backend.java:68 | Trimmed pieces of a split stay free of `;`. |
| Text.Split | src/main/java/org/grunskii/Backend.java:68 | Splitting on `;`, before trailing empty pieces are dropped, always yields at least one piece. |
| Text.SplitShape | src/main/java/org/grunskii/Backend.java:68 | The pieces of `Split` hold no `;`, and `Join` (`String.join(";", …)`) of them gives the line back. |
| Text.SplitWithoutDelimiter | src/main/java/org/grunskii/Backend.java:68 | A line without `;` splits into itself. |
| Text.SplitAtFirstDelimiter | src/main/java/org/grunskii/Backend.java:68 | Splitting cuts at the first `;` and splits the rest. |
| Text.SplitJoin | src/main/java/org/grunskii/Backend.java:68 | Splitting the join of `;`-free pieces gives the pieces back. |
| Text.DropTrailingEmptyShape | src/main/java/org/grunskii/Backend.java:68 | split's removal of trailing empty strings keeps a prefix that does not end in an empty piece. It drops only empty pieces. |
| Text.SplitLinePieces | src/main/java/org/grunskii/Backend.java:68 | `SplitLine`, which is `line.split(";")`, yields `;`-free pieces. |
| Text.JoinHasDelimiter | src/main/java/org/grunskii/Backend.java:77 | Joining two or more pieces puts a `;` in the text. |
| Text.SplitLineJoin | src/main/java/org/grunskii/Backend.java:77 | `split(";")` undoes `String.join(";", fields)` when the fields are `;`-free and the last one is not empty. |
| Text.CorrectRowSplitsBack | src/main/java/org/grunskii/Backend.java:125 | A stored correct row, split again by the index loop, yields exactly its trimmed fields. |
| Grouping.FirstAnchorUnions | src/main/java/org/grunskii/Backend.java:99-110 | One pass of anchor unions over a list keeps a valid partition, and it only merges sets. |
| Grouping.UnionAll | src/main/java/org/grunskii/Backend.java:97-112 | The passes over all lists keep a valid partition, and they only merge sets. |
| Grouping.FirstAnchorUnionsJoin | src/main/java/org/grunskii/Backend.java:100-110 | After a pass, any two elements of the list with equal data are in one set. Every element whose value already had an anchor is in the anchor's set. |
| Grouping.NewAnchorStep | src/main/java/org/grunskii/Backend.java:101-104 | An element whose value is new becomes the anchor. The agreement facts for the rest of the list then extend to the whole list. |
| Grouping.KnownAnchorStep | src/main/java/org/grunskii/Backend.java:106-109 | An element united with its value's anchor extends the agreement facts to the whole list. |
| Grouping.FirstAnchorUnionsRefines | src/main/java/org/grunskii/Backend.java:100-110 | If a labelling L agrees on equal values, a pass never merges rows that L tells apart. |
| Grouping.FirstAnchorUnionsSettled | src/main/java/org/grunskii/Backend.java:100-110 | A pass over a list whose equal values already share sets changes nothing. |
| Grouping.UnionAllJoins | src/main/java/org/grunskii/Backend.java:97-112 | After all passes, elements with equal data in any one list are in one set. |
| Grouping.UnionAllRefines | src/main/java/org/grunskii/Backend.java:97-112 | The passes never merge rows that a value-respecting labelling tells apart. |
| Grouping.UnionAllSettled | src/main/java/org/grunskii/Backend.java:97-112 | Passes over lists whose equal values already share sets change nothing. |
| Grouping.UniteByFirstAnchor | src/main/java/org/grunskii/Backend.java:99-110 | The inner loop, with its anchor map, leaves the forest's partition equal to the specified pass. |
| Grouping.RowsAtEntry | src/main/java/org/grunskii/Backend.java:92 | Looking up an entry's key in the sorted map finds that entry's rows. |
| Grouping.RowsAtAbsent | src/main/java/org/grunskii/Backend.java:91 | A key that is not in the map has no rows. |
| Grouping.KeysOfCons | src/main/java/org/grunskii/Backend.java:91 | The keys of an entry followed by a map are that map's keys plus the entry's key. |
| Grouping.Put | src/main/java/org/grunskii/Backend.java:91-92 | `putIfAbsent` then `add`: the map stays sorted, gains the key, adds the row to that key's set and leaves the other keys' sets alone. |
| Grouping.InsertFront | src/main/java/org/grunskii/Backend.java:91-92 | A new smallest key is inserted at the front. |
| Grouping.KeepFront | src/main/java/org/grunskii/Backend.java:91-92 | An insertion behind the first entry keeps the map sorted and adds just the key. |
| Grouping.Sub32 | src/main/java/org/grunskii/Backend.java:172-174 | Java `int` subtraction: the result is a 32-bit value congruent to the exact difference modulo 2^32, and equal to it whenever the difference fits. |
| Grouping.Compare | src/main/java/org/grunskii/Backend.java:172-174 | On non-negative `int` keys, the subtracting comparator is negative, zero or positive exactly when the first key comes before, equals or comes after the second. The order is size descending, then root number ascending. |
| Grouping.MultiRowGroupsComeFirst | src/main/java/org/grunskii/Backend.java:60-62 | In comparator order the groups of size greater than 1 form a prefix, whose length is the count of such groups. The count is 0 on an empty map. |
| Grouping.MultiRowCount | src/main/java/org/grunskii/Backend.java:60-62 | The count `GroupsWithMoreThanOneNode` equals the number of keys in the map whose size exceeds one, as the stream over `keySet()` counts them. |
| Grouping.SameKeySameRoot | src/main/java/org/grunskii/Backend.java:90 | Two nodes get the same `(size, root number)` key if and only if they have the same root. |
| Grouping.FileOne | src/main/java/org/grunskii/Backend.java:89-93 | Filing one more node keeps the map sorted, adds that node's key and puts its row under that key. |
| Grouping.FiledKeysStep | src/main/java/org/grunskii/Backend.java:89-93 | One more node adds exactly its key to the set of keys. |
| Grouping.FiledRowsStep | src/main/java/org/grunskii/Backend.java:89-93 | One more node adds its row only to its own key's rows. |
| Grouping.BucketEntry | src/main/java/org/grunskii/Backend.java:88-94 | Every entry of the filled map has at least one node. It holds exactly those nodes' rows, and its key's size counts them. |
| Grouping.BucketsByRoot | src/main/java/org/grunskii/Backend.java:88-94 | After every node is filed, each node belongs to exactly one entry. Nodes share an entry if and only if they share a root, and each entry's key size counts its nodes. |
| Grouping.BucketRows | src/main/java/org/grunskii/Backend.java:88-94 | The bucketing loop yields a sorted map. Every node sits in the entry keyed by its `(set size, root number)`. Nodes share an entry if and only if they share a root. Each key's root number is the least node filed under it. The partition stays unchanged. |
| Grouping.LeastNodeKeys | src/main/java/org/grunskii/Backend.java:90 | With nodes numbered by position, the root number in each entry's key is one of the entry's nodes and is at most every other one, because every root is least in its set. |
| Grouping.FileAll | src/main/java/org/grunskii/Backend.java:89-93 | The `forEach` over all nodes files every node. |
| Grouping.FileNode | src/main/java/org/grunskii/Backend.java:90-92 | One iteration files one node, finding its key with `getSize` and `getParent`. |
| Grouping.UnionNodesByDsu | src/main/java/org/grunskii/Backend.java:97-112 | The nested loops leave the forest's partition equal to the specified passes over all lists. |
| Grouping.RepeatedPassesSettled | src/main/java/org/grunskii/Backend.java:97-112 | Running the pass over the same list m ≥ 1 times equals running it once. |
| Grouping.ImageCount | src/main/java/org/grunskii/Backend.java:92 | A group's `HashSet` of rows has at most as many texts as nodes, and exactly as many when the row texts are distinct. |
| Grouping.ImageCountBelow | src/main/java/org/grunskii/Backend.java:92 | The same bound for the nodes below n. |
| Backend.LoadFile | src/main/java/org/grunskii/Backend.java:64-81 | The stored rows are exactly the canonical texts of the lines that pass the quote test, as a set. |
| Backend.IsKeptMeaning | src/main/java/org/grunskii/Backend.java:68-74 | A line is kept (`IsKept`) if and only if every piece of `split(";")`, trimmed, is a quoted value with no quote inside. |
| Backend.KeptTextsStep | src/main/java/org/grunskii/Backend.java:76-78 | One more line adds its canonical text if and only if it passes. |
| Backend.CanonicalIsStable | src/main/java/org/grunskii/Backend.java:68-77 | A kept line's stored text (`Canonical`, the join of its trimmed pieces) splits back into its trimmed fields. It passes again and is its own canonical form. |
| Backend.DelimiterOnlyLine | src/main/java/org/grunskii/Backend.java:68 | A line of only `;` has no pieces, passes vacuously, and is stored as the empty text. That text splits into one empty piece, on which the index loop throws. |
| Backend.Merged | src/main/java/org/grunskii/Backend.java:97-112 | The partition after the union passes over the fifteen slots is valid. |
| Backend.RowEntriesFails | src/main/java/org/grunskii/Backend.java:128-134 | The inner loop (`RowEntries`) throws if and only if some field is shorter than two characters, or holds a non-blank value at column 15 or beyond. |
| Backend.RowEntryFrom | src/main/java/org/grunskii/Backend.java:128-134 | Every entry the inner loop adds is a field of this row whose inner text is not blank (`IsBlank`, `String.isBlank`), owned by this row. |
| Backend.RowHasEntry | src/main/java/org/grunskii/Backend.java:128-134 | Every field with a non-blank inner text gets an entry, stored with its quotes. |
| Backend.IndexFails | src/main/java/org/grunskii/Backend.java:126-136 | The index loop (`Index`) throws if and only if some row makes the inner loop throw. |
| Backend.IndexEntryFrom | src/main/java/org/grunskii/Backend.java:126-136 | Every pooled entry is some row's non-blank field, owned by that row. |
| Backend.IndexHasEntry | src/main/java/org/grunskii/Backend.java:126-136 | Every non-blank field of every row is in the pooled list. |
| Backend.IndexGrows | src/main/java/org/grunskii/Backend.java:126-136 | The pooled list after k rows is the list after k-1 rows followed by row k-1's entries. |
| Backend.IndexOwners | src/main/java/org/grunskii/Backend.java:126-136 | Every pooled entry belongs to one of the rows processed so far. |
| Backend.IndexStaysFailed | src/main/java/org/grunskii/Backend.java:126-136 | Once a row throws, the result is that exception. |
| Backend.ColumnWordsMap | src/main/java/org/grunskii/Backend.java:123-138 | The loop returns fifteen slots that all hold the pooled list (`nCopies` aliasing one `ArrayList`), or the exception of the first offending row. |
| Backend.IndexStep | src/main/java/org/grunskii/Backend.java:126-135 | One more row appends that row's entries, or ends in its exception. |
| Backend.IndexRow | src/main/java/org/grunskii/Backend.java:128-135 | The inner loop appends the row's entries to the list, or throws. |
| Backend.GetNodes | src/main/java/org/grunskii/Backend.java:114-121 | One fresh root of size 1 per stored row, numbered 0..n-1 in an arbitrary enumeration of the set. The row texts are distinct and are exactly the set's members. |
| Backend.PiecesShare | src/main/java/org/grunskii/Backend.java:125 | Two rows share a value if and only if their split fields share a non-blank field. |
| Backend.MergedAgrees | src/main/java/org/grunskii/Backend.java:97-112 | After the passes, pooled entries with equal values belong to rows in one set. |
| Backend.SharedValueEntries | src/main/java/org/grunskii/Backend.java:123-138 | Two rows sharing a non-blank field have equal-valued entries in the pool. |
| Backend.SharersJoined | src/main/java/org/grunskii/Backend.java:97-112 | Rows sharing a non-blank field, in any columns, end in one set. |
| Backend.SetsRespectSharing | src/main/java/org/grunskii/Backend.java:97-112 | Any labelling that respects sharing is constant on every set. So rows linked by no chain of shared values stay apart. |
| Backend.MergedRefines | src/main/java/org/grunskii/Backend.java:97-112 | A labelling that agrees on equal pooled values is constant on every set. |
| Backend.SharingLabels | src/main/java/org/grunskii/Backend.java:125 | A labelling that respects sharing on the texts gives rows with a common field equal labels. |
| Backend.LabelsAgree | src/main/java/org/grunskii/Backend.java:123-138 | Such a labelling agrees on every pair of equal-valued pooled entries. |
| Backend.SameDataShares | src/main/java/org/grunskii/Backend.java:123-138 | Two pooled entries with equal values come from rows that share a non-blank field. |
| Backend.TransformInputToResult | src/main/java/org/grunskii/Backend.java:83-95 | It fails if and only if some stored row makes the index throw. The ghost `order` enumerates the stored rows without repeats. On success the result has seven properties. It is sorted by the comparator. It partitions the rows. Every group has exactly key.size rows. Each key's root number is the position in `order` of the group's first row. It is closed under sharing a value. It is constant under every sharing-respecting labelling. It is empty if and only if the input is. |
| Backend.GroupRows | src/main/java/org/grunskii/Backend.java:85-94 | The unions and the bucketing yield that result from the index, including the key's root number as the group's first position. |
| Backend.TextGroups | src/main/java/org/grunskii/Backend.java:83-95 | Buckets of the merged partition, read as sets of texts, have those five grouping properties. |
| Backend.CrashesInSomeRow | src/main/java/org/grunskii/Backend.java:125-136 | The index over the rows in node order throws if and only if some stored text's fields throw. |
| Backend.GroupMember | src/main/java/org/grunskii/Backend.java:89-93 | Every text in a group is the row of a node filed into it. |
| Backend.TextGroupsPartition | src/main/java/org/grunskii/Backend.java:88-94 | With distinct row texts, the groups partition the input. Every group has exactly key.size texts, and there are no groups if and only if there are no rows. |
| Backend.TextGroupsClosed | src/main/java/org/grunskii/Backend.java:97-112 | A row sharing a value with a group member is in that group. |
| Backend.TextGroupsRespected | src/main/java/org/grunskii/Backend.java:100-109 | Every sharing-respecting labelling is constant on each group. |
| Backend.TextGroupsKeyed | src/main/java/org/grunskii/Backend.java:90 | With distinct row texts, each group's key names the position of its first row in the node enumeration. |
| Backend.FifteenPassesAreOne | src/main/java/org/grunskii/Backend.java:124 | The fifteen passes over the aliased slots (`Slots`) give the same partition as one pass. |
| DraftBackend.RowIsCorrect | src/main/java/org/example/Backend.java:67-77 | The flag loop with `break` computes "every trimmed field passes the quote test". |
| DraftBackend.LoadFile | src/main/java/org/example/Backend.java:62-84 | The result is the untrimmed pieces of each passing line, in file order. |
| DraftBackend.SelectMeaning | src/main/java/org/example/Backend.java:79-81 | A list holds a row if and only if some accepted line yields it. |
| DraftBackend.SelectCount | src/main/java/org/example/Backend.java:79-81 | The list has one row per accepted line, so duplicates are not collapsed. |
| DraftBackend.KeptRowsMeaning | src/main/java/org/example/Backend.java:65-82 | The kept rows are the untrimmed pieces of the passing lines, with one row per passing line. |
| DraftBackend.KeptRowsHaveNoShortField | src/main/java/org/example/Backend.java:68-77 | No kept row has a field shorter than two characters, so the dequoting substring cannot throw on loaded rows. |
| DraftBackend.ColumnEntries | src/main/java/org/example/Backend.java:127-135 | Every entry of a column's list belongs to one of the rows processed so far. |
| DraftBackend.Width | src/main/java/org/example/Backend.java:129 | The widest row's length bounds every row's length, and some row attains it. |
| DraftBackend.RowFieldsFails | src/main/java/org/example/Backend.java:129-133 | The intended inner loop (`RowFields`) throws if and only if some field is shorter than two characters. |
| DraftBackend.RowFieldsKeys | src/main/java/org/example/Backend.java:129-133 | After a row, the map's columns are the old ones plus this row's positions. |
| DraftBackend.RowFieldsValues | src/main/java/org/example/Backend.java:129-133 | Each column's list gains this row's dequoted field at its end. |
| DraftBackend.ColumnEntriesBeyondWidth | src/main/java/org/example/Backend.java:129 | Columns outside every row's width have no entries. |
| DraftBackend.ColumnIndexFails | src/main/java/org/example/Backend.java:125-137 | The intended index (`ColumnIndex`) throws if and only if some row has a field shorter than two characters. |
| DraftBackend.ColumnIndexKeys | src/main/java/org/example/Backend.java:125-137 | The map's keys are exactly the columns 0 up to the widest row's length. |
| DraftBackend.ColumnIndexValues | src/main/java/org/example/Backend.java:125-137 | Each column maps to its dequoted fields in row order, blanks included. |
| DraftBackend.ColumnWordsMap | src/main/java/org/example/Backend.java:125-137 | The loop computes the intended index, or its exception. |
| DraftBackend.IndexRow | src/main/java/org/example/Backend.java:128-134 | The inner loop over one row adds each field to its column, or throws. |
| DraftBackend.ColumnIndexStaysFailed | src/main/java/org/example/Backend.java:127-135 | Once a row throws, the result is that exception. |
| DraftBackend.AsWrittenFailsOnFirstField | src/main/java/org/example/Backend.java:130 | As written (`ColumnIndexAsWritten`, with `RowFieldsAsWritten` per row), the index throws a NullPointerException if and only if some row has a field. Otherwise it is the empty map. |
| DraftBackend.FirstInsertThrows | src/main/java/org/example/Backend.java:130 | On the one-row input `"a"`, the code as written throws. The intended index maps column 0 to `[a]`. |
| DraftBackend.GetNodes | src/main/java/org/example/Backend.java:117-123 | Node i is a fresh root of size 1 with number i and row text `String.join(";", input[i])` (`Texts`). |
| DraftBackend.ColumnEntriesFrom | src/main/java/org/example/Backend.java:127-135 | Every entry of column c is some row's c-th field, dequoted, and that field has at least two characters. |
| DraftBackend.ColumnEntriesHas | src/main/java/org/example/Backend.java:127-135 | Every row's c-th field, dequoted, is in column c's list. |
| DraftBackend.ColumnLists | src/main/java/org/example/Backend.java:101-103 | The map's lists in ascending column order, one per column, each owned by the rows. |
| DraftBackend.ColumnMerged | src/main/java/org/example/Backend.java:100-115 | The partition after the per-column passes is valid. |
| DraftBackend.ColumnMergedJoins | src/main/java/org/example/Backend.java:100-115 | Rows with equal dequoted values in one column position end in one set. |
| DraftBackend.ColumnMergedRefines | src/main/java/org/example/Backend.java:100-115 | Any labelling that respects same-column sharing is constant on every set. |
| DraftBackend.UnionNodesByColumn | src/main/java/org/example/Backend.java:100-115 | The loops leave the forest's partition equal to the specified passes over the column lists. |
| DraftBackend.TransformInputToResult | src/main/java/org/example/Backend.java:86-98 | It fails if and only if some row has a field shorter than two characters. On success, each row sits in exactly one group, and rows share a group exactly when they share a set. Each key holds its set's size and its least row index. The groups are sorted, and each holds at most key.size texts. The result is empty if and only if the input is. |
| DraftBackend.GroupColumns | src/main/java/org/example/Backend.java:89-97 | The unions and the bucketing yield that grouping of the per-column partition, with each key's root number the least row of its group. |
| DraftBackend.BucketSizes | src/main/java/org/example/Backend.java:91-97 | A group's text set can be smaller than key.size, when lines repeat, but never larger. There are no groups if and only if there are no rows. |
| DraftBackend.DuplicatesShareSet | src/main/java/org/example/Backend.java:100-115 | Two identical non-empty rows end in one set. |
| DraftBackend.CrossColumnValuesStaySeparate | src/main/java/org/example/Backend.java:101-103 | On two rows that share the value b only across columns, the rows stay in different sets. |
| DraftBackend.SeparateRowsLabelled | src/main/java/org/example/Backend.java:101-103 | On those two rows, labelling them 0 and 1 respects same-column sharing. |

## Left out

- File and console I/O is not modelled, including the timing calls. This covers `run`, `Files.readAllLines`, `writeFile`, `printMessageResults` and `System.exit`. The loaders take the file's lines as a parameter.
- `src/main/java/org/grunskii/Main.java` (argument and file-existence checks) is not part of this model.
- `src/test/java/BackendTest.java` is not part of this model: it compares output files with fixtures.
- `org.grunskii.Node` is not part of this model. It is taken to behave like `src/main/java/org/example/Node.java`, which is the forest modelled here.
- `HashSet` iteration order is not modelled.
  - `Backend.GetNodes` numbers the rows in any enumeration of the set.
  - The index loop (line 125) and the numbering loop (line 117) are taken to enumerate the set in the same order.
- `HashMap` iteration order is not modelled. The draft's columns are taken in ascending order (`DraftBackend.ColumnLists`). The per-column unions give the same sets in any column order, but the model proves this only for that order.
- The nodes are allocated all at once in an arena, and a node is its slot number. Java object identity and aliasing between node objects are not modelled.
- The amortized cost of path compression is not modelled. It is not a functional property.
- `NodeElement.equals` is not modelled, because the algorithm never calls it.
- `Backend.TransformInputToResult`, `DraftBackend.TransformInputToResult`, `Grouping.BucketRows` and `Grouping.FileAll` require at most 2^31-1 rows. Java numbers the nodes with `int`, and under this bound the subtracting comparator cannot overflow. The program itself states no such bound.
- Trimming and blankness follow `String.trim` (code points up to U+0020) and `Character.isWhitespace` exactly. Strings are sequences of code points; UTF-16 surrogate pairs are not modelled.
- `Text.Split` models `String.split(";")` for a one-character delimiter only: no regular-expression features. `SplitLine` drops trailing empty pieces as Java does, so a line of only `;` yields no pieces. The working loader keeps such a line as the empty row, and the index loop then throws on it (`Backend.DelimiterOnlyLine`, `Backend.RowEntriesFails`).
- The draft calls a static `Node.getParent(node)` at line 93, which `Node.java` does not declare. The model uses the instance method `getParent` at `Node.java:43-50`, via `Grouping.BucketRows`.
- Exceptions are modelled as failure results: a `StringIndexOutOfBoundsException` from the dequoting substring and an `IndexOutOfBoundsException` at column 15 or beyond. The loops' partial effects before the exception are not modelled.
- `DraftBackend.TransformInputToResult` locates every row's group and bounds the group's text set by key.size. It does not state the exact count of a group's distinct texts when lines repeat.

## Findings

| source | as written | input that shows it | evidently intended | confidence | as-written member | corrected member |
|---|---|---|---|---|---|---|
| src/main/java/org/example/Backend.java:130 | `putIfAbsent` returns null when it inserts, so `Objects.requireNonNull` throws on the first field of the first row. Even with the check removed, `List.of()` is immutable and `add` would throw. | any input with a non-empty row, e.g. the single line `"a"` | each column maps to a growing list of its dequoted fields in row order | not executed | DraftBackend.AsWrittenFailsOnFirstField | DraftBackend.ColumnIndexValues |
