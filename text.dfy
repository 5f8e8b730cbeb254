/**
 * The string operations the row loaders rely on: Java's String.trim and
 * String.isBlank, the quoted-field check of loadFile, the dequoting
 * substring(1, length - 1), and joining and splitting on the delimiter.
 */
module Text {

  const Delimiter: char := ';'
  const QuoteChar: char := '"'

  /** String.trim removes every leading and trailing code point up to U+0020. */
  predicate IsTrimmable(c: char)
  {
    c <= ' '
  }

  function TrimStart(s: string): string
  {
    if |s| > 0 && IsTrimmable(s[0]) then TrimStart(s[1..]) else s
  }

  function TrimEnd(s: string): string
  {
    if |s| > 0 && IsTrimmable(s[|s| - 1]) then TrimEnd(s[..|s| - 1]) else s
  }

  /** String.trim: the leading run of code points up to U+0020 is dropped, then the trailing one. */
  function Trim(s: string): string
  {
    TrimEnd(TrimStart(s))
  }

  /** TrimStart drops a prefix made of trimmable code points and stops at one that is not. */
  lemma {:induction false} TrimStartShape(s: string)
    ensures |TrimStart(s)| <= |s| && TrimStart(s) == s[|s| - |TrimStart(s)|..]
    ensures forall i :: 0 <= i < |s| - |TrimStart(s)| ==> IsTrimmable(s[i])
    ensures TrimStart(s) != [] ==> !IsTrimmable(TrimStart(s)[0])
  {
    if |s| > 0 && IsTrimmable(s[0]) {
      TrimStartShape(s[1..]);
    }
  }

  /** TrimEnd drops a suffix made of trimmable code points and stops at one that is not. */
  lemma {:induction false} TrimEndShape(s: string)
    ensures |TrimEnd(s)| <= |s| && TrimEnd(s) == s[..|TrimEnd(s)|]
    ensures forall i :: |TrimEnd(s)| <= i < |s| ==> IsTrimmable(s[i])
    ensures TrimEnd(s) != [] ==> !IsTrimmable(TrimEnd(s)[|TrimEnd(s)| - 1])
  {
    if |s| > 0 && IsTrimmable(s[|s| - 1]) {
      TrimEndShape(s[..|s| - 1]);
    }
  }

  /**
   * String.trim returns the slice of `s` that is left once the trimmable code
   * points at both ends are dropped: it neither starts nor ends with one, and
   * everything dropped is one.
   */
  lemma TrimShape(s: string) returns (k: int)
    ensures 0 <= k <= k + |Trim(s)| <= |s| && Trim(s) == s[k..k + |Trim(s)|]
    ensures forall i :: 0 <= i < k ==> IsTrimmable(s[i])
    ensures forall i :: k + |Trim(s)| <= i < |s| ==> IsTrimmable(s[i])
    ensures Trim(s) != [] ==> !IsTrimmable(Trim(s)[0]) && !IsTrimmable(Trim(s)[|Trim(s)| - 1])
  {
    var front := TrimStart(s);
    TrimStartShape(s);
    TrimEndShape(front);
    k := |s| - |front|;
    var r := Trim(s);
    assert r == front[..|r|];
    assert forall i :: k <= i < |s| ==> s[i] == front[i - k];
  }

  /** Trimming a second time changes nothing. */
  lemma TrimIdempotent(s: string)
    ensures Trim(Trim(s)) == Trim(s)
  {
    var t := Trim(s);
    var _ := TrimShape(s);
    if t != [] {
      assert TrimStart(t) == t;
      assert TrimEnd(t) == t;
    }
  }

  /** A field trimmed out of a delimiter-free string is itself delimiter-free. */
  lemma TrimKeepsDelimiterOut(s: string)
    requires Delimiter !in s
    ensures Delimiter !in Trim(s)
  {
    var t := Trim(s);
    var k := TrimShape(s);
    forall i | 0 <= i < |t|
      ensures t[i] != Delimiter
    {
      assert t[i] == s[k + i];
    }
  }

  /** Character.isWhitespace: the Unicode space, line and paragraph separators other than the
      no-break spaces, and the controls U+0009..U+000D and U+001C..U+001F. */
  predicate IsWhitespace(c: char)
  {
    var n := c as int;
    || 0x09 <= n <= 0x0D || 0x1C <= n <= 0x20
    || n == 0x1680 || 0x2000 <= n <= 0x2006 || 0x2008 <= n <= 0x200A
    || n == 0x2028 || n == 0x2029 || n == 0x205F || n == 0x3000
  }

  /** String.isBlank: empty, or white space only. */
  predicate IsBlank(s: string)
  {
    forall i :: 0 <= i < |s| ==> IsWhitespace(s[i])
  }

  /** substring(1, length - 1): the text between the first and the last character. */
  function Inner(s: string): string
    requires |s| >= 2
  {
    s[1..|s| - 1]
  }

  /** A value wrapped in quote characters. */
  function Quoted(v: string): string
  {
    [QuoteChar] + v + [QuoteChar]
  }

  /**
   * The per-field test of loadFile: at least two characters, a quote first and
   * last, and no quote in between.
   */
  predicate ValidField(s: string)
  {
    |s| >= 2 && s[0] == QuoteChar && s[|s| - 1] == QuoteChar && QuoteChar !in Inner(s)
  }

  /** The fields that pass are exactly the quoted quote-free values, and dequoting gives the value back. */
  lemma ValidFieldIsQuotedValue(s: string)
    ensures ValidField(s) <==> |s| >= 2 && s == Quoted(Inner(s)) && QuoteChar !in Inner(s)
  {
    if |s| >= 2 && s == Quoted(Inner(s)) {
      assert s[0] == QuoteChar && s[|s| - 1] == QuoteChar;
    }
  }

  lemma QuotedValueIsValidField(v: string)
    requires QuoteChar !in v
    ensures ValidField(Quoted(v)) && Inner(Quoted(v)) == v
  {
    assert Inner(Quoted(v)) == v;
  }

  /** The row test of loadFile on a row of trimmed fields: walking the fields, none fails the field test. */
  predicate IsCorrectRow(fields: seq<string>)
  {
    fields == [] || (ValidField(fields[0]) && IsCorrectRow(fields[1..]))
  }

  /** A row is correct exactly when every one of its fields passes the field test. */
  lemma {:induction false} IsCorrectRowMeaning(fields: seq<string>)
    ensures IsCorrectRow(fields) <==> forall c :: 0 <= c < |fields| ==> ValidField(fields[c])
  {
    if fields != [] {
      IsCorrectRowMeaning(fields[1..]);
      assert forall c :: 1 <= c < |fields| ==> fields[1..][c - 1] == fields[c];
    }
  }

  /** The fields of a line, each trimmed. */
  function TrimAll(fields: seq<string>): (r: seq<string>)
    ensures |r| == |fields| && forall c :: 0 <= c < |fields| ==> r[c] == Trim(fields[c])
  {
    seq(|fields|, c requires 0 <= c < |fields| => Trim(fields[c]))
  }

  /** Trimming every field a second time changes nothing. */
  lemma TrimAllIdempotent(pieces: seq<string>)
    ensures TrimAll(TrimAll(pieces)) == TrimAll(pieces)
  {
    var fields := TrimAll(pieces);
    forall c | 0 <= c < |fields|
      ensures Trim(fields[c]) == fields[c]
    {
      TrimIdempotent(pieces[c]);
    }
  }

  /** Trimming delimiter-free pieces gives delimiter-free fields. */
  lemma TrimAllKeepsDelimiterOut(pieces: seq<string>)
    requires forall k :: 0 <= k < |pieces| ==> Delimiter !in pieces[k]
    ensures forall k :: 0 <= k < |pieces| ==> Delimiter !in TrimAll(pieces)[k]
  {
    forall k | 0 <= k < |pieces|
      ensures Delimiter !in TrimAll(pieces)[k]
    {
      TrimKeepsDelimiterOut(pieces[k]);
    }
  }

  /** String.join(";", fields). */
  function Join(fields: seq<string>): string
  {
    if |fields| == 0 then ""
    else if |fields| == 1 then fields[0]
    else fields[0] + [Delimiter] + Join(fields[1..])
  }

  /**
   * String.split(";") on a string that does not end in a delimiter: the
   * delimiter-free pieces between the delimiters. Joining them again gives
   * the string back.
   */
  function Split(s: string): (r: seq<string>)
    ensures |r| >= 1
    decreases |s|
  {
    if |s| == 0 then [""]
    else
      var rest := Split(s[1..]);
      if s[0] == Delimiter then [""] + rest
      else [[s[0]] + rest[0]] + rest[1..]
  }

  /** The pieces of a split are delimiter-free, and joining them gives the string back. */
  lemma {:induction false} SplitShape(s: string)
    ensures forall k :: 0 <= k < |Split(s)| ==> Delimiter !in Split(s)[k]
    ensures Join(Split(s)) == s
    decreases |s|
  {
    if |s| > 0 {
      var rest := Split(s[1..]);
      SplitShape(s[1..]);
      if s[0] == Delimiter {
        assert [""] + rest == [""] + [rest[0]] + rest[1..];
      } else {
        var r := [[s[0]] + rest[0]] + rest[1..];
        assert |rest| > 1 ==> Join(rest) == rest[0] + [Delimiter] + Join(rest[1..]);
        assert r[1..] == rest[1..];
      }
    }
  }

  /** Splitting a string with no delimiter gives the string itself. */
  lemma {:induction false} SplitWithoutDelimiter(s: string)
    requires Delimiter !in s
    ensures Split(s) == [s]
  {
    if |s| > 0 {
      SplitWithoutDelimiter(s[1..]);
      assert [s[0]] + s[1..] == s;
    }
  }

  /** Splitting at the first delimiter. */
  lemma {:induction false} SplitAtFirstDelimiter(f: string, t: string)
    requires Delimiter !in f
    ensures Split(f + [Delimiter] + t) == [f] + Split(t)
  {
    var s := f + [Delimiter] + t;
    if |f| == 0 {
      assert s[1..] == t;
    } else {
      assert s[1..] == f[1..] + [Delimiter] + t;
      SplitAtFirstDelimiter(f[1..], t);
      assert [f[0]] + f[1..] == f;
    }
  }

  /** Join followed by Split gives back any non-empty sequence of delimiter-free fields. */
  lemma {:induction false} SplitJoin(fields: seq<string>)
    requires |fields| >= 1
    requires forall k :: 0 <= k < |fields| ==> Delimiter !in fields[k]
    ensures Split(Join(fields)) == fields
  {
    if |fields| == 1 {
      SplitWithoutDelimiter(fields[0]);
    } else {
      SplitAtFirstDelimiter(fields[0], Join(fields[1..]));
      SplitJoin(fields[1..]);
    }
  }

  /** Drops the empty strings at the end of a list of pieces. */
  function DropTrailingEmpty(pieces: seq<string>): seq<string>
  {
    if pieces != [] && pieces[|pieces| - 1] == "" then DropTrailingEmpty(pieces[..|pieces| - 1]) else pieces
  }

  /** What DropTrailingEmpty keeps is a prefix that does not end in an empty piece, and all it drops is empty. */
  lemma {:induction false} DropTrailingEmptyShape(pieces: seq<string>)
    ensures DropTrailingEmpty(pieces) <= pieces
    ensures DropTrailingEmpty(pieces) != [] ==> DropTrailingEmpty(pieces)[|DropTrailingEmpty(pieces)| - 1] != ""
    ensures forall k :: |DropTrailingEmpty(pieces)| <= k < |pieces| ==> pieces[k] == ""
  {
    if pieces != [] && pieces[|pieces| - 1] == "" {
      DropTrailingEmptyShape(pieces[..|pieces| - 1]);
    }
  }

  /**
   * String.split(";"): a string without the delimiter gives itself (so the
   * empty string gives one empty piece); otherwise the delimiter-free pieces,
   * without the empty ones at the end.
   */
  function SplitLine(line: string): seq<string>
  {
    if Delimiter !in line then [line] else DropTrailingEmpty(Split(line))
  }

  /** The pieces of a line are delimiter-free. */
  lemma SplitLinePieces(line: string)
    ensures forall k :: 0 <= k < |SplitLine(line)| ==> Delimiter !in SplitLine(line)[k]
  {
    if Delimiter in line {
      SplitShape(line);
      DropTrailingEmptyShape(Split(line));
    }
  }

  /** Joining at least two pieces puts a delimiter into the text. */
  lemma JoinHasDelimiter(fields: seq<string>)
    requires |fields| >= 2
    ensures Delimiter in Join(fields)
  {
    assert Join(fields)[|fields[0]|] == Delimiter;
  }

  /** Splitting the join of delimiter-free fields, the last one not empty, gives the fields back. */
  lemma SplitLineJoin(fields: seq<string>)
    requires |fields| >= 1 && fields[|fields| - 1] != ""
    requires forall k :: 0 <= k < |fields| ==> Delimiter !in fields[k]
    ensures SplitLine(Join(fields)) == fields
  {
    if |fields| == 1 {
      assert Join(fields) == fields[0];
    } else {
      JoinHasDelimiter(fields);
      SplitJoin(fields);
      assert DropTrailingEmpty(fields) == fields;
    }
  }

  /** A correct row of trimmed delimiter-free pieces survives joining and splitting again. */
  lemma CorrectRowSplitsBack(pieces: seq<string>)
    requires |pieces| >= 1 && IsCorrectRow(TrimAll(pieces))
    requires forall k :: 0 <= k < |pieces| ==> Delimiter !in pieces[k]
    ensures SplitLine(Join(TrimAll(pieces))) == TrimAll(pieces)
  {
    var fields := TrimAll(pieces);
    IsCorrectRowMeaning(fields);
    TrimAllKeepsDelimiterOut(pieces);
    assert ValidField(fields[|fields| - 1]);
    SplitLineJoin(fields);
  }
}
