/** Header naming and row assembly from fetched sheet columns. Both sheet modules
    (google_sheets_handler.py and google_sheet.py) carry the same camel_case and the
    same assembly loops; they are defined once here. */
module Ingest {
  import opened StrOps

  /** One fetched range: its rows, each a (possibly empty) list of cells. */
  type Column = seq<seq<string>>

  /** The number of configured ranges: columns A, B, F, G, I and L of the month's sheet. */
  const RangeCount := 6

  predicate IsSeparator(c: char) {
    c == '_' || c == '-'
  }

  /** A character that camel-casing removes or splits on. */
  predicate IsWordBreak(c: char) {
    c == ' ' || IsSeparator(c)
  }

  function SkipSeparators(s: string): (r: string)
    ensures |r| <= |s| && r == s[|s| - |r|..]
    ensures r == [] || !IsSeparator(r[0])
  {
    if s != [] && IsSeparator(s[0]) then SkipSeparators(s[1..]) else s
  }

  /** re.sub(r'(_|-)+', ' ', s): every maximal run of '_' and '-' becomes one space. */
  function CollapseSeparators(s: string): (r: string)
    ensures forall i :: 0 <= i < |r| ==> !IsSeparator(r[i])
    decreases |s|
  {
    if s == [] then []
    else if IsSeparator(s[0]) then [' '] + CollapseSeparators(SkipSeparators(s[1..]))
    else [s[0]] + CollapseSeparators(s[1..])
  }

  /** camel_case: separators become spaces, the text is stripped and lower-cased,
      split on single spaces, and every word after the first is title-cased. */
  function CamelCase(text: string): (key: string) {
    var words := Words(text);
    words[0] + TitledConcat(words[1..])
  }

  /** The words of a header: separators become spaces, then strip, lower and split. */
  function Words(text: string): (words: seq<string>)
    ensures |words| > 0
  {
    Split(Lower(Strip(CollapseSeparators(text))), ' ')
  }

  /** ''.join(word.title() for word in words) */
  function TitledConcat(words: seq<string>): string {
    if words == [] then [] else Title(words[0]) + TitledConcat(words[1..])
  }

  lemma {:induction false} CollapsePlain(x: string, y: string)
    requires forall i :: 0 <= i < |x| ==> !IsSeparator(x[i])
    ensures CollapseSeparators(x + y) == x + CollapseSeparators(y)
  {
    if x != [] {
      assert (x + y)[0] == x[0];
      assert (x + y)[1..] == x[1..] + y;
      CollapsePlain(x[1..], y);
      assert CollapseSeparators(x + y) == [x[0]] + (x[1..] + CollapseSeparators(y));
      assert [x[0]] + (x[1..] + CollapseSeparators(y)) == ([x[0]] + x[1..]) + CollapseSeparators(y);
      assert [x[0]] + x[1..] == x;
    } else {
      assert x + y == y;
    }
  }

  predicate IsLetterWord(w: string) {
    w != [] && forall i :: 0 <= i < |w| ==> IsAsciiLetter(w[i])
  }

  lemma CollapseTwoWords(a: string, sep: char, b: string)
    requires IsLetterWord(a) && IsLetterWord(b) && IsWordBreak(sep)
    ensures CollapseSeparators(a + [sep] + b) == a + [' '] + b
  {
    CollapsePlain(a, [sep] + b);
    assert a + [sep] + b == a + ([sep] + b);
    CollapseBreakWord(sep, b);
  }

  /** One break character before a word becomes one space. */
  lemma CollapseBreakWord(sep: char, b: string)
    requires IsLetterWord(b) && IsWordBreak(sep)
    ensures CollapseSeparators([sep] + b) == [' '] + b
  {
    CollapsePlain(b, []);
    assert b + [] == b;
    var s := [sep] + b;
    assert s[0] == sep && s[1..] == b;
    if IsSeparator(sep) {
      assert SkipSeparators(b) == b;
    }
  }

  /** A non-empty run of '_' and '-'. */
  predicate IsSeparatorRun(r: string) {
    r != [] && forall i :: 0 <= i < |r| ==> IsSeparator(r[i])
  }

  /** Skipping separators passes over a whole run and stops at the next word. */
  lemma {:induction false} SkipRun(r: string, y: string)
    requires forall i :: 0 <= i < |r| ==> IsSeparator(r[i])
    requires y == [] || !IsSeparator(y[0])
    ensures SkipSeparators(r + y) == y
  {
    if r == [] {
      assert r + y == y;
    } else {
      assert (r + y)[0] == r[0];
      assert (r + y)[1..] == r[1..] + y;
      SkipRun(r[1..], y);
    }
  }

  /** A text that opens with a run of separators collapses to one space before the rest. */
  lemma {:induction false} CollapseLeadingRun(r: string, y: string)
    requires IsSeparatorRun(r)
    requires y == [] || !IsSeparator(y[0])
    ensures CollapseSeparators(r + y) == " " + CollapseSeparators(y)
  {
    var ry := r + y;
    assert ry[0] == r[0] && IsSeparator(ry[0]);
    assert ry[1..] == r[1..] + y;
    SkipRun(r[1..], y);
    assert SkipSeparators(ry[1..]) == y;
  }

  /** A maximal run of separators, however long, becomes exactly one space. */
  lemma {:induction false} CollapseRun(x: string, r: string, y: string)
    requires forall i :: 0 <= i < |x| ==> !IsSeparator(x[i])
    requires IsSeparatorRun(r)
    requires y == [] || !IsSeparator(y[0])
    ensures CollapseSeparators(x + r + y) == CollapseSeparators(x) + " " + CollapseSeparators(y)
  {
    CollapsePlain(x, r + y);
    CollapsePlain(x, []);
    assert x + [] == x;
    assert x + r + y == x + (r + y);
    CollapseLeadingRun(r, y);
  }

  /** A run of separators between two words names the same field as a single '_'. */
  lemma {:induction false} CamelCaseRunBlind(x: string, r: string, y: string)
    requires forall i :: 0 <= i < |x| ==> !IsSeparator(x[i])
    requires IsSeparatorRun(r)
    requires y == [] || !IsSeparator(y[0])
    ensures CamelCase(x + r + y) == CamelCase(x + "_" + y)
  {
    CollapseRun(x, r, y);
    CollapseRun(x, "_", y);
  }

  /** "due__date", with a doubled underscore, still names the field dueDate. */
  lemma DoubledSeparatorDueDate()
    ensures CamelCase("due__date") == "dueDate"
  {
    assert "due__date" == "due" + "__" + "date";
    CamelCaseRunBlind("due", "__", "date");
    assert "due" + "_" + "date" == "due_date";
    DueDateHeaders("due_date");
  }

  lemma StripTwoWords(a: string, b: string)
    requires IsLetterWord(a) && IsLetterWord(b)
    ensures Strip(a + [' '] + b) == a + [' '] + b
  {
    var spaced := a + [' '] + b;
    assert spaced[0] == a[0] && spaced[|spaced| - 1] == b[|b| - 1];
    assert StrippedAt(spaced, 0, |spaced|);
    StripUnique(spaced, 0, |spaced|);
    assert spaced[0..|spaced|] == spaced;
  }

  lemma SplitTwoWords(a: string, b: string)
    requires IsLetterWord(a) && IsLetterWord(b)
    ensures Split(Lower(a + [' '] + b), ' ') == [Lower(a), Lower(b)]
  {
    LowerAppend(a + [' '], b);
    LowerAppend(a, [' ']);
    var la, lb := Lower(a), Lower(b);
    assert Lower([' ']) == [' '];
    assert Lower(a + [' '] + b) == la + [' '] + lb;
    assert Join([la, lb], [' ']) == la + [' '] + lb by {
      assert [la, lb][1..] == [lb];
    }
    assert forall i :: 0 <= i < |la| ==> la[i] != ' ';
    assert forall i :: 0 <= i < |lb| ==> lb[i] != ' ';
    SplitJoin([la, lb], ' ');
  }

  /** A two-word header with any one separator becomes the first word lower-cased
      followed by the second word title-cased. */
  lemma WordsTwo(a: string, sep: char, b: string)
    requires IsLetterWord(a) && IsLetterWord(b) && IsWordBreak(sep)
    ensures Words(a + [sep] + b) == [Lower(a), Lower(b)]
  {
    CollapseTwoWords(a, sep, b);
    StripTwoWords(a, b);
    SplitTwoWords(a, b);
  }

  lemma CamelCaseTwoWords(a: string, sep: char, b: string)
    requires IsLetterWord(a) && IsLetterWord(b) && IsWordBreak(sep)
    ensures CamelCase(a + [sep] + b) == Lower(a) + Title(Lower(b))
  {
    WordsTwo(a, sep, b);
    assert [Lower(a), Lower(b)][1..] == [Lower(b)];
    assert TitledConcat([Lower(b)]) == Title(Lower(b)) + TitledConcat([]);
  }

  lemma LowerDueDate()
    ensures Lower("Due") == "due" && Lower("due") == "due"
    ensures Lower("Date") == "date" && Lower("date") == "date"
    ensures Title("date") == "Date"
  {
  }

  lemma DueDateWords()
    ensures IsLetterWord("Due") && IsLetterWord("due") && IsLetterWord("Date") && IsLetterWord("date")
  {
  }

  lemma DueDateSplits()
    ensures "Due Date" == "Due" + [' '] + "Date"
    ensures "due_date" == "due" + ['_'] + "date"
    ensures "due-date" == "due" + ['-'] + "date"
  {
  }

  lemma DueDateWordFacts(a: string, b: string)
    requires (a == "Due" && b == "Date") || (a == "due" && b == "date")
    ensures IsLetterWord(a) && IsLetterWord(b)
    ensures Lower(a) == "due" && Title(Lower(b)) == "Date"
  {
    DueDateWords();
    LowerDueDate();
  }

  lemma CamelCaseDueDate(a: string, b: string, sep: char)
    requires IsLetterWord(a) && IsLetterWord(b) && IsWordBreak(sep)
    requires Lower(a) == "due" && Title(Lower(b)) == "Date"
    ensures CamelCase(a + [sep] + b) == "dueDate"
  {
    CamelCaseTwoWords(a, sep, b);
  }

  lemma DueDateParts(a: string, b: string, sep: char)
    requires (a == "Due" && b == "Date") || (a == "due" && b == "date")
    requires IsWordBreak(sep)
    ensures CamelCase(a + [sep] + b) == "dueDate"
  {
    DueDateWordFacts(a, b);
    CamelCaseDueDate(a, b, sep);
  }

  /** "Due Date", "due_date" and "due-date" all name the field dueDate. */
  lemma DueDateHeaders(h: string)
    requires h == "Due Date" || h == "due_date" || h == "due-date"
    ensures CamelCase(h) == "dueDate"
  {
    DueDateSplits();
    if h == "Due Date" {
      DueDateParts("Due", "Date", ' ');
    } else if h == "due_date" {
      DueDateParts("due", "date", '_');
    } else {
      DueDateParts("due", "date", '-');
    }
  }

  /** An empty header cell yields the empty field name. */
  lemma CamelCaseEmpty()
    ensures CamelCase("") == ""
  {
    assert Strip("") == "";
    assert Split("", ' ') == [""];
  }

  /** Two headers that differ only in which of '_' and '-' stands at some positions
      name the same field. */
  ghost predicate SameUpToSeparators(a: string, b: string) {
    |a| == |b| && forall i :: 0 <= i < |a| ==> a[i] == b[i] || (IsSeparator(a[i]) && IsSeparator(b[i]))
  }

  lemma {:induction false} SkipSeparatorsSame(a: string, b: string)
    requires SameUpToSeparators(a, b)
    ensures SameUpToSeparators(SkipSeparators(a), SkipSeparators(b))
  {
    if a != [] && IsSeparator(a[0]) {
      SkipSeparatorsSame(a[1..], b[1..]);
    }
  }

  lemma {:induction false} CollapseSame(a: string, b: string)
    requires SameUpToSeparators(a, b)
    ensures CollapseSeparators(a) == CollapseSeparators(b)
    decreases |a|
  {
    if a != [] {
      if IsSeparator(a[0]) {
        SkipSeparatorsSame(a[1..], b[1..]);
        CollapseSame(SkipSeparators(a[1..]), SkipSeparators(b[1..]));
      } else {
        CollapseSame(a[1..], b[1..]);
      }
    }
  }

  lemma CamelCaseSeparatorBlind(a: string, b: string)
    requires SameUpToSeparators(a, b)
    ensures CamelCase(a) == CamelCase(b)
  {
    CollapseSame(a, b);
  }

  predicate NoBreaks(s: string) {
    forall i :: 0 <= i < |s| ==> !IsWordBreak(s[i])
  }

  /** The stripped, lower-cased header holds no '_' or '-'. */
  lemma {:induction false} NormalisedHasNoSeparators(text: string)
    ensures forall k :: 0 <= k < |Lower(Strip(CollapseSeparators(text)))| ==> !IsSeparator(Lower(Strip(CollapseSeparators(text)))[k])
  {
    var c := CollapseSeparators(text);
    var st := Strip(c);
    StripSpec(c);
    var i0, j0 :| StrippedAt(c, i0, j0) && st == c[i0..j0];
    var low := Lower(st);
    forall k | 0 <= k < |low| ensures !IsSeparator(low[k]) {
      assert st[k] == c[i0 + k];
      assert low[k] == LowerChar(st[k]);
    }
  }

  lemma {:induction false} WordsHaveNoBreaks(text: string)
    ensures forall w :: 0 <= w < |Words(text)| ==> NoBreaks(Words(text)[w])
  {
    var low := Lower(Strip(CollapseSeparators(text)));
    NormalisedHasNoSeparators(text);
    var words := Split(low, ' ');
    SplitSpec(low, ' ');
    forall w | 0 <= w < |words| ensures NoBreaks(words[w]) {
      JoinPieces(words, [' '], w);
      forall k | 0 <= k < |words[w]| ensures !IsWordBreak(words[w][k]) {
        assert words[w][k] != ' ';
        var p :| 0 <= p < |low| && low[p] == words[w][k];
      }
    }
  }

  lemma {:induction false} TitledConcatNoBreaks(ws: seq<string>)
    requires forall w :: 0 <= w < |ws| ==> NoBreaks(ws[w])
    ensures NoBreaks(TitledConcat(ws))
  {
    if ws != [] {
      TitledConcatNoBreaks(ws[1..]);
      var t := Title(ws[0]);
      assert NoBreaks(t) by {
        forall k | 0 <= k < |t| ensures !IsWordBreak(t[k]) {
          assert !IsWordBreak(ws[0][k]);
        }
      }
      var r := TitledConcat(ws[1..]);
      forall k | 0 <= k < |t + r| ensures !IsWordBreak((t + r)[k]) {
        if k >= |t| { assert (t + r)[k] == r[k - |t|]; }
      }
    }
  }

  /** A field name never contains a space, '_' or '-'. */
  lemma CamelCaseHasNoBreaks(text: string)
    ensures NoBreaks(CamelCase(text))
  {
    var words := Words(text);
    WordsHaveNoBreaks(text);
    TitledConcatNoBreaks(words[1..]);
    var r := TitledConcat(words[1..]);
    forall k | 0 <= k < |words[0] + r| ensures !IsWordBreak((words[0] + r)[k]) {
      if k >= |words[0]| { assert (words[0] + r)[k] == r[k - |words[0]|]; }
    }
  }

  /** Every character of a piece of a join is a character of the joined string. */
  lemma {:induction false} JoinPieces(words: seq<string>, sep: string, w: int)
    requires 0 <= w < |words|
    ensures forall k :: 0 <= k < |words[w]| ==> words[w][k] in Join(words, sep)
  {
    if |words| > 1 {
      var rest := Join(words[1..], sep);
      assert Join(words, sep) == words[0] + sep + rest;
      if w > 0 {
        JoinPieces(words[1..], sep, w - 1);
        forall k | 0 <= k < |words[w]| ensures words[w][k] in Join(words, sep) {
          assert words[w][k] in rest;
          var p :| 0 <= p < |rest| && rest[p] == words[w][k];
          assert Join(words, sep)[|words[0] + sep| + p] == rest[p];
        }
      } else {
        forall k | 0 <= k < |words[0]| ensures words[0][k] in Join(words, sep) {
          assert Join(words, sep)[k] == words[0][k];
        }
      }
    }
  }

  /** The header cell of a fetched range: its first cell, or '' when there is none. */
  function HeaderCell(column: Column): string {
    if |column| > 0 && |column[0]| > 0 then column[0][0] else ""
  }

  /** The cell of row i of a range: '' past the end of the range or for a row with no cells. */
  function CellAt(column: Column, i: nat): string {
    if i < |column| && |column[i]| > 0 then column[i][0] else ""
  }

  /** The field names, one per range. */
  function Headers(columns: seq<Column>): (hs: seq<string>)
    ensures |hs| == |columns|
  {
    if columns == [] then []
    else Headers(columns[..|columns| - 1]) + [CamelCase(HeaderCell(columns[|columns| - 1]))]
  }

  /** Field name k is camel_case of range k's header cell. */
  lemma {:induction false} HeadersAt(columns: seq<Column>, k: nat)
    requires k < |columns|
    ensures Headers(columns)[k] == CamelCase(HeaderCell(columns[k]))
  {
    var init := columns[..|columns| - 1];
    assert Headers(columns) == Headers(init) + [CamelCase(HeaderCell(columns[|columns| - 1]))];
    if k < |columns| - 1 {
      HeadersAt(init, k);
      assert init[k] == columns[k];
    }
  }

  /** Data rows follow the first range's header: its length less one, or none at all. */
  function RowCount(columns: seq<Column>): nat
    requires |columns| > 0
  {
    if |columns[0]| > 0 then |columns[0]| - 1 else 0
  }

  /** Row i after the cells of the first n ranges were assigned under their field names. */
  function RowWith(headers: seq<string>, columns: seq<Column>, i: nat, n: nat): map<string, string>
    requires n <= |headers| == |columns|
  {
    if n == 0 then map[]
    else RowWith(headers, columns, i, n - 1)[headers[n - 1] := CellAt(columns[n - 1], i)]
  }

  /** Sheet row i (1 is the first data row) as a record of raw strings. */
  function AssembledRow(columns: seq<Column>, i: nat): map<string, string> {
    RowWith(Headers(columns), columns, i, |columns|)
  }

  /** Sheet rows 1 to n as records under the given field names. */
  function RowsUpTo(headers: seq<string>, columns: seq<Column>, n: nat): (rows: seq<map<string, string>>)
    requires |headers| == |columns|
    ensures |rows| == n
  {
    if n == 0 then [] else RowsUpTo(headers, columns, n - 1) + [RowWith(headers, columns, n, |columns|)]
  }

  lemma {:induction false} RowsUpToAt(headers: seq<string>, columns: seq<Column>, n: nat, i: nat)
    requires |headers| == |columns| && i < n
    ensures RowsUpTo(headers, columns, n)[i] == RowWith(headers, columns, i + 1, |columns|)
  {
    var init := RowsUpTo(headers, columns, n - 1);
    assert RowsUpTo(headers, columns, n) == init + [RowWith(headers, columns, n, |columns|)];
    if i < n - 1 {
      RowsUpToAt(headers, columns, n - 1, i);
      assert RowsUpTo(headers, columns, n)[i] == init[i];
    }
  }

  /** Every data row of the sheet as a record. */
  function AssembledRows(columns: seq<Column>): seq<map<string, string>>
    requires |columns| > 0
  {
    RowsUpTo(Headers(columns), columns, RowCount(columns))
  }

  lemma AssembledRowAt(columns: seq<Column>, i: nat)
    requires |columns| > 0 && i < RowCount(columns)
    ensures AssembledRows(columns)[i] == AssembledRow(columns, i + 1)
  {
    RowsUpToAt(Headers(columns), columns, RowCount(columns), i);
  }

  /** fetch_data's assembly: one header per range, then one record per data row; the
      row count comes from the first range alone. */
  method AssembleRows(columns: seq<Column>) returns (rows: seq<map<string, string>>)
    requires |columns| == RangeCount
    ensures rows == AssembledRows(columns)
    ensures |rows| == RowCount(columns)
  {
    var headers := HeaderNames(columns);
    rows := [];
    var numRows := if |columns[0]| > 0 then |columns[0]| - 1 else 0;
    for i := 1 to numRows + 1
      invariant rows == RowsUpTo(headers, columns, i - 1)
    {
      var row := BuildRow(headers, columns, i);
      rows := rows + [row];
    }
  }

  /** The header loop of the assembly: the field name of each range, in range order. */
  method HeaderNames(columns: seq<Column>) returns (headers: seq<string>)
    ensures headers == Headers(columns)
  {
    headers := [];
    for r := 0 to |columns|
      invariant headers == Headers(columns[..r])
    {
      assert columns[..r + 1][..r] == columns[..r];
      headers := headers + [CamelCase(HeaderCell(columns[r]))];
    }
    assert columns[..|columns|] == columns;
  }

  /** The inner loop of the assembly: the cells of row i, range by range. */
  method BuildRow(headers: seq<string>, columns: seq<Column>, i: nat) returns (row: map<string, string>)
    requires |headers| == |columns|
    ensures row == RowWith(headers, columns, i, |columns|)
  {
    row := map[];
    for idx := 0 to |columns|
      invariant row == RowWith(headers, columns, i, idx)
    {
      var values := columns[idx];
      var val := if i < |values| && |values[i]| > 0 then values[i][0] else "";
      row := row[headers[idx] := val];
    }
  }

  /** A record's fields are exactly the field names of the ranges. */
  lemma {:induction false} RowWithKeys(headers: seq<string>, columns: seq<Column>, i: nat, n: nat)
    requires n <= |headers| == |columns|
    ensures RowWith(headers, columns, i, n).Keys == set k | 0 <= k < n :: headers[k]
  {
    if n > 0 {
      RowWithKeys(headers, columns, i, n - 1);
    }
  }

  /** Under the field name of range idx stands that range's cell of the row, provided no
      later range carries the same field name (a later range overwrites it). */
  lemma {:induction false} RowWithField(headers: seq<string>, columns: seq<Column>, i: nat, n: nat, idx: nat)
    requires idx < n <= |headers| == |columns|
    requires forall j :: idx < j < n ==> headers[j] != headers[idx]
    ensures headers[idx] in RowWith(headers, columns, i, n)
    ensures RowWith(headers, columns, i, n)[headers[idx]] == CellAt(columns[idx], i)
  {
    if idx < n - 1 {
      RowWithField(headers, columns, i, n - 1, idx);
    }
  }

  /** The assembled record has one field per range name; each holds the range's cell, and
      a cell beyond the end of its range, or a row without cells, reads as ''. */
  lemma AssembledRowFields(columns: seq<Column>, i: nat, idx: nat)
    requires idx < |columns|
    requires forall j :: idx < j < |columns| ==> Headers(columns)[j] != Headers(columns)[idx]
    ensures AssembledRow(columns, i).Keys == set k | 0 <= k < |columns| :: Headers(columns)[k]
    ensures AssembledRow(columns, i)[Headers(columns)[idx]] == CellAt(columns[idx], i)
    ensures i >= |columns[idx]| || columns[idx][i] == [] ==> AssembledRow(columns, i)[Headers(columns)[idx]] == ""
  {
    RowWithKeys(Headers(columns), columns, i, |columns|);
    RowWithField(Headers(columns), columns, i, |columns|, idx);
  }
}
