/** google_sheets_handler.py: the rows assembled from the fetched ranges are coerced
    (checked and handOver to booleans, dueDate to a date or None), filtered to the
    actionable ones and grouped by the handler who must act on them. */
module SheetsHandler {
  import opened StrOps
  import opened Collections
  import opened Ingest

  /** A field value after coercion: a raw cell string, a boolean, a calendar date
      (as a day number) or None. */
  datatype Value = Text(s: string) | Flag(b: bool) | Day(d: int) | Null

  type Row = map<string, Value>

  /** Python truthiness of a value: '' and False and None are false, a date is true. */
  predicate Truthy(v: Value) {
    match v
    case Text(s) => s != []
    case Flag(b) => b
    case Day(_) => true
    case Null => false
  }

  /** str(v); a date is written by isoDate, the date's ISO rendering. */
  function Show(v: Value, isoDate: int -> string): string {
    match v
    case Text(s) => s
    case Flag(b) => if b then "True" else "False"
    case Day(d) => isoDate(d)
    case Null => "None"
  }

  /** row.get(k, default) */
  function Get(row: Row, k: string, default: Value): Value {
    if k in row then row[k] else default
  }

  /** raw.get(k, '') on a record of raw strings. */
  function Field(raw: map<string, string>, k: string): string {
    if k in raw then raw[k] else ""
  }

  /** s.strip().lower() == 'not yet' */
  predicate IsNotYet(s: string) {
    Lower(Strip(s)) == "not yet"
  }

  /** The text of a due-date cell, once stripped: None when blank or when the parser
      rejects it, otherwise the parsed day. */
  function CoerceDueDate(s: string, parse: string -> Option<int>): Value {
    var t := Strip(s);
    if t == [] then Null
    else match parse(t)
      case None => Null
      case Some(d) => Day(d)
  }

  function AsText(raw: map<string, string>): (row: Row)
    ensures row.Keys == raw.Keys
  {
    map k | k in raw :: Text(raw[k])
  }

  /** The coercion pass of fetch_data on one record: checked and handOver become
      booleans, dueDate a day or None, and every other field keeps its raw text. */
  function Coerce(raw: map<string, string>, parse: string -> Option<int>): (row: Row)
    ensures row.Keys == raw.Keys + {"checked", "handOver", "dueDate"}
    ensures forall k :: k in raw && k !in {"checked", "handOver", "dueDate"} ==> row[k] == Text(raw[k])
    ensures row["checked"].Flag? && row["handOver"].Flag?
    ensures row["dueDate"].Null? || row["dueDate"].Day?
  {
    AsText(raw)
      ["checked" := Flag(!IsNotYet(Field(raw, "checked")))]
      ["handOver" := Flag(!IsNotYet(Field(raw, "handOver")))]
      ["dueDate" := CoerceDueDate(Field(raw, "dueDate"), parse)]
  }

  /** A cell reads "not yet" exactly when it is "not yet" in some letter case with
      whitespace around it. */
  lemma NotYetPadded(s: string)
    ensures IsNotYet(s) <==>
      exists i, j :: 0 <= i <= j <= |s| && AllSpace(s[..i]) && AllSpace(s[j..]) && Lower(s[i..j]) == "not yet"
  {
    var t := "not yet";
    if IsNotYet(s) {
      StrippedLowerIs(s, t);
    }
    if exists i, j :: 0 <= i <= j <= |s| && AllSpace(s[..i]) && AllSpace(s[j..]) && Lower(s[i..j]) == t {
      var i, j :| 0 <= i <= j <= |s| && AllSpace(s[..i]) && AllSpace(s[j..]) && Lower(s[i..j]) == t;
      NotYetEnds(s[i..j]);
      StripPadded(s, i, j);
    }
  }

  /** When the stripped, lower-cased text is t, some whitespace-padded slice lower-cases to t. */
  lemma StrippedLowerIs(s: string, t: string)
    requires Lower(Strip(s)) == t
    ensures exists i, j :: 0 <= i <= j <= |s| && AllSpace(s[..i]) && AllSpace(s[j..]) && Lower(s[i..j]) == t
  {
    StripSpec(s);
    var i, j :| StrippedAt(s, i, j) && Strip(s) == s[i..j];
    assert AllSpace(s[..i]) && AllSpace(s[j..]);
  }

  /** A word that lower-cases to "not yet" starts and ends with a letter. */
  lemma NotYetEnds(w: string)
    requires Lower(w) == "not yet"
    ensures |w| == 7 && !IsSpace(w[0]) && !IsSpace(w[6])
  {
    var t := "not yet";
    assert |t| == 7 && t[0] == 'n' && t[6] == 't';
    LowerEnds(w, t);
    LowersToLetter(w[0]);
    LowersToLetter(w[6]);
  }

  lemma LowerEnds(w: string, t: string)
    requires Lower(w) == t && |t| > 0
    ensures |w| == |t| && LowerChar(w[0]) == t[0] && LowerChar(w[|w| - 1]) == t[|t| - 1]
  {
  }

  lemma LowersToLetter(c: char)
    requires 'a' <= LowerChar(c) <= 'z'
    ensures !IsSpace(c)
  {
  }

  /** checked and handOver become false exactly when the raw text is "not yet" once
      trimmed and lower-cased; a missing field, or any other text, becomes true. */
  lemma CoerceFlags(raw: map<string, string>, parse: string -> Option<int>, k: string)
    requires k == "checked" || k == "handOver"
    ensures Coerce(raw, parse)[k] == Flag(false) <==> k in raw && IsNotYet(raw[k])
    ensures k !in raw ==> Coerce(raw, parse)[k] == Flag(true)
  {
    StripAllSpace("");
    assert !IsNotYet("");
  }

  /** dueDate becomes None when its cell is missing, blank after trimming, or rejected
      by the parser, and otherwise the parsed day of the trimmed text. */
  lemma CoerceDueDateCases(raw: map<string, string>, parse: string -> Option<int>)
    ensures var due := Coerce(raw, parse)["dueDate"];
      && (due == Null <==> AllSpace(Field(raw, "dueDate")) || parse(Strip(Field(raw, "dueDate"))) == None)
      && (forall d :: due == Day(d) <==> !AllSpace(Field(raw, "dueDate")) && parse(Strip(Field(raw, "dueDate"))) == Some(d))
  {
    StripSpec(Field(raw, "dueDate"));
  }

  function CoerceWith(parse: string -> Option<int>): map<string, string> -> Row {
    raw => Coerce(raw, parse)
  }

  /** Every record of a list, coerced. */
  function CoerceAll(raws: seq<map<string, string>>, parse: string -> Option<int>): seq<Row> {
    MapWhere(raws, CoerceWith(parse))
  }

  /** fetch_data after the API calls: assemble the records, then coerce each of them. */
  method FetchData(columns: seq<Column>, parse: string -> Option<int>) returns (rows: seq<Row>)
    requires |columns| == RangeCount
    ensures rows == CoerceAll(AssembledRows(columns), parse)
    ensures |rows| == RowCount(columns)
  {
    var dataList := AssembleRows(columns);
    rows := MapEach(dataList, CoerceWith(parse));
  }

  /** The fetched rows are the assembled sheet rows, each coerced. */
  lemma FetchedRow(columns: seq<Column>, parse: string -> Option<int>, i: int)
    requires |columns| > 0 && 0 <= i < RowCount(columns)
    ensures CoerceAll(AssembledRows(columns), parse)[i] == Coerce(AssembledRow(columns, i + 1), parse)
  {
    AssembledRowAt(columns, i);
    CoerceAllAt(AssembledRows(columns), parse, i);
  }

  lemma CoerceAllAt(raws: seq<map<string, string>>, parse: string -> Option<int>, i: int)
    requires 0 <= i < |raws|
    ensures CoerceAll(raws, parse)[i] == Coerce(raws[i], parse)
  {
    MapWhereAt(raws, CoerceWith(parse), i);
  }

  /** The comparison `due_date >= today` is defined: dueDate is missing, None or a date. */
  predicate DueTyped(row: Row) {
    var due := Get(row, "dueDate", Null);
    due.Null? || due.Day?
  }

  /** filter_not_yet's test: not checked or not handed over, and due today or later. */
  predicate Actionable(row: Row, today: int) {
    var due := Get(row, "dueDate", Null);
    && (!Truthy(Get(row, "checked", Flag(false))) || !Truthy(Get(row, "handOver", Flag(false))))
    && due.Day? && due.d >= today
  }

  function KeepActionable(today: int): Row -> bool {
    row => Actionable(row, today)
  }

  /** filter_not_yet: the actionable rows, in their original order. */
  method FilterNotYet(rows: seq<Row>, today: int) returns (kept: seq<Row>)
    requires forall i :: 0 <= i < |rows| ==> DueTyped(rows[i])
    ensures kept == Filter(rows, KeepActionable(today))
    ensures forall r :: r in kept <==> r in rows && Actionable(r, today)
  {
    kept := [];
    for i := 0 to |rows|
      invariant kept == Filter(rows[..i], KeepActionable(today))
    {
      var row := rows[i];
      var checkedVal := Get(row, "checked", Flag(false));
      var handoverVal := Get(row, "handOver", Flag(false));
      var dueDate := Get(row, "dueDate", Null);
      assert DueTyped(row);
      var dueDateValid := !dueDate.Null? && dueDate.d >= today;
      assert rows[..i + 1][..i] == rows[..i];
      if (!Truthy(checkedVal) || !Truthy(handoverVal)) && dueDateValid {
        kept := kept + [row];
      }
    }
    assert rows[..|rows|] == rows;
    forall r ensures r in kept <==> r in rows && Actionable(r, today) {
      FilterMembers(rows, KeepActionable(today), r);
    }
  }

  /** Coerced records always compare: their dueDate is None or a day. */
  lemma {:induction false} CoerceAllTyped(raws: seq<map<string, string>>, parse: string -> Option<int>)
    ensures forall i :: 0 <= i < |CoerceAll(raws, parse)| ==> DueTyped(CoerceAll(raws, parse)[i])
  {
    forall i | 0 <= i < |raws| ensures DueTyped(CoerceAll(raws, parse)[i]) {
      CoerceAllAt(raws, parse, i);
    }
  }

  /** The group key of a row: None when the raw handleBy is missing or empty, and
      otherwise str(handleBy).strip().lower(). */
  function GroupKey(row: Row, isoDate: int -> string): Option<string> {
    var v := Get(row, "handleBy", Text(""));
    if !Truthy(v) then None else Some(Lower(Strip(Show(v, isoDate))))
  }

  /** {k: v for k, v in row.items() if k != 'handleBy'}, for coerced and raw records alike. */
  function WithoutHandleBy<V>(row: map<string, V>): (copy: map<string, V>)
    ensures copy.Keys == row.Keys - {"handleBy"}
    ensures forall k :: k in copy ==> copy[k] == row[k]
  {
    row - {"handleBy"}
  }

  function HandlerKey(isoDate: int -> string): Row -> Option<string> {
    row => GroupKey(row, isoDate)
  }

  /** The (key, copy) pairs group_by_handle_by hands to setdefault, in row order. */
  function Keyed(rows: seq<Row>, isoDate: int -> string): seq<(string, Row)> {
    KeyedBy(rows, HandlerKey(isoDate), WithoutHandleBy)
  }

  /** group_by_handle_by: the rows with a handler, minus their handleBy field, grouped
      under the handler's trimmed lower-case name in order of first appearance. */
  method GroupByHandleBy(rows: seq<Row>, isoDate: int -> string) returns (grouped: Entries<seq<Row>>)
    ensures grouped == GroupPairs(Keyed(rows, isoDate))
    ensures DistinctKeys(grouped)
    ensures forall k :: k in KeysOf(grouped) <==> exists i :: 0 <= i < |rows| && GroupKey(rows[i], isoDate) == Some(k)
    ensures forall j :: 0 <= j < |grouped| ==> grouped[j].1 == ValuesFor(Keyed(rows, isoDate), grouped[j].0)
    ensures TotalSize(grouped) == |Keyed(rows, isoDate)|
  {
    grouped := [];
    for i := 0 to |rows|
      invariant grouped == GroupPairs(Keyed(rows[..i], isoDate))
    {
      var row := rows[i];
      assert rows[..i + 1] == rows[..i] + [row];
      KeyedBySnoc(rows[..i], HandlerKey(isoDate), WithoutHandleBy, row);
      var key := Get(row, "handleBy", Text(""));
      if !Truthy(key) {
        continue;
      }
      var name := Lower(Strip(Show(key, isoDate)));
      var rowCopy := row - {"handleBy"};
      assert HandlerKey(isoDate)(row) == Some(name);
      GroupPairsSnoc(Keyed(rows[..i], isoDate), name, rowCopy);
      grouped := SetDefaultAppend(grouped, name, rowCopy);
    }
    assert rows[..|rows|] == rows;
    GroupPairsFacts(Keyed(rows, isoDate));
    forall k ensures k in KeysOf(grouped) <==> exists i :: 0 <= i < |rows| && GroupKey(rows[i], isoDate) == Some(k) {
      KeyedByKeys(rows, HandlerKey(isoDate), WithoutHandleBy, k);
    }
  }

  /** A handleBy made only of whitespace is not empty, so its row is grouped under the
      empty key. */
  lemma WhitespaceHandlerGroupedUnderEmptyKey(row: Row, isoDate: int -> string, s: string)
    requires "handleBy" in row && row["handleBy"] == Text(s)
    requires s != [] && AllSpace(s)
    ensures GroupKey(row, isoDate) == Some("")
  {
    StripAllSpace(s);
  }

  /** An empty or missing handleBy keeps the row out of every group. */
  lemma EmptyHandlerSkipped(rows: seq<Row>, isoDate: int -> string, i: int)
    requires 0 <= i < |rows|
    requires Get(rows[i], "handleBy", Text("")) in {Text(""), Null, Flag(false)}
    ensures forall k, r :: (k, r) in Keyed(rows, isoDate) && r == WithoutHandleBy(rows[i]) ==>
      exists j :: 0 <= j < |rows| && j != i && GroupKey(rows[j], isoDate) == Some(k) && r == WithoutHandleBy(rows[j])
  {
    forall k, r | (k, r) in Keyed(rows, isoDate) && r == WithoutHandleBy(rows[i])
      ensures exists j :: 0 <= j < |rows| && j != i && GroupKey(rows[j], isoDate) == Some(k) && r == WithoutHandleBy(rows[j])
    {
      KeyedByMembers(rows, HandlerKey(isoDate), WithoutHandleBy, k, r);
    }
  }

  lemma LowerCharSpace(c: char)
    ensures IsSpace(LowerChar(c)) <==> IsSpace(c)
  {
  }

  /** Trimming commutes with lower-casing. */
  lemma LowerStrip(s: string)
    ensures Strip(Lower(s)) == Lower(Strip(s))
  {
    StripSpec(s);
    var i, j :| StrippedAt(s, i, j) && Strip(s) == s[i..j];
    var l := Lower(s);
    forall k | 0 <= k < |s| ensures IsSpace(l[k]) <==> IsSpace(s[k]) {
      LowerCharSpace(s[k]);
    }
    assert StrippedAt(l, i, j);
    StripUnique(l, i, j);
    assert l[i..j] == Lower(s[i..j]);
  }

  lemma LowerIdempotent(s: string)
    ensures Lower(Lower(s)) == Lower(s)
  {
  }

  /** Group keys are already trimmed and lower-cased: normalising a key again gives the
      key back. */
  lemma GroupKeyNormal(row: Row, isoDate: int -> string, k: string)
    requires GroupKey(row, isoDate) == Some(k)
    ensures Lower(Strip(k)) == k
  {
    var t := Strip(Show(Get(row, "handleBy", Text("")), isoDate));
    StripIdempotent(Show(Get(row, "handleBy", Text("")), isoDate));
    LowerStrip(t);
    LowerIdempotent(t);
  }

  /** Two handler names that differ only in letter case and surrounding whitespace
      share a group. */
  lemma SameHandler(a: string, pre: string, post: string)
    requires AllSpace(pre) && AllSpace(post)
    requires a == [] || (!IsSpace(a[0]) && !IsSpace(a[|a| - 1]))
    ensures Lower(Strip(pre + a + post)) == Lower(a)
  {
    StripConcat(pre, a, post);
  }

  /** A non-empty text handler is grouped under its trimmed lower-case form. */
  lemma TextGroupKey(row: Row, isoDate: int -> string, name: string)
    requires "handleBy" in row && row["handleBy"] == Text(name) && name != []
    ensures GroupKey(row, isoDate) == Some(Lower(Strip(name)))
  {
  }

  /** "Alice" and " alice " are grouped together under "alice". */
  // The literals are parameters pinned by `requires` so that the solver sees them as
  // opaque values in the statement and unfolds their characters only in this proof.
  lemma AliceExample(row1: Row, row2: Row, isoDate: int -> string, name1: string, name2: string, key: string)
    requires name1 == "Alice" && name2 == " alice " && key == "alice"
    requires "handleBy" in row1 && row1["handleBy"] == Text(name1)
    requires "handleBy" in row2 && row2["handleBy"] == Text(name2)
    ensures GroupKey(row1, isoDate) == GroupKey(row2, isoDate) == Some(key)
  {
    CapitalisedKey(row1, isoDate, name1, key);
    PaddedKey(row2, isoDate, name2, key);
  }

  lemma CapitalisedKey(row: Row, isoDate: int -> string, name: string, key: string)
    requires name == "Alice" && key == "alice"
    requires "handleBy" in row && row["handleBy"] == Text(name)
    ensures GroupKey(row, isoDate) == Some(key)
  {
    TextGroupKey(row, isoDate, name);
    SameHandler(name, [], []);
    assert [] + name + [] == name;
    LowerAlice(name, key);
  }

  lemma PaddedKey(row: Row, isoDate: int -> string, name: string, key: string)
    requires name == " alice " && key == "alice"
    requires "handleBy" in row && row["handleBy"] == Text(name)
    ensures GroupKey(row, isoDate) == Some(key)
  {
    var pad := name[..1];
    TextGroupKey(row, isoDate, name);
    SameHandler(key, pad, pad);
    assert pad + key + pad == name;
    LowerAlice("Alice", key);
  }


  lemma LowerAlice(w: string, l: string)
    requires w == "Alice" && l == "alice"
    ensures Lower(w) == l && Lower(l) == l
  {
    assert Lower(w)[0] == LowerChar(w[0]) == 'a';
    assert Lower(l)[0] == LowerChar(l[0]) == 'a';
  }

  /** Every row that reaches a group came from an actionable row and lacks handleBy. */
  lemma {:induction false} GroupedRowsCameFrom(rows: seq<Row>, isoDate: int -> string, k: string, r: Row)
    requires r in ValuesFor(Keyed(rows, isoDate), k)
    ensures "handleBy" !in r
    ensures exists i :: 0 <= i < |rows| && GroupKey(rows[i], isoDate) == Some(k) && r == WithoutHandleBy(rows[i])
  {
    ValuesForMembers(Keyed(rows, isoDate), k, r);
    KeyedByMembers(rows, HandlerKey(isoDate), WithoutHandleBy, k, r);
  }

  /** get_grouped_data: fetch, coerce, filter and group. */
  method GetGroupedData(columns: seq<Column>, parse: string -> Option<int>, today: int, isoDate: int -> string)
    returns (grouped: Entries<seq<Row>>)
    requires |columns| == RangeCount
    ensures grouped == GroupPairs(Keyed(Filter(CoerceAll(AssembledRows(columns), parse), KeepActionable(today)), isoDate))
  {
    var dataList := FetchData(columns, parse);
    CoerceAllTyped(AssembledRows(columns), parse);
    var filtered := FilterNotYet(dataList, today);
    grouped := GroupByHandleBy(filtered, isoDate);
  }

  /** Every row in the grouped data is actionable and has no handleBy. */
  lemma GroupedRowsActionable(rows: seq<Row>, today: int, isoDate: int -> string, j: int, r: Row)
    requires var g := GroupPairs(Keyed(Filter(rows, KeepActionable(today)), isoDate));
      0 <= j < |g| && r in g[j].1
    ensures Actionable(r, today) && "handleBy" !in r
  {
    var kept := Filter(rows, KeepActionable(today));
    var ps := Keyed(kept, isoDate);
    var g := GroupPairs(ps);
    GroupPairsValues(ps);
    assert r in ValuesFor(ps, g[j].0);
    GroupedRowsCameFrom(kept, isoDate, g[j].0, r);
    var i :| 0 <= i < |kept| && GroupKey(kept[i], isoDate) == Some(g[j].0) && r == WithoutHandleBy(kept[i]);
    FilterMembers(rows, KeepActionable(today), kept[i]);
    ActionableWithoutHandleBy(kept[i], today);
  }

  /** Dropping handleBy does not change whether a row is actionable. */
  lemma ActionableWithoutHandleBy(row: Row, today: int)
    ensures Actionable(WithoutHandleBy(row), today) <==> Actionable(row, today)
  {
    var copy := WithoutHandleBy(row);
    assert Get(copy, "checked", Flag(false)) == Get(row, "checked", Flag(false));
    assert Get(copy, "handOver", Flag(false)) == Get(row, "handOver", Flag(false));
    assert Get(copy, "dueDate", Null) == Get(row, "dueDate", Null);
  }

}
