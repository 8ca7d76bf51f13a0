/** google_sheet.py, the older standalone variant of the handler: the same assembly,
    but the records stay raw strings, the filter parses the due date itself, and the
    grouping trims the handler name before testing it for emptiness. */
module OldSheet {
  import opened StrOps
  import opened Collections
  import opened Ingest
  import opened SheetsHandler

  type RawRow = map<string, string>

  /** The due-date test of the raw filter: the trimmed cell is non-blank, parses, and
      falls today or later. */
  predicate DueDateValid(raw: RawRow, parse: string -> Option<int>, today: int) {
    var t := Strip(Field(raw, "dueDate"));
    t != [] && parse(t).Some? && parse(t).value >= today
  }

  /** The raw filter's test: checked or handOver reads "not yet", and the due date is valid. */
  predicate RawActionable(raw: RawRow, parse: string -> Option<int>, today: int) {
    (IsNotYet(Field(raw, "checked")) || IsNotYet(Field(raw, "handOver"))) && DueDateValid(raw, parse, today)
  }

  function KeepRawActionable(parse: string -> Option<int>, today: int): RawRow -> bool {
    raw => RawActionable(raw, parse, today)
  }

  /** filter_not_yet on raw records: the actionable ones, in their original order. */
  method FilterNotYet(rows: seq<RawRow>, parse: string -> Option<int>, today: int) returns (kept: seq<RawRow>)
    ensures kept == Filter(rows, KeepRawActionable(parse, today))
    ensures forall r :: r in kept <==> r in rows && RawActionable(r, parse, today)
  {
    kept := [];
    for i := 0 to |rows|
      invariant kept == Filter(rows[..i], KeepRawActionable(parse, today))
    {
      var row := rows[i];
      var checkedVal := Lower(Strip(Field(row, "checked")));
      var handoverVal := Lower(Strip(Field(row, "handOver")));
      var dueDateValid := CheckDueDate(row, parse, today);
      assert rows[..i + 1][..i] == rows[..i] && rows[..i + 1][i] == row;
      assert (checkedVal == "not yet") == IsNotYet(Field(row, "checked"));
      assert (handoverVal == "not yet") == IsNotYet(Field(row, "handOver"));
      assert KeepRawActionable(parse, today)(row) ==
        ((checkedVal == "not yet" || handoverVal == "not yet") && dueDateValid);
      if (checkedVal == "not yet" || handoverVal == "not yet") && dueDateValid {
        kept := kept + [row];
      }
    }
    assert rows[..|rows|] == rows;
    RawFilterMembers(rows, parse, today);
  }

  /** The due-date part of the raw filter: a blank cell or one the parser rejects is
      not valid; a parsed day is valid when it is today or later. */
  method CheckDueDate(row: RawRow, parse: string -> Option<int>, today: int) returns (dueDateValid: bool)
    ensures dueDateValid <==> DueDateValid(row, parse, today)
  {
    var dueDateStr := Strip(Field(row, "dueDate"));
    dueDateValid := false;
    if dueDateStr != [] {
      match parse(dueDateStr) {
        case Some(dueDate) => dueDateValid := dueDate >= today;
        case None => dueDateValid := false;
      }
    }
  }

  lemma RawFilterMembers(rows: seq<RawRow>, parse: string -> Option<int>, today: int)
    ensures forall r :: r in Filter(rows, KeepRawActionable(parse, today)) <==> r in rows && RawActionable(r, parse, today)
  {
    forall r ensures r in Filter(rows, KeepRawActionable(parse, today)) <==> r in rows && RawActionable(r, parse, today) {
      FilterMembers(rows, KeepRawActionable(parse, today), r);
    }
  }

  /** A blank or unparseable due date keeps a row out, whatever its flags say. */
  lemma BadDueDateExcluded(raw: RawRow, parse: string -> Option<int>, today: int)
    requires AllSpace(Field(raw, "dueDate")) || parse(Strip(Field(raw, "dueDate"))) == None
    ensures !RawActionable(raw, parse, today)
  {
    StripSpec(Field(raw, "dueDate"));
  }

  /** The grouping key: the handler name, trimmed and lower-cased. */
  function RawKey(raw: RawRow): Option<string> {
    var key := Lower(Strip(Field(raw, "handleBy")));
    if key == [] then None else Some(key)
  }

  function RawHandlerKey(): RawRow -> Option<string> {
    raw => RawKey(raw)
  }

  /** The (key, copy) pairs the grouping hands to setdefault, in row order. */
  function RawKeyed(rows: seq<RawRow>): seq<(string, RawRow)> {
    KeyedBy(rows, RawHandlerKey(), WithoutHandleBy<string>)
  }

  /** group_by_handle_by on raw records: rows whose trimmed handler is non-empty, minus
      handleBy, grouped under the trimmed lower-case name in order of first appearance. */
  method GroupByHandleBy(rows: seq<RawRow>) returns (grouped: Entries<seq<RawRow>>)
    ensures grouped == GroupPairs(RawKeyed(rows))
    ensures DistinctKeys(grouped)
    ensures "" !in KeysOf(grouped)
    ensures forall k :: k in KeysOf(grouped) <==> exists i :: 0 <= i < |rows| && RawKey(rows[i]) == Some(k)
    ensures forall j :: 0 <= j < |grouped| ==> grouped[j].1 == ValuesFor(RawKeyed(rows), grouped[j].0)
    ensures TotalSize(grouped) == |Filter(rows, HasKey(RawHandlerKey()))|
  {
    grouped := [];
    for i := 0 to |rows|
      invariant grouped == GroupPairs(RawKeyed(rows[..i]))
    {
      var row := rows[i];
      assert rows[..i + 1] == rows[..i] + [row];
      KeyedBySnoc(rows[..i], RawHandlerKey(), WithoutHandleBy<string>, row);
      var key := Lower(Strip(Field(row, "handleBy")));
      if key == [] {
        continue;
      }
      var rowCopy := row - {"handleBy"};
      assert RawHandlerKey()(row) == Some(key);
      GroupPairsSnoc(RawKeyed(rows[..i]), key, rowCopy);
      grouped := SetDefaultAppend(grouped, key, rowCopy);
    }
    assert rows[..|rows|] == rows;
    GroupPairsFacts(RawKeyed(rows));
    KeyedByLength(rows, RawHandlerKey(), WithoutHandleBy<string>);
    forall k ensures k in KeysOf(grouped) <==> exists i :: 0 <= i < |rows| && RawKey(rows[i]) == Some(k) {
      KeyedByKeys(rows, RawHandlerKey(), WithoutHandleBy<string>, k);
    }
  }

  /** The raw filter keeps a record exactly when the handler's filter keeps the coerced
      record, given the same parser and the same day. */
  lemma FiltersAgree(raw: RawRow, parse: string -> Option<int>, today: int)
    ensures RawActionable(raw, parse, today) <==> Actionable(Coerce(raw, parse), today)
  {
    CoerceDueDateCases(raw, parse);
    StripSpec(Field(raw, "dueDate"));
  }

  /** Filtering raw records and then coercing gives the same list as coercing and then
      filtering. */
  lemma {:induction false} FilterThenCoerce(rows: seq<RawRow>, parse: string -> Option<int>, today: int)
    ensures CoerceAll(Filter(rows, KeepRawActionable(parse, today)), parse)
         == Filter(CoerceAll(rows, parse), KeepActionable(today))
  {
    if rows != [] {
      var init := rows[..|rows| - 1];
      var last := rows[|rows| - 1];
      FilterThenCoerce(init, parse, today);
      FiltersAgree(last, parse, today);
      var kept := Filter(init, KeepRawActionable(parse, today));
      assert CoerceAll(rows, parse)[..|rows| - 1] == CoerceAll(init, parse);
      if RawActionable(last, parse, today) {
        assert Filter(rows, KeepRawActionable(parse, today)) == kept + [last];
        assert (kept + [last])[..|kept|] == kept;
      } else {
        assert Filter(rows, KeepRawActionable(parse, today)) == kept;
      }
    }
  }

  /** The two groupings agree on every row except one whose handler is whitespace only:
      the handler groups it under "", the raw variant drops it. */
  lemma GroupKeysAgree(raw: RawRow, parse: string -> Option<int>, isoDate: int -> string)
    ensures RawKey(raw).Some? ==> GroupKey(Coerce(raw, parse), isoDate) == RawKey(raw)
    ensures Field(raw, "handleBy") == [] ==> GroupKey(Coerce(raw, parse), isoDate) == None && RawKey(raw) == None
    ensures Field(raw, "handleBy") != [] && AllSpace(Field(raw, "handleBy")) ==>
      GroupKey(Coerce(raw, parse), isoDate) == Some("") && RawKey(raw) == None
  {
    var h := Field(raw, "handleBy");
    assert Get(Coerce(raw, parse), "handleBy", Text("")) == Text(h);
    StripSpec(h);
    if RawKey(raw).Some? {
      assert h != [];
    }
  }
}
