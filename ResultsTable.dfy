/** The result table (components/results.tsx): its sort and filter state,
    the filtering of rows, the comparator's treatment of missing values, and
    the pure helpers for titles, widths and the truncated JSONB preview. */
module Results {
  import opened Text
  import opened JsonValue
  import opened CsvExport

  datatype SortDirection = Asc | Desc

  datatype FilterType = ContainsFilter | StartsWithFilter

  datatype ColumnFilter = ColumnFilter(value: string, kind: FilterType)

  // ---------------------------------------------------------------------
  // Sorting state

  /** The sort state after a click on a column header: another column
      starts ascending, the same column goes from ascending to descending
      and from descending back to unsorted. */
  function NextSort(column: Option<string>, direction: Option<SortDirection>, clicked: string)
    : (r: (Option<string>, Option<SortDirection>))
    ensures column != Some(clicked) ==> r == (Some(clicked), Some(Asc))
    ensures column == Some(clicked) && direction == Some(Asc) ==> r == (column, Some(Desc))
    ensures column == Some(clicked) && direction == Some(Desc) ==> r == (None, None)
    ensures (column.None? <==> direction.None?) ==> (r.0.None? <==> r.1.None?)
  {
    if column == Some(clicked) then
      if direction == Some(Asc) then (column, Some(Desc))
      else if direction == Some(Desc) then (None, None)
      else (column, direction)
    else (Some(clicked), Some(Asc))
  }

  /** Three clicks on one header run through ascending, descending and back
      to unsorted. */
  lemma SortCycle(clicked: string)
    ensures NextSort(None, None, clicked) == (Some(clicked), Some(Asc))
    ensures NextSort(Some(clicked), Some(Asc), clicked) == (Some(clicked), Some(Desc))
    ensures NextSort(Some(clicked), Some(Desc), clicked) == (None, None)
  {
  }

  // ---------------------------------------------------------------------
  // Filtering

  /** A filter whose value is blank after trimming is ignored. */
  predicate Active(f: ColumnFilter): (r: bool)
    ensures r <==> exists i :: 0 <= i < |f.value| && !IsSpace(f.value[i])
  {
    TrimBlank(f.value);
    Trim(f.value) != ""
  }

  /** String(row[column] || "").toLowerCase(). */
  function FilterCell(row: Row, column: string): (r: string)
    ensures Lookup(row, column).None? || !Truthy(Lookup(row, column).value) ==> r == ""
    ensures Lookup(row, column).Some? && Truthy(Lookup(row, column).value) ==>
              r == Lower(JsString(Lookup(row, column).value))
  {
    Lower(JsString(OrElse(Lookup(row, column), JStr(""))))
  }

  /** The filter callback: the lowercased cell starts with, or contains, the
      lowercased (untrimmed) filter value. */
  predicate CellMatches(row: Row, column: string, f: ColumnFilter) {
    if f.kind == StartsWithFilter then StartsWith(FilterCell(row, column), Lower(f.value))
    else Contains(FilterCell(row, column), Lower(f.value))
  }

  /** A startsWith filter matches iff the lowercased value occurs at the
      start of the cell text, a contains filter iff it occurs anywhere. */
  lemma CellMatchesMeaning(row: Row, column: string, f: ColumnFilter)
    ensures f.kind == StartsWithFilter ==>
              (CellMatches(row, column, f) <==> OccursAt(FilterCell(row, column), Lower(f.value), 0))
    ensures f.kind == ContainsFilter ==>
              (CellMatches(row, column, f) <==> exists i :: OccursAt(FilterCell(row, column), Lower(f.value), i))
  {
    var cell, needle := FilterCell(row, column), Lower(f.value);
    ContainsMeaning(cell, needle);
    if Contains(cell, needle) {
      var i :| OccursAt(cell, needle, i);
      assert OccursAt(FilterCell(row, column), Lower(f.value), i);
    } else {
      forall i ensures !OccursAt(FilterCell(row, column), Lower(f.value), i) {
        if OccursAt(cell, needle, i) {
          ContainsAt(cell, needle, i);
        }
      }
    }
  }

  predicate Passes(row: Row, column: string, f: ColumnFilter) {
    !Active(f) || CellMatches(row, column, f)
  }

  /** The row passes the filters of the columns in done. */
  predicate RowPasses(row: Row, filters: map<string, ColumnFilter>, done: set<string>) {
    forall c :: c in done && c in filters ==> Passes(row, c, filters[c])
  }

  /** The rows that pass the filters of the columns in done, in their order. */
  function KeepPassing(rows: seq<Row>, filters: map<string, ColumnFilter>, done: set<string>): seq<Row>
    decreases |rows|
  {
    if |rows| == 0 then []
    else (if RowPasses(rows[0], filters, done) then [rows[0]] else [])
         + KeepPassing(rows[1..], filters, done)
  }

  /** The rows processedData keeps: those passing every filter. */
  function Filtered(rows: seq<Row>, filters: map<string, ColumnFilter>): (r: seq<Row>)
    ensures |r| <= |rows|
    ensures forall i :: 0 <= i < |r| ==> r[i] in rows && RowPasses(r[i], filters, filters.Keys)
  {
    var kept := KeepPassing(rows, filters, filters.Keys);
    KeepPassingIsSubsequence(rows, filters, filters.Keys);
    assert forall i :: 0 <= i < |kept| ==> kept[i] in rows && RowPasses(kept[i], filters, filters.Keys) by {
      forall i | 0 <= i < |kept|
        ensures kept[i] in rows && RowPasses(kept[i], filters, filters.Keys)
      {
        KeepPassingMembers(rows, filters, filters.Keys, kept[i]);
      }
    }
    kept
  }

  /** filteredData.filter(...) for one active filter. */
  function FilterColumn(rows: seq<Row>, column: string, f: ColumnFilter): seq<Row>
    decreases |rows|
  {
    if |rows| == 0 then []
    else (if CellMatches(rows[0], column, f) then [rows[0]] else [])
         + FilterColumn(rows[1..], column, f)
  }

  lemma {:induction false} FilterStep(rows: seq<Row>, filters: map<string, ColumnFilter>, done: set<string>, c: string)
    requires c in filters && Active(filters[c])
    ensures FilterColumn(KeepPassing(rows, filters, done), c, filters[c])
            == KeepPassing(rows, filters, done + {c})
    decreases |rows|
  {
    if |rows| > 0 {
      FilterStep(rows[1..], filters, done, c);
      var r := rows[0];
      assert RowPasses(r, filters, done + {c}) <==> RowPasses(r, filters, done) && CellMatches(r, c, filters[c]);
      var kept := KeepPassing(rows, filters, done);
      if RowPasses(r, filters, done) {
        assert kept == [r] + KeepPassing(rows[1..], filters, done);
        assert kept[1..] == KeepPassing(rows[1..], filters, done);
      } else {
        assert kept == KeepPassing(rows[1..], filters, done);
      }
    }
  }

  lemma {:induction false} InactiveStep(rows: seq<Row>, filters: map<string, ColumnFilter>, done: set<string>, c: string)
    requires c in filters && !Active(filters[c])
    ensures KeepPassing(rows, filters, done) == KeepPassing(rows, filters, done + {c})
    decreases |rows|
  {
    if |rows| > 0 {
      InactiveStep(rows[1..], filters, done, c);
      var r := rows[0];
      assert RowPasses(r, filters, done + {c}) <==> RowPasses(r, filters, done);
    }
  }

  /** Filtering keeps rows in their order and invents none. */
  ghost predicate IsSubsequence(a: seq<Row>, b: seq<Row>)
    decreases |b|
  {
    |a| == 0 || (|b| > 0 && ((a[0] == b[0] && IsSubsequence(a[1..], b[1..])) || IsSubsequence(a, b[1..])))
  }

  lemma {:induction false} KeepPassingIsSubsequence(rows: seq<Row>, filters: map<string, ColumnFilter>, done: set<string>)
    ensures IsSubsequence(KeepPassing(rows, filters, done), rows)
    ensures |KeepPassing(rows, filters, done)| <= |rows|
    decreases |rows|
  {
    if |rows| > 0 {
      KeepPassingIsSubsequence(rows[1..], filters, done);
      var kept := KeepPassing(rows, filters, done);
      var tail := KeepPassing(rows[1..], filters, done);
      if RowPasses(rows[0], filters, done) {
        assert kept == [rows[0]] + tail;
        assert kept[0] == rows[0] && kept[1..] == tail;
      } else {
        assert kept == tail;
        assert |kept| == 0 || IsSubsequence(kept, rows[1..]);
      }
    }
  }

  /** With no column done, every row is kept. */
  lemma {:induction false} KeepPassingNothingDone(rows: seq<Row>, filters: map<string, ColumnFilter>)
    ensures KeepPassing(rows, filters, {}) == rows
    decreases |rows|
  {
    if |rows| > 0 {
      KeepPassingNothingDone(rows[1..], filters);
      assert [rows[0]] + rows[1..] == rows;
    }
  }

  lemma {:induction false} KeepPassingMembers(rows: seq<Row>, filters: map<string, ColumnFilter>, done: set<string>, r: Row)
    ensures r in KeepPassing(rows, filters, done) <==> r in rows && RowPasses(r, filters, done)
    decreases |rows|
  {
    if |rows| > 0 {
      KeepPassingMembers(rows[1..], filters, done, r);
      assert rows == [rows[0]] + rows[1..];
    }
  }

  /** The displayed rows are an order-preserving subsequence of the results,
      so there are never more of them. */
  lemma FilteredIsSubsequence(rows: seq<Row>, filters: map<string, ColumnFilter>)
    ensures IsSubsequence(Filtered(rows, filters), rows)
    ensures |Filtered(rows, filters)| <= |rows|
  {
    KeepPassingIsSubsequence(rows, filters, filters.Keys);
  }

  /** A row is shown exactly when it is in the results and, for every
      filter whose value is not blank, its lowercased cell starts with or
      contains the lowercased filter value. */
  lemma FilteredMembers(rows: seq<Row>, filters: map<string, ColumnFilter>, r: Row)
    ensures r in Filtered(rows, filters) <==>
            r in rows && forall c :: c in filters && Active(filters[c]) ==> CellMatches(r, c, filters[c])
  {
    KeepPassingMembers(rows, filters, filters.Keys, r);
  }

  /** A blank filter has the same effect as no filter on that column. */
  lemma {:induction false} BlankFilterIgnored(rows: seq<Row>, filters: map<string, ColumnFilter>, c: string, f: ColumnFilter)
    requires !Active(f)
    ensures Filtered(rows, filters[c := f]) == Filtered(rows, filters - {c})
    decreases |rows|
  {
    if |rows| > 0 {
      BlankFilterIgnored(rows[1..], filters, c, f);
      BlankFilterPasses(rows[0], filters, c, f);
    }
  }

  lemma BlankFilterPasses(r: Row, filters: map<string, ColumnFilter>, c: string, f: ColumnFilter)
    requires !Active(f)
    ensures RowPasses(r, filters[c := f], filters[c := f].Keys) <==> RowPasses(r, filters - {c}, (filters - {c}).Keys)
  {
    var with := filters[c := f];
    var without := filters - {c};
    if RowPasses(r, without, without.Keys) {
      forall d | d in with.Keys && d in with ensures Passes(r, d, with[d]) {
        if d != c {
          assert d in without.Keys;
        }
      }
    }
    if RowPasses(r, with, with.Keys) {
      forall d | d in without.Keys && d in without ensures Passes(r, d, without[d]) {
        assert d in with.Keys;
      }
    }
  }

  /** Under an active filter on a column, a row whose cell there is missing
      or falsy (null, false, 0, NaN, "") is never shown: `|| ""` turns the
      cell into "", which neither starts with nor contains a non-blank
      needle. */
  lemma FalsyCellExcluded(rows: seq<Row>, filters: map<string, ColumnFilter>, c: string, r: Row)
    requires c in filters && Active(filters[c])
    requires Lookup(r, c).None? || !Truthy(Lookup(r, c).value)
    ensures r !in Filtered(rows, filters)
  {
    FilteredMembers(rows, filters, r);
    var f := filters[c];
    assert FilterCell(r, c) == "";
    assert Trim("") == "";
    assert |Lower(f.value)| > 0;
    assert !Contains("", Lower(f.value));
  }

  /** Removing a filter never hides a row that was shown. */
  lemma ClearingFilterOnlyAdds(rows: seq<Row>, filters: map<string, ColumnFilter>, c: string, r: Row)
    requires r in Filtered(rows, filters)
    ensures r in Filtered(rows, filters - {c})
  {
    FilteredMembers(rows, filters, r);
    FilteredMembers(rows, filters - {c}, r);
  }

  // ---------------------------------------------------------------------
  // The comparator's treatment of missing values

  /** `v == null`: the column is missing or holds null. */
  predicate Nullish(v: Option<Json>) {
    v.None? || v.value.JNull?
  }

  /** The sort comparator. Two missing values are equal; a missing value
      goes first when ascending and last when descending. The comparison of
      two present values (numeric or localeCompare) is outside the model and
      given as an ascending comparison on their texts. */
  function CompareCells(a: Option<Json>, b: Option<Json>, direction: SortDirection,
                        ascending: (string, string) -> int): (r: int)
    ensures Nullish(a) && Nullish(b) ==> r == 0
    ensures Nullish(a) && !Nullish(b) ==> (r < 0 <==> direction == Asc) && r != 0
    ensures !Nullish(a) && Nullish(b) ==> (r > 0 <==> direction == Asc) && r != 0
  {
    if Nullish(a) && Nullish(b) then 0
    else if Nullish(a) then (if direction == Asc then -1 else 1)
    else if Nullish(b) then (if direction == Asc then 1 else -1)
    else
      var c := ascending(JsString(a.value), JsString(b.value));
      if direction == Asc then c else -c
  }

  /** Rows in an order the comparator accepts (no later row compares
      strictly before an earlier one) keep all missing values together at
      the start when ascending and at the end when descending. */
  lemma NullsGrouped(rows: seq<Row>, column: string, direction: SortDirection,
                     ascending: (string, string) -> int, i: int, j: int)
    requires forall p, q :: 0 <= p < q < |rows| ==>
               CompareCells(Lookup(rows[p], column), Lookup(rows[q], column), direction, ascending) <= 0
    requires 0 <= i < j < |rows|
    ensures direction == Asc && Nullish(Lookup(rows[j], column)) ==> Nullish(Lookup(rows[i], column))
    ensures direction == Desc && Nullish(Lookup(rows[i], column)) ==> Nullish(Lookup(rows[j], column))
  {
    var c := CompareCells(Lookup(rows[i], column), Lookup(rows[j], column), direction, ascending);
    assert c <= 0;
  }

  // ---------------------------------------------------------------------
  // The table state

  class ResultsTable {
    var sortColumn: Option<string>
    var sortDirection: Option<SortDirection>
    var filters: map<string, ColumnFilter>

    /** A column is sorted on exactly when a direction is set. */
    predicate Valid()
      reads this
    {
      sortColumn.None? <==> sortDirection.None?
    }

    constructor()
      ensures sortColumn == None && sortDirection == None && filters == map[]
      ensures Valid()
    {
      sortColumn := None;
      sortDirection := None;
      filters := map[];
    }

    /** handleSort. */
    method HandleSort(column: string)
      modifies this
      ensures (sortColumn, sortDirection) == NextSort(old(sortColumn), old(sortDirection), column)
      ensures filters == old(filters)
      ensures old(Valid()) ==> Valid()
    {
      var next := NextSort(sortColumn, sortDirection, column);
      sortColumn := next.0;
      sortDirection := next.1;
    }

    /** handleFilter: sets or replaces the one column's filter. */
    method HandleFilter(column: string, value: string, kind: FilterType)
      modifies this
      ensures filters == old(filters)[column := ColumnFilter(value, kind)]
      ensures sortColumn == old(sortColumn) && sortDirection == old(sortDirection)
    {
      filters := filters[column := ColumnFilter(value, kind)];
    }

    /** clearFilter: removes the one column's filter. */
    method ClearFilter(column: string)
      modifies this
      ensures filters == old(filters) - {column}
      ensures sortColumn == old(sortColumn) && sortDirection == old(sortDirection)
    {
      filters := filters - {column};
    }

    /** Typing in a column's filter box keeps its type, "contains" when new. */
    method TypeFilterValue(column: string, value: string)
      modifies this
      ensures column in filters && filters[column].value == value
      ensures filters[column].kind == (if column in old(filters) then old(filters)[column].kind else ContainsFilter)
      ensures forall c :: c != column ==> (c in filters <==> c in old(filters))
      ensures forall c :: c != column && c in filters ==> filters[c] == old(filters)[c]
      ensures sortColumn == old(sortColumn) && sortDirection == old(sortDirection)
    {
      var kind := if column in filters then filters[column].kind else ContainsFilter;
      HandleFilter(column, value, kind);
    }

    /** A type button keeps the column's value, "" when new. */
    method ChooseFilterType(column: string, kind: FilterType)
      modifies this
      ensures column in filters && filters[column].kind == kind
      ensures filters[column].value == (if column in old(filters) then old(filters)[column].value else "")
      ensures forall c :: c != column ==> (c in filters <==> c in old(filters))
      ensures forall c :: c != column && c in filters ==> filters[c] == old(filters)[c]
      ensures sortColumn == old(sortColumn) && sortDirection == old(sortDirection)
    {
      var value := if column in filters then filters[column].value else "";
      HandleFilter(column, value, kind);
    }

    /** The filtering half of processedData: each filter in turn narrows the
        rows, and the order the filters are taken in does not matter. */
    method FilterRows(results: seq<Row>) returns (out: seq<Row>)
      ensures out == Filtered(results, filters)
    {
      out := results;
      var pending := filters.Keys;
      KeepPassingNothingDone(results, filters);
      assert filters.Keys - pending == {};
      while pending != {}
        invariant pending <= filters.Keys
        invariant out == KeepPassing(results, filters, filters.Keys - pending)
        decreases pending
      {
        var c :| c in pending;
        var done := filters.Keys - pending;
        if Trim(filters[c].value) != "" {
          FilterStep(results, filters, done, c);
          out := FilterColumn(out, c, filters[c]);
        } else {
          InactiveStep(results, filters, done, c);
        }
        pending := pending - {c};
        assert filters.Keys - pending == done + {c};
      }
      assert filters.Keys - pending == filters.Keys;
    }
  }

  // ---------------------------------------------------------------------
  // Pure helpers

  /** columns.includes("candidate_name"). */
  function HasCandidateData(columns: seq<string>): (r: bool)
    ensures r <==> exists i :: 0 <= i < |columns| && columns[i] == "candidate_name"
  {
    "candidate_name" in columns
  }

  /** word.charAt(0).toUpperCase() + word.slice(1). */
  function Capitalize(word: string): string {
    if |word| == 0 then "" else [UpperChar(word[0])] + word[1..]
  }

  /** formatColumnTitle: each `_` becomes a space and only the very first
      character is upper-cased; the length is kept. */
  function FormatColumnTitle(title: string): (r: string)
    ensures |r| == |title|
    ensures forall i :: 0 <= i < |title| ==>
              r[i] == (if title[i] == '_' then ' ' else if i == 0 then UpperChar(title[i]) else title[i])
  {
    var words := Split(title, '_');
    TitleFromWords(title);
    Join([Capitalize(words[0])] + words[1..], " ")
  }

  /** The title built from the words is the text with `_` replaced and its
      first character upper-cased. */
  lemma TitleFromWords(title: string)
    ensures var words := Split(title, '_');
            var r := Join([Capitalize(words[0])] + words[1..], " ");
            |r| == |title| &&
            forall i :: 0 <= i < |title| ==>
              r[i] == (if title[i] == '_' then ' ' else if i == 0 then UpperChar(title[i]) else title[i])
  {
    var words := Split(title, '_');
    var r := Join([Capitalize(words[0])] + words[1..], " ");
    var replaced := ReplaceChar(title, '_', ' ');
    TitleShape(title);
    if |title| > 0 && title[0] != '_' {
      assert r == [UpperChar(title[0])] + replaced[1..];
      forall i | 0 <= i < |title|
        ensures r[i] == (if title[i] == '_' then ' ' else if i == 0 then UpperChar(title[i]) else title[i])
      {
        if i > 0 {
          assert r[i] == replaced[i];
        }
      }
    } else {
      assert r == replaced;
    }
  }

  lemma TitleShape(title: string)
    ensures var words := Split(title, '_');
            |title| > 0 && title[0] != '_' ==>
              Join([Capitalize(words[0])] + words[1..], " ") == [UpperChar(title[0])] + ReplaceChar(title, '_', ' ')[1..]
    ensures var words := Split(title, '_');
            !(|title| > 0 && title[0] != '_') ==>
              Join([Capitalize(words[0])] + words[1..], " ") == ReplaceChar(title, '_', ' ')
  {
    var words := Split(title, '_');
    var w0 := words[0];
    var joined := Join(words, " ");
    var r := Join([Capitalize(w0)] + words[1..], " ");
    JoinSplit(title, '_', ' ');
    JoinReplaceFirst(words, " ", Capitalize(w0));
    SplitFirst(title, '_');
    var rest := joined[|w0|..];
    assert r == Capitalize(w0) + rest;
    if |w0| > 0 {
      assert joined == w0 + rest by {
        assert joined[..|w0|] == w0;
      }
      DropFirst(w0, rest);
      assert Capitalize(w0) == [UpperChar(w0[0])] + w0[1..];
      Assoc([UpperChar(w0[0])], w0[1..], rest);
    } else {
      assert rest == joined;
    }
  }

  lemma DropFirst(a: string, b: string)
    requires |a| > 0
    ensures (a + b)[1..] == a[1..] + b
  {
  }

  lemma SplitFirst(s: string, sep: char)
    ensures |s| > 0 && s[0] != sep ==> |Split(s, sep)[0]| > 0 && Split(s, sep)[0][0] == s[0]
    ensures (|s| == 0 || s[0] == sep) ==> Split(s, sep)[0] == ""
  {
  }

  lemma JoinReplaceFirst(parts: seq<string>, sep: string, p: string)
    requires |parts| >= 1
    ensures Join([p] + parts[1..], sep) == p + Join(parts, sep)[|parts[0]|..]
    ensures |parts[0]| <= |Join(parts, sep)| && Join(parts, sep)[..|parts[0]|] == parts[0]
  {
    var q := [p] + parts[1..];
    if |parts| > 1 {
      assert q[1..] == parts[1..];
      var rest := sep + Join(parts[1..], sep);
      assert Join(parts, sep) == parts[0] + rest;
      assert Join(parts, sep)[|parts[0]|..] == rest;
    }
  }

  predicate IsMediumColumn(col: string) {
    Contains(col, "candidate_id") || Contains(col, "job_shortcode") ||
    Contains(col, "candidate_name") || Contains(col, "role_title") ||
    Contains(col, "metadata_email") || Contains(col, "metadata_stage") ||
    Contains(col, "created_at") || Contains(col, "updated_at") ||
    col == "metadata_disqualified" || Contains(col, "metadata_phone")
  }

  predicate IsLongTextColumn(col: string) {
    Contains(col, "profile_about") || Contains(col, "contact_info") ||
    Contains(col, "education") || Contains(col, "achievements") ||
    Contains(col, "skills") || Contains(col, "rationale") ||
    Contains(col, "cover_letter") || Contains(col, "entries") ||
    Contains(col, "answers") || Contains(col, "location")
  }

  /** getColumnWidth: the first rule that matches wins. */
  function GetColumnWidth(column: string): (r: string)
    ensures r == "w-20" <==> Lower(column) == "id"
    ensures r in {"w-20", "w-56", "w-48", "w-80"}
    ensures r == "w-80" <==>
              var col := Lower(column);
              col != "id" && !Contains(col, "fit_score") && !Contains(col, "metadata_account") &&
              !IsMediumColumn(col) && IsLongTextColumn(col)
    ensures r == "w-56" <==>
              (Lower(column) != "id" &&
               (Contains(Lower(column), "fit_score") || Contains(Lower(column), "metadata_account")))
  {
    var col := Lower(column);
    if col == "id" then "w-20"
    else if Contains(col, "fit_score") || Contains(col, "metadata_account") then "w-56"
    else if IsMediumColumn(col) then "w-48"
    else if IsLongTextColumn(col) then "w-80"
    else "w-48"
  }

  // ---------------------------------------------------------------------
  // The truncated JSONB preview of the table cells

  /** A text longer than 30 characters is cut to 30 and marked "...". */
  function Truncate(s: string): (r: string)
    ensures |r| <= 33
    ensures |s| <= 30 ==> r == s
    ensures |s| > 30 ==> |r| == 33 && r[..30] == s[..30] && r[30..] == "..."
  {
    if |s| > 30 then s[..30] + "..." else s
  }

  function Min(a: int, b: int): int {
    if a < b then a else b
  }

  /** One previewed pair: the key and its nested text cut to 30 characters. */
  function PreviewPair(key: string, val: Json): string {
    key + ": " + Truncate(FormatNested(val))
  }

  /** The preview of one array element: an object shows its first pair only. */
  function PreviewItem(item: Json): (r: string)
    ensures !IsObjectLike(item) ==> r == JsString(item)
    ensures IsObjectLike(item) && |Entries(item)| == 0 ==> r == "{}"
    ensures IsObjectLike(item) && |Entries(item)| > 0 ==>
              r == PreviewPair(Entries(item)[0].0, Entries(item)[0].1)
    ensures IsObjectLike(item) && |Entries(item)| > 0 ==>
              StartsWith(r, Entries(item)[0].0 + ": ") && |r| <= |Entries(item)[0].0| + 35
  {
    if IsObjectLike(item) then
      var e := Entries(item);
      if |e| > 0 then PreviewPair(e[0].0, e[0].1) else "{}"
    else JsString(item)
  }

  /** The preview's trailer naming how many entries are not shown. */
  function MoreSuffix(hidden: nat): (r: string)
    ensures hidden == 0 ==> r == ""
    ensures hidden > 0 ==> r == "... +" + NatToString(hidden) + " more"
  {
    if hidden > 0 then "... +" + NatToString(hidden) + " more" else ""
  }

  function PreviewParsed(v: Json): (r: string)
    ensures !v.JArr? && !v.JObj? ==> r == JsString(v)
    ensures v.JArr? && |v.items| == 0 ==> r == "[]"
    ensures v.JObj? && |v.fields| == 0 ==> r == "{}"
    ensures v.JArr? && |v.items| > 0 ==> |r| >= 2 && r[0] == '[' && r[|r| - 1] == ']'
    ensures v.JObj? && |v.fields| > 0 ==> |r| >= 2 && r[0] == '{' && r[|r| - 1] == '}'
  {
    match v
    case JArr(items) =>
      if |items| == 0 then "[]"
      else
        var k := Min(|items|, 2);
        "[" + Join(seq(k, i requires 0 <= i < k => PreviewItem(items[i])), ", ") + MoreSuffix(|items| - k) + "]"
    case JObj(fields) =>
      if |fields| == 0 then "{}"
      else
        var k := Min(|fields|, 3);
        "{" + Join(seq(k, i requires 0 <= i < k => PreviewPair(fields[i].0, fields[i].1)), ", ")
            + MoreSuffix(|fields| - k) + "}"
    case _ => JsString(v)
  }

  /** formatJsonbValue: null shows as nothing, a string is parsed first and
      kept as it is when it is not JSON, and the parsed value is previewed. */
  function FormatJsonbPreview(value: Json, parse: Parser): (r: string)
    ensures value.JNull? ==> r == ""
    ensures value.JStr? && parse(value.s).None? ==> r == value.s
    ensures value.JStr? && parse(value.s).Some? ==> r == PreviewParsed(parse(value.s).value)
    ensures !value.JNull? && !value.JStr? ==> r == PreviewParsed(value)
  {
    if value.JNull? then ""
    else if value.JStr? then
      match parse(value.s)
      case None => value.s
      case Some(p) => PreviewParsed(p)
    else PreviewParsed(value)
  }

  /** An array preview of one or two elements shows them all, in order. */
  lemma ShortArrayPreview(items: seq<Json>)
    requires 0 < |items| <= 2
    ensures PreviewParsed(JArr(items)) ==
              "[" + Join(seq(|items|, i requires 0 <= i < |items| => PreviewItem(items[i])), ", ") + "]"
  {
  }

  /** An object preview of one to three pairs shows them all, in key order,
      each value cut to 30 characters. */
  lemma ShortObjectPreview(fields: seq<(string, Json)>)
    requires 0 < |fields| <= 3
    ensures PreviewParsed(JObj(fields)) ==
              "{" + Join(seq(|fields|, i requires 0 <= i < |fields| => PreviewPair(fields[i].0, fields[i].1)), ", ") + "}"
  {
  }

  /** A longer array preview shows its first two elements, in order, and
      names the number of the others (NatToStringRoundTrip reads it back). */
  lemma LongArrayPreview(items: seq<Json>)
    requires |items| > 2
    ensures PreviewParsed(JArr(items)) ==
              "[" + (PreviewItem(items[0]) + ", " + PreviewItem(items[1])) + MoreSuffix(|items| - 2) + "]"
  {
    var shown := seq(2, i requires 0 <= i < 2 => PreviewItem(items[i]));
    assert shown == [PreviewItem(items[0]), PreviewItem(items[1])];
    assert Min(|items|, 2) == 2;
    assert shown[1..] == [PreviewItem(items[1])];
    assert Join(shown, ", ") == PreviewItem(items[0]) + ", " + PreviewItem(items[1]);
  }

  /** An object preview of more than three pairs shows the first three, in
      key order, each value cut to 30 characters, and names the number of
      the others. */
  lemma LongObjectPreview(fields: seq<(string, Json)>)
    requires |fields| > 3
    ensures PreviewParsed(JObj(fields)) ==
              "{" + (PreviewPair(fields[0].0, fields[0].1) + ", " + PreviewPair(fields[1].0, fields[1].1)
                     + ", " + PreviewPair(fields[2].0, fields[2].1))
                  + MoreSuffix(|fields| - 3) + "}"
  {
    var p0 := PreviewPair(fields[0].0, fields[0].1);
    var p1 := PreviewPair(fields[1].0, fields[1].1);
    var p2 := PreviewPair(fields[2].0, fields[2].1);
    var shown := seq(3, i requires 0 <= i < 3 => PreviewPair(fields[i].0, fields[i].1));
    assert Min(|fields|, 3) == 3;
    assert PreviewParsed(JObj(fields)) == "{" + Join(shown, ", ") + MoreSuffix(|fields| - 3) + "}";
    assert shown == [p0, p1, p2];
    JoinThree(p0, p1, p2, ", ");
  }

  lemma JoinThree(a: string, b: string, c: string, sep: string)
    ensures Join([a, b, c], sep) == a + sep + b + sep + c
  {
    assert Join([b, c], sep) == b + sep + c by {
      assert [b, c][1..] == [c];
    }
    assert Join([a, b, c], sep) == a + sep + Join([b, c], sep) by {
      assert [a, b, c][1..] == [b, c];
    }
    Assoc(a + sep, b + sep, c);
    Assoc(a + sep, b, sep);
  }

  /** Every pair shown in a preview is bounded: the key, ": ", and at most
      33 characters of value. */
  lemma PreviewPairBounded(key: string, val: Json)
    ensures |PreviewPair(key, val)| <= |key| + 35
    ensures |FormatNested(val)| <= 30 ==> PreviewPair(key, val) == key + ": " + FormatNested(val)
  {
  }

  /** The cell text of the table: the same dispatch as the CSV export, with
      the truncated preview for JSONB columns. A missing value is passed as
      null, which every branch treats as undefined. */
  function FormatCellValue(column: string, value: Json, foreign: Foreign): (r: string)
    ensures FormatterFor(column, value) == JsonbFormat ==> r == FormatJsonbPreview(value, foreign.parse)
    ensures FormatterFor(column, value) == PlainFormat ==> r == (if Truthy(value) then JsString(value) else "")
  {
    match FormatterFor(column, value)
    case NumberFormat => foreign.number(value)
    case PercentFormat => foreign.percent(value)
    case DateFormat => foreign.date(value)
    case JsonbFormat => FormatJsonbPreview(value, foreign.parse)
    case PlainFormat => if Truthy(value) then JsString(value) else ""
  }

  /** The table and the export differ only in the JSONB columns. */
  lemma TableAgreesWithExportOutsideJsonb(column: string, value: Json, foreign: Foreign)
    requires FormatterFor(column, value) != JsonbFormat
    ensures FormatCellValue(column, value, foreign) == FormatCell(column, value, foreign)
  {
  }
}
