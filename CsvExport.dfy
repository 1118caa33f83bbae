/** The CSV export (lib/csv-utils.ts): the JSONB formatters, the per-column
    dispatch, and the text of the file. A reader for the same dialect
    (section 2 of RFC 4180 with LF between records) is the reference the
    text is proved against. */
module CsvExport {
  import opened Text
  import opened JsonValue

  // ---------------------------------------------------------------------
  // JSONB formatting

  /** formatNestedValueForCSV: "null", "[]", "{}", or a bracketed list of
      items or "key: value" pairs separated by ", ". */
  function FormatNested(v: Json): (r: string)
    ensures v.JNull? ==> r == "null"
    ensures v.JArr? && |v.items| == 0 ==> r == "[]"
    ensures v.JObj? && |v.fields| == 0 ==> r == "{}"
    ensures v.JArr? ==> |r| >= 2 && r[0] == '[' && r[|r| - 1] == ']'
    ensures v.JObj? ==> |r| >= 2 && r[0] == '{' && r[|r| - 1] == '}'
    ensures v.JArr? ==> forall i :: 0 <= i < |v.items| ==> Contains(r, FormatNested(v.items[i]))
    ensures v.JObj? ==> forall i :: 0 <= i < |v.fields| ==>
              Contains(r, v.fields[i].0 + ": " + FormatNested(v.fields[i].1))
    ensures !v.JNull? && !v.JArr? && !v.JObj? ==> r == JsString(v)
    decreases v
  {
    match v
    case JNull => "null"
    case JArr(items) =>
      if |items| == 0 then "[]"
      else
        var parts := seq(|items|, i requires 0 <= i < |items| => FormatNested(items[i]));
        assert forall i :: 0 <= i < |items| ==> Contains("[" + Join(parts, ", ") + "]", FormatNested(items[i])) by {
          forall i | 0 <= i < |items| ensures Contains("[" + Join(parts, ", ") + "]", FormatNested(items[i])) {
            JoinContainsPart(parts, ", ", i);
            Enclosed("[", Join(parts, ", "), "]", parts[i]);
          }
        }
        "[" + Join(parts, ", ") + "]"
    case JObj(fields) =>
      if |fields| == 0 then "{}"
      else
        var parts := seq(|fields|, i requires 0 <= i < |fields| => fields[i].0 + ": " + FormatNested(fields[i].1));
        assert forall i :: 0 <= i < |fields| ==>
                 Contains("{" + Join(parts, ", ") + "}", fields[i].0 + ": " + FormatNested(fields[i].1)) by {
          forall i | 0 <= i < |fields|
            ensures Contains("{" + Join(parts, ", ") + "}", fields[i].0 + ": " + FormatNested(fields[i].1))
          {
            JoinContainsPart(parts, ", ", i);
            Enclosed("{", Join(parts, ", "), "}", parts[i]);
          }
        }
        "{" + Join(parts, ", ") + "}"
    case _ => JsString(v)
  }

  /** The "key: value" texts of an object-like value, as Object.keys lists them. */
  function PairTexts(v: Json): (r: seq<string>)
    requires IsObjectLike(v)
    ensures |r| == |Entries(v)|
  {
    var e := Entries(v);
    seq(|e|, i requires 0 <= i < |e| => e[i].0 + ": " + FormatNested(e[i].1))
  }

  /** One element of a top-level array: an object (or array) shows its
      pairs separated by "; ", an empty one shows "{}", anything else String(item). */
  function ItemText(item: Json): (r: string)
    ensures !IsObjectLike(item) ==> r == JsString(item)
    ensures IsObjectLike(item) && |Entries(item)| == 0 ==> r == "{}"
    ensures IsObjectLike(item) ==> forall k :: 0 <= k < |Entries(item)| ==> Contains(r, PairTexts(item)[k])
  {
    if IsObjectLike(item) then
      if |Entries(item)| > 0 then
        var pairs := PairTexts(item);
        assert forall k :: 0 <= k < |pairs| ==> Contains(Join(pairs, "; "), pairs[k]) by {
          forall k | 0 <= k < |pairs| ensures Contains(Join(pairs, "; "), pairs[k]) {
            JoinContainsPart(pairs, "; ", k);
          }
        }
        Join(pairs, "; ")
      else "{}"
    else JsString(item)
  }

  /** The value once any JSON text has been parsed: arrays joined by " | ",
      objects by "; ", primitives through String(). */
  function FormatParsed(v: Json): (r: string)
    ensures !v.JArr? && !v.JObj? ==> r == JsString(v)
    ensures v.JArr? && |v.items| == 0 ==> r == "[]"
    ensures v.JObj? && |v.fields| == 0 ==> r == "{}"
    ensures v.JArr? ==> |r| >= 2 && r[0] == '[' && r[|r| - 1] == ']'
    ensures v.JObj? ==> |r| >= 2 && r[0] == '{' && r[|r| - 1] == '}'
  {
    match v
    case JArr(items) =>
      if |items| == 0 then "[]"
      else "[" + Join(seq(|items|, i requires 0 <= i < |items| => ItemText(items[i])), " | ") + "]"
    case JObj(fields) =>
      if |fields| == 0 then "{}" else "{" + Join(PairTexts(v), "; ") + "}"
    case _ => JsString(v)
  }

  /** formatJsonbValueForCSV: null shows as nothing, a string is parsed
      first and kept as it is when it is not JSON. */
  function FormatJsonbForCsv(value: Json, parse: Parser): (r: string)
    ensures value.JNull? ==> r == ""
    ensures value.JStr? && parse(value.s).None? ==> r == value.s
    ensures value.JStr? && parse(value.s).Some? ==> r == FormatParsed(parse(value.s).value)
    ensures !value.JNull? && !value.JStr? ==> r == FormatParsed(value)
  {
    if value.JNull? then ""
    else if value.JStr? then
      match parse(value.s)
      case None => value.s
      case Some(p) => FormatParsed(p)
    else FormatParsed(value)
  }

  /** s is a key or the String() text of a primitive somewhere inside v. */
  ghost predicate Mentions(v: Json, s: string)
    decreases v
  {
    match v
    case JArr(items) => exists i :: 0 <= i < |items| && Mentions(items[i], s)
    case JObj(fields) =>
      exists i :: 0 <= i < |fields| && (fields[i].0 == s || Mentions(fields[i].1, s))
    case _ => s == JsString(v)
  }

  lemma Enclosed(open: string, body: string, close: string, s: string)
    requires Contains(body, s)
    ensures Contains(open + body + close, s)
  {
    ContainsPart(open, body, close);
    ContainsTransitive(open + body + close, body, s);
  }

  lemma PartInJoin(parts: seq<string>, sep: string, k: int, s: string)
    requires 0 <= k < |parts| && Contains(parts[k], s)
    ensures Contains(Join(parts, sep), s)
  {
    JoinContainsPart(parts, sep, k);
    ContainsTransitive(Join(parts, sep), parts[k], s);
  }

  lemma PairMentions(key: string, val: Json, s: string)
    requires key == s || Contains(FormatNested(val), s)
    ensures Contains(key + ": " + FormatNested(val), s)
  {
    if key == s {
      Enclosed("", key, ": " + FormatNested(val), s) by { ContainsPart("", key, ""); assert "" + key + "" == key; }
      assert "" + key + (": " + FormatNested(val)) == key + ": " + FormatNested(val);
    } else {
      Enclosed(key + ": ", FormatNested(val), "", s);
      assert key + ": " + FormatNested(val) + "" == key + ": " + FormatNested(val);
    }
  }

  /** The nested formatter loses nothing: every key and every primitive
      inside the value appears in its text. */
  lemma {:induction false} NestedShowsEverything(v: Json, s: string)
    requires Mentions(v, s)
    ensures Contains(FormatNested(v), s)
    decreases v
  {
    match v
    case JArr(items) =>
      var i :| 0 <= i < |items| && Mentions(items[i], s);
      NestedShowsEverything(items[i], s);
      var parts := seq(|items|, j requires 0 <= j < |items| => FormatNested(items[j]));
      PartInJoin(parts, ", ", i, s);
      Enclosed("[", Join(parts, ", "), "]", s);
    case JObj(fields) =>
      var i :| 0 <= i < |fields| && (fields[i].0 == s || Mentions(fields[i].1, s));
      if fields[i].0 != s {
        NestedShowsEverything(fields[i].1, s);
      }
      PairMentions(fields[i].0, fields[i].1, s);
      var parts := seq(|fields|, j requires 0 <= j < |fields| =>
                         fields[j].0 + ": " + FormatNested(fields[j].1));
      PartInJoin(parts, ", ", i, s);
      Enclosed("{", Join(parts, ", "), "}", s);
    case _ =>
      ContainsPart("", s, "");
      assert "" + s + "" == s;
  }

  /** An object-like value's pair texts mention all it holds. */
  lemma PairTextsShowEverything(v: Json, s: string)
    requires IsObjectLike(v) && Mentions(v, s)
    ensures exists k :: 0 <= k < |PairTexts(v)| && Contains(PairTexts(v)[k], s)
  {
    var e := Entries(v);
    var k: int;
    if v.JArr? {
      k :| 0 <= k < |v.items| && Mentions(v.items[k], s);
      NestedShowsEverything(v.items[k], s);
    } else {
      k :| 0 <= k < |v.fields| && (v.fields[k].0 == s || Mentions(v.fields[k].1, s));
      if v.fields[k].0 != s {
        NestedShowsEverything(v.fields[k].1, s);
      }
    }
    PairMentions(e[k].0, e[k].1, s);
    assert PairTexts(v)[k] == e[k].0 + ": " + FormatNested(e[k].1);
  }

  /** The CSV formatting of a parsed value loses nothing either: every key
      and every primitive appears in the cell text (the table preview, in
      contrast, truncates). */
  lemma ParsedShowsEverything(v: Json, s: string)
    requires Mentions(v, s)
    ensures Contains(FormatParsed(v), s)
  {
    match v
    case JArr(items) =>
      var i :| 0 <= i < |items| && Mentions(items[i], s);
      var item := items[i];
      if IsObjectLike(item) {
        PairTextsShowEverything(item, s);
        var k :| 0 <= k < |PairTexts(item)| && Contains(PairTexts(item)[k], s);
        PartInJoin(PairTexts(item), "; ", k, s);
      } else {
        ContainsPart("", s, "");
        assert "" + s + "" == s;
      }
      var parts := seq(|items|, j requires 0 <= j < |items| => ItemText(items[j]));
      PartInJoin(parts, " | ", i, s);
      Enclosed("[", Join(parts, " | "), "]", s);
    case JObj(fields) =>
      PairTextsShowEverything(v, s);
      var k :| 0 <= k < |PairTexts(v)| && Contains(PairTexts(v)[k], s);
      PartInJoin(PairTexts(v), "; ", k, s);
      Enclosed("{", Join(PairTexts(v), "; "), "}", s);
    case _ =>
      ContainsPart("", s, "");
      assert "" + s + "" == s;
  }

  /** The same for a JSONB cell: what a JSON string parses to is shown in
      full; a non-JSON string is shown as it is. */
  lemma JsonbCellShowsEverything(value: Json, parse: Parser, s: string)
    requires !value.JNull?
    requires value.JStr? ==> parse(value.s).Some? && Mentions(parse(value.s).value, s)
    requires !value.JStr? ==> Mentions(value, s)
    ensures Contains(FormatJsonbForCsv(value, parse), s)
  {
    if value.JStr? {
      ParsedShowsEverything(parse(value.s).value, s);
    } else {
      ParsedShowsEverything(value, s);
    }
  }

  // ---------------------------------------------------------------------
  // Per-column dispatch

  /** The formatting calls outside the model: parseFloat/toString for scores,
      toFixed for rates, toLocaleDateString for timestamps, and JSON.parse. */
  datatype Foreign = Foreign(
    parse: Parser,
    number: Json -> string,
    percent: Json -> string,
    date: Json -> string)

  datatype CellFormat = NumberFormat | PercentFormat | DateFormat | JsonbFormat | PlainFormat

  predicate IsJsonbColumnName(col: string) {
    Contains(col, "entries") || Contains(col, "answers") || Contains(col, "location") || Contains(col, "skills_list")
  }

  predicate IsTimestampColumnName(col: string) {
    Contains(col, "created_at") || Contains(col, "updated_at")
  }

  /** formatCellValueForCSV's choice of formatter; the first rule that
      matches wins. */
  function FormatterFor(column: string, value: Json): (f: CellFormat)
    ensures f == JsonbFormat <==>
              var col := Lower(column);
              !Contains(col, "fit_score") && !Contains(col, "rate") &&
              !(IsTimestampColumnName(col) && Truthy(value)) && IsJsonbColumnName(col)
    ensures f == PlainFormat ==> !IsJsonbColumnName(Lower(column))
  {
    var col := Lower(column);
    if Contains(col, "fit_score") then NumberFormat
    else if Contains(col, "rate") then PercentFormat
    else if IsTimestampColumnName(col) && Truthy(value) then DateFormat
    else if IsJsonbColumnName(col) then JsonbFormat
    else PlainFormat
  }

  /** formatCellValueForCSV. */
  function FormatCell(column: string, value: Json, foreign: Foreign): (r: string)
    ensures Contains(Lower(column), "fit_score") ==> r == foreign.number(value)
    ensures !Contains(Lower(column), "fit_score") && Contains(Lower(column), "rate") ==> r == foreign.percent(value)
    ensures (!Contains(Lower(column), "fit_score") && !Contains(Lower(column), "rate") &&
             IsTimestampColumnName(Lower(column)) && Truthy(value)) ==> r == foreign.date(value)
    ensures FormatterFor(column, value) == JsonbFormat ==> r == FormatJsonbForCsv(value, foreign.parse)
    ensures FormatterFor(column, value) == PlainFormat ==> r == (if Truthy(value) then JsString(value) else "")
  {
    match FormatterFor(column, value)
    case NumberFormat => foreign.number(value)
    case PercentFormat => foreign.percent(value)
    case DateFormat => foreign.date(value)
    case JsonbFormat => FormatJsonbForCsv(value, foreign.parse)
    case PlainFormat => if Truthy(value) then JsString(value) else ""
  }

  /** The default branch shows a falsy value as the empty string. */
  lemma PlainFalsyIsEmpty(column: string, value: Json, foreign: Foreign)
    requires FormatterFor(column, value) == PlainFormat && !Truthy(value)
    ensures FormatCell(column, value, foreign) == ""
  {
  }

  // ---------------------------------------------------------------------
  // Fields and the file text

  /** A field must be quoted when it holds a comma, a line feed or a quote. */
  predicate NeedsQuotes(s: string) {
    Contains(s, ",") || Contains(s, "\n") || Contains(s, "\"")
  }

  lemma ContainsChar(s: string, c: char)
    ensures Contains(s, [c]) <==> c in s
  {
    ContainsMeaning(s, [c]);
    if Contains(s, [c]) {
      var i :| OccursAt(s, [c], i);
      assert s[i] == s[i..i + 1][0];
    }
    if c in s {
      var i :| 0 <= i < |s| && s[i] == c;
      assert OccursAt(s, [c], i);
    }
  }

  lemma NeedsQuotesMeaning(s: string)
    ensures NeedsQuotes(s) <==> (',' in s || '\n' in s || '"' in s)
  {
    ContainsChar(s, ',');
    ContainsChar(s, '\n');
    ContainsChar(s, '"');
  }

  /** The number of double quotes in s. */
  function QuoteCount(s: string): nat
    decreases |s|
  {
    if |s| == 0 then 0 else (if s[0] == '"' then 1 else 0) + QuoteCount(s[1..])
  }

  /** value.replace(/"/g, '""'). */
  function DoubleQuotes(s: string): (r: string)
    ensures '"' !in s ==> r == s
    ensures |r| == |s| + QuoteCount(s)
    decreases |s|
  {
    if |s| == 0 then ""
    else if s[0] == '"' then "\"\"" + DoubleQuotes(s[1..])
    else [s[0]] + DoubleQuotes(s[1..])
  }

  /** A field as written to the file: a text holding a comma, a line feed
      or a quote is wrapped in quotes with its quotes doubled, any other
      text is written as it is. */
  function Escape(s: string): (r: string)
    ensures !NeedsQuotes(s) ==> r == s
    ensures NeedsQuotes(s) ==> |r| == |s| + QuoteCount(s) + 2 && r[0] == '"' && r[|r| - 1] == '"'
  {
    if NeedsQuotes(s) then "\"" + DoubleQuotes(s) + "\"" else s
  }

  /** The text a cell stands for before escaping: empty when the row has no
      such key or the value is null. */
  function CellText(row: Row, header: string, foreign: Foreign): string {
    match Lookup(row, header)
    case None => ""
    case Some(v) => if v.JNull? then "" else FormatCell(header, v, foreign)
  }

  /** One field of a data line, as downloadCSV computes it. */
  function Field(row: Row, header: string, foreign: Foreign): (r: string)
    ensures r == Escape(CellText(row, header, foreign))
  {
    match Lookup(row, header)
    case None =>
      assert !NeedsQuotes("") by { NeedsQuotesMeaning(""); }
      ""
    case Some(v) =>
      if v.JNull? then
        assert !NeedsQuotes("") by { NeedsQuotesMeaning(""); }
        ""
      else Escape(FormatCell(header, v, foreign))
  }

  function Keys(row: Row): (r: seq<string>)
    ensures |r| == |row|
    ensures forall i :: 0 <= i < |row| ==> r[i] == row[i].0
  {
    seq(|row|, i requires 0 <= i < |row| => row[i].0)
  }

  function DataLine(row: Row, headers: seq<string>, foreign: Foreign): (r: string)
    ensures forall j :: 0 <= j < |headers| ==> Contains(r, Field(row, headers[j], foreign))
  {
    var fields := seq(|headers|, j requires 0 <= j < |headers| => Field(row, headers[j], foreign));
    assert forall j :: 0 <= j < |headers| ==> Contains(Join(fields, ","), Field(row, headers[j], foreign)) by {
      forall j | 0 <= j < |headers| ensures Contains(Join(fields, ","), Field(row, headers[j], foreign)) {
        JoinContainsPart(fields, ",", j);
        assert fields[j] == Field(row, headers[j], foreign);
      }
    }
    Join(fields, ",")
  }

  /** The CSV text downloadCSV builds, or None when there are no rows and
      nothing is downloaded. */
  function CsvContent(data: seq<Row>, foreign: Foreign): (r: Option<string>)
    ensures r.None? <==> |data| == 0
  {
    if |data| == 0 then None
    else
      var headers := Keys(data[0]);
      Some(Join([Join(headers, ",")] +
                seq(|data|, i requires 0 <= i < |data| => DataLine(data[i], headers, foreign)), "\n"))
  }

  // ---------------------------------------------------------------------
  // The reader for the same dialect

  /** The inside of a quoted field, after its opening quote: a doubled quote
      stands for one quote, a single quote closes the field. */
  function ParseQuoted(s: string): (r: (string, string))
    ensures |r.1| <= |s|
    decreases |s|
  {
    if |s| == 0 then ("", "")
    else if s[0] == '"' then
      if |s| >= 2 && s[1] == '"' then
        var (c, rest) := ParseQuoted(s[2..]);
        ("\"" + c, rest)
      else ("", s[1..])
    else
      var (c, rest) := ParseQuoted(s[1..]);
      ([s[0]] + c, rest)
  }

  /** An unquoted field runs up to the next comma or line feed. */
  function ParseUnquoted(s: string): (r: (string, string))
    ensures |r.1| <= |s|
    decreases |s|
  {
    if |s| == 0 || s[0] == ',' || s[0] == '\n' then ("", s)
    else
      var (c, rest) := ParseUnquoted(s[1..]);
      ([s[0]] + c, rest)
  }

  function ParseField(s: string): (r: (string, string))
    ensures |r.1| <= |s|
  {
    if |s| > 0 && s[0] == '"' then ParseQuoted(s[1..]) else ParseUnquoted(s)
  }

  /** One record: its fields, the text after it, and whether the text ended. */
  function ParseRecord(s: string): (r: (seq<string>, string, bool))
    ensures |r.0| >= 1
    ensures !r.2 ==> |r.1| < |s|
    decreases |s|
  {
    var (f, rest) := ParseField(s);
    if |rest| == 0 then ([f], "", true)
    else if rest[0] == ',' then
      var (fs, rest2, ended) := ParseRecord(rest[1..]);
      ([f] + fs, rest2, ended)
    else ([f], rest[1..], false)
  }

  /** All records of a text. */
  function ParseRecords(s: string): seq<seq<string>>
    decreases |s|
  {
    var (fs, rest, ended) := ParseRecord(s);
    if ended then [fs] else [fs] + ParseRecords(rest)
  }

  // ---------------------------------------------------------------------
  // Round trip: reading the text back gives the header and the cells

  /** t starts at a field boundary. */
  predicate AtBoundary(t: string) {
    |t| == 0 || t[0] == ',' || t[0] == '\n'
  }

  lemma {:induction false} ParseQuotedDoubled(f: string, t: string)
    requires AtBoundary(t)
    ensures ParseQuoted(DoubleQuotes(f) + "\"" + t) == (f, t)
    decreases |f|
  {
    var s := DoubleQuotes(f) + "\"" + t;
    if |f| == 0 {
      assert s == "\"" + t;
      assert s[1..] == t;
    } else if f[0] == '"' {
      ParseQuotedDoubled(f[1..], t);
      assert s == "\"\"" + (DoubleQuotes(f[1..]) + "\"" + t);
      assert s[2..] == DoubleQuotes(f[1..]) + "\"" + t;
      assert "\"" + f[1..] == f;
    } else {
      ParseQuotedDoubled(f[1..], t);
      assert s == [f[0]] + (DoubleQuotes(f[1..]) + "\"" + t);
      assert s[1..] == DoubleQuotes(f[1..]) + "\"" + t;
      assert [f[0]] + f[1..] == f;
    }
  }

  lemma {:induction false} ParseUnquotedPlain(f: string, t: string)
    requires ',' !in f && '\n' !in f
    requires AtBoundary(t)
    ensures ParseUnquoted(f + t) == (f, t)
    decreases |f|
  {
    if |f| == 0 {
      assert f + t == t;
    } else {
      assert (f + t)[0] == f[0];
      assert (f + t)[1..] == f[1..] + t;
      assert ',' !in f[1..] && '\n' !in f[1..] by {
        assert forall c :: c in f[1..] ==> c in f;
      }
      ParseUnquotedPlain(f[1..], t);
      assert [f[0]] + f[1..] == f;
    }
  }

  /** Quoting round-trips: the reader recovers exactly the field's text. */
  lemma ParseFieldEscaped(f: string, t: string)
    requires AtBoundary(t)
    ensures ParseField(Escape(f) + t) == (f, t)
  {
    if NeedsQuotes(f) {
      ParseFieldQuoted(f, t);
    } else {
      ParseFieldPlain(f, t);
    }
  }

  lemma ParseFieldQuoted(f: string, t: string)
    requires AtBoundary(t) && NeedsQuotes(f)
    ensures ParseField(Escape(f) + t) == (f, t)
  {
    var s := Escape(f) + t;
    assert Escape(f) == "\"" + DoubleQuotes(f) + "\"";
    assert s == "\"" + (DoubleQuotes(f) + "\"" + t);
    assert s[1..] == DoubleQuotes(f) + "\"" + t;
    ParseQuotedDoubled(f, t);
  }

  lemma ParseFieldPlain(f: string, t: string)
    requires AtBoundary(t) && !NeedsQuotes(f)
    ensures ParseField(Escape(f) + t) == (f, t)
  {
    NeedsQuotesMeaning(f);
    assert Escape(f) == f;
    ParseUnquotedPlain(f, t);
    if |f| > 0 {
      assert (f + t)[0] == f[0];
    } else {
      assert f + t == t;
    }
  }

  /** A record as the writer lays it out: escaped fields joined by commas. */
  function EncodeRecord(fields: seq<string>): string {
    Join(seq(|fields|, i requires 0 <= i < |fields| => Escape(fields[i])), ",")
  }

  lemma EncodeRecordCons(fields: seq<string>)
    requires |fields| >= 2
    ensures EncodeRecord(fields) == Escape(fields[0]) + ("," + EncodeRecord(fields[1..]))
  {
    var escaped := seq(|fields|, i requires 0 <= i < |fields| => Escape(fields[i]));
    var tail := fields[1..];
    assert escaped[1..] == seq(|tail|, i requires 0 <= i < |tail| => Escape(tail[i]));
    Assoc(Escape(fields[0]), ",", EncodeRecord(tail));
  }

  /** After a field and a comma, the record goes on with the next field. */
  lemma ParseRecordAfterComma(f: string, more: string)
    ensures ParseRecord(Escape(f) + ("," + more))
            == ([f] + ParseRecord(more).0, ParseRecord(more).1, ParseRecord(more).2)
  {
    ParseFieldEscaped(f, "," + more);
    assert ("," + more)[1..] == more;
  }

  lemma {:induction false} ParseRecordEncoded(fields: seq<string>, t: string)
    requires |fields| >= 1
    requires |t| == 0 || t[0] == '\n'
    ensures ParseRecord(EncodeRecord(fields) + t)
            == (fields, if |t| == 0 then "" else t[1..], |t| == 0)
    decreases |fields|
  {
    if |fields| == 1 {
      assert EncodeRecord(fields) == Escape(fields[0]);
      ParseFieldEscaped(fields[0], t);
      assert fields == [fields[0]];
    } else {
      var tail := fields[1..];
      EncodeRecordCons(fields);
      Assoc(Escape(fields[0]), "," + EncodeRecord(tail), t);
      Assoc(",", EncodeRecord(tail), t);
      assert EncodeRecord(fields) + t == Escape(fields[0]) + ("," + (EncodeRecord(tail) + t));
      ParseRecordAfterComma(fields[0], EncodeRecord(tail) + t);
      ParseRecordEncoded(tail, t);
      assert [fields[0]] + tail == fields;
    }
  }

  function EncodeRecords(records: seq<seq<string>>): seq<string> {
    seq(|records|, i requires 0 <= i < |records| => EncodeRecord(records[i]))
  }

  /** Reading back records that were encoded and joined by line feeds gives
      the records, provided every record has a field. */
  lemma {:induction false} ParseRecordsEncoded(records: seq<seq<string>>)
    requires |records| >= 1
    requires forall i :: 0 <= i < |records| ==> |records[i]| >= 1
    ensures ParseRecords(Join(EncodeRecords(records), "\n")) == records
    decreases |records|
  {
    var lines := EncodeRecords(records);
    if |records| == 1 {
      assert Join(lines, "\n") == EncodeRecord(records[0]) + "";
      ParseRecordEncoded(records[0], "");
    } else {
      var tail := records[1..];
      assert lines[1..] == EncodeRecords(tail);
      var rest := Join(EncodeRecords(tail), "\n");
      assert Join(lines, "\n") == EncodeRecord(records[0]) + ("\n" + rest);
      ParseRecordEncoded(records[0], "\n" + rest);
      assert ("\n" + rest)[1..] == rest;
      ParseRecordsEncoded(tail);
      assert [records[0]] + tail == records;
    }
  }

  /** A header name needs no quoting. */
  predicate PlainHeader(h: string) {
    ',' !in h && '\n' !in h && '"' !in h
  }

  /** The cells of one row under the headers, unescaped. */
  function RowCells(row: Row, headers: seq<string>, foreign: Foreign): seq<string> {
    seq(|headers|, j requires 0 <= j < |headers| => CellText(row, headers[j], foreign))
  }

  /** The cells of every row under every header, unescaped. */
  function Cells(data: seq<Row>, headers: seq<string>, foreign: Foreign): seq<seq<string>> {
    seq(|data|, i requires 0 <= i < |data| => RowCells(data[i], headers, foreign))
  }

  /** The header line is the encoding of the plain header names. */
  lemma HeaderLineEncoded(headers: seq<string>)
    requires forall j :: 0 <= j < |headers| ==> PlainHeader(headers[j])
    ensures EncodeRecord(headers) == Join(headers, ",")
  {
    forall j | 0 <= j < |headers| ensures Escape(headers[j]) == headers[j] {
      NeedsQuotesMeaning(headers[j]);
    }
    assert seq(|headers|, j requires 0 <= j < |headers| => Escape(headers[j])) == headers;
  }

  /** A data line is the encoding of its row's cells. */
  lemma DataLineEncoded(row: Row, headers: seq<string>, foreign: Foreign)
    ensures EncodeRecord(RowCells(row, headers, foreign)) == DataLine(row, headers, foreign)
  {
    var cells := RowCells(row, headers, foreign);
    assert seq(|cells|, j requires 0 <= j < |cells| => Escape(cells[j]))
        == seq(|headers|, j requires 0 <= j < |headers| => Field(row, headers[j], foreign));
  }

  /** The exported text reads back as the header line (the first row's keys,
      in order) followed by one record per row, in order, each holding
      exactly one field per header: the cell's formatted text, or the empty
      string for a missing or null value. Header names are written without
      quoting, so the round trip needs names free of commas, quotes and line
      feeds, and at least one column. */
  lemma CsvRoundTrip(data: seq<Row>, foreign: Foreign)
    requires |data| > 0
    requires |data[0]| > 0
    requires forall i :: 0 <= i < |data[0]| ==> PlainHeader(data[0][i].0)
    ensures CsvContent(data, foreign).Some?
    ensures ParseRecords(CsvContent(data, foreign).value)
            == [Keys(data[0])] + Cells(data, Keys(data[0]), foreign)
  {
    var headers := Keys(data[0]);
    var records := [headers] + Cells(data, headers, foreign);
    var lines := [Join(headers, ",")] +
                 seq(|data|, i requires 0 <= i < |data| => DataLine(data[i], headers, foreign));
    HeaderLineEncoded(headers);
    forall i | 0 <= i < |records| ensures EncodeRecords(records)[i] == lines[i] {
      if i > 0 {
        DataLineEncoded(data[i - 1], headers, foreign);
      }
    }
    assert EncodeRecords(records) == lines;
    ParseRecordsEncoded(records);
  }
}
