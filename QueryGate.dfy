/** The read-only gate in front of the database and the classification of
    database errors (runGenerateSQLQuery in app/actions.ts). */
module QueryGate {
  import opened Text
  import opened JsonValue

  /** The keywords whose presence anywhere in the query rejects it. */
  const Denylist: seq<string> :=
    ["drop", "delete", "insert", "update", "alter", "truncate", "create", "grant", "revoke"]

  const SelectKeyword: string := "select"

  /** The marker the database puts in its message when the table is missing. */
  const MissingTableMarker: string := "relation \"resume_scores_rows\" does not exist"

  /** The text every check looks at: query.trim().toLowerCase(). */
  function Normalize(query: string): string {
    Lower(Trim(query))
  }

  predicate MentionsDenied(s: string) {
    exists k :: 0 <= k < |Denylist| && Contains(s, Denylist[k])
  }

  /** The negation of the condition guarding the throw: the query is let
      through to the database. */
  predicate Accepts(query: string): (r: bool)
    ensures r ==> |Trim(query)| >= |SelectKeyword| &&
                  forall i :: 0 <= i < |SelectKeyword| ==> LowerChar(Trim(query)[i]) == SelectKeyword[i]
    ensures r ==> forall k :: 0 <= k < |Denylist| ==> !Contains(Normalize(query), Denylist[k])
  {
    var n := Normalize(query);
    StartsWith(n, SelectKeyword) && !MentionsDenied(n)
  }

  /** What the database call gives back: rows, or a thrown error's message. */
  datatype DbReply = DbRows(rows: seq<Row>) | DbFailure(message: string)

  /** The errors runGenerateSQLQuery throws. */
  datatype QueryError =
    | OnlySelectAllowed
    | TableDoesNotExist
    | Rethrown(message: string)

  /** The message of the Error thrown. */
  function ErrorMessage(e: QueryError): string {
    match e
    case OnlySelectAllowed => "Only SELECT queries are allowed"
    case TableDoesNotExist => "Table does not exist"
    case Rethrown(m) => m
  }

  /** The catch block: one marker becomes "Table does not exist", every other
      error goes on unchanged. */
  function ClassifyDbError(message: string): (e: QueryError)
    ensures e == TableDoesNotExist <==> Contains(message, MissingTableMarker)
    ensures e != TableDoesNotExist ==> e == Rethrown(message)
    ensures e != OnlySelectAllowed
    ensures ErrorMessage(e) == if Contains(message, MissingTableMarker) then "Table does not exist" else message
  {
    if Contains(message, MissingTableMarker) then TableDoesNotExist else Rethrown(message)
  }

  datatype QueryResult = Ok(rows: seq<Row>) | Err(error: QueryError)

  /** One call: `sent` is the text handed to the database, None when the
      database is never called. */
  datatype Run = Run(sent: Option<string>, result: QueryResult)

  /** runGenerateSQLQuery with the database as the oracle db. */
  function RunQuery(query: string, db: string -> DbReply): (r: Run)
    ensures !Accepts(query) ==> r == Run(None, Err(OnlySelectAllowed))
    ensures !Accepts(query) ==> ErrorMessage(r.result.error) == "Only SELECT queries are allowed"
    ensures Accepts(query) ==> r.sent == Some(query)
    ensures Accepts(query) && db(query).DbRows? ==> r.result == Ok(db(query).rows)
    ensures Accepts(query) && db(query).DbFailure? ==>
              r.result == Err(ClassifyDbError(db(query).message))
  {
    if !Accepts(query) then Run(None, Err(OnlySelectAllowed))
    else
      match db(query)
      case DbRows(rows) => Run(Some(query), Ok(rows))
      case DbFailure(m) => Run(Some(query), Err(ClassifyDbError(m)))
  }

  /** The database is reached only with the original query text, and only
      when that text passed the gate. */
  lemma RunReachesDbOnlyWhenAccepted(query: string, db: string -> DbReply)
    ensures RunQuery(query, db).sent.Some? <==> Accepts(query)
    ensures RunQuery(query, db).sent.Some? ==> RunQuery(query, db).sent.value == query
  {
  }

  /** An accepted query, normalised, starts with "select" and has no
      denylisted keyword at any position; and conversely. */
  lemma AcceptsMeaning(query: string)
    ensures Accepts(query) <==>
              (var n := Normalize(query);
               |SelectKeyword| <= |n| && n[..|SelectKeyword|] == SelectKeyword &&
               forall k, i :: 0 <= k < |Denylist| ==> !OccursAt(n, Denylist[k], i))
  {
    var n := Normalize(query);
    forall k | 0 <= k < |Denylist| ensures Contains(n, Denylist[k]) <==> exists i :: OccursAt(n, Denylist[k], i) {
      ContainsMeaning(n, Denylist[k]);
    }
  }

  /** Any query whose normalised text contains a denylisted keyword is
      rejected, whatever else it contains. */
  lemma {:induction false} DeniedKeywordRejects(query: string, k: int, i: int)
    requires 0 <= k < |Denylist|
    requires OccursAt(Normalize(query), Denylist[k], i)
    ensures !Accepts(query)
  {
    ContainsAt(Normalize(query), Denylist[k], i);
  }

  /** Any query whose normalised text does not start with "select" is rejected. */
  lemma NoSelectPrefixRejects(query: string)
    requires !StartsWith(Normalize(query), SelectKeyword)
    ensures !Accepts(query)
  {
  }

  // ---------------------------------------------------------------------
  // The verdict depends only on the normalised text.

  lemma {:induction false} LowerSpace(c: char)
    ensures IsSpace(LowerChar(c)) == IsSpace(c)
  {
  }

  lemma {:induction false} LowerTrimStart(s: string)
    ensures Lower(TrimStart(s)) == TrimStart(Lower(s))
    decreases |s|
  {
    if |s| > 0 {
      assert Lower(s)[1..] == Lower(s[1..]);
      LowerSpace(s[0]);
      if IsSpace(s[0]) {
        LowerTrimStart(s[1..]);
      }
    }
  }

  lemma {:induction false} LowerTrimEnd(s: string)
    ensures Lower(TrimEnd(s)) == TrimEnd(Lower(s))
    decreases |s|
  {
    if |s| > 0 {
      assert Lower(s)[..|s| - 1] == Lower(s[..|s| - 1]);
      LowerSpace(s[|s| - 1]);
      if IsSpace(s[|s| - 1]) {
        LowerTrimEnd(s[..|s| - 1]);
      }
    }
  }

  /** Trimming and lowercasing commute. */
  lemma LowerTrim(s: string)
    ensures Lower(Trim(s)) == Trim(Lower(s))
  {
    LowerTrimStart(s);
    LowerTrimEnd(TrimStart(s));
  }

  /** Queries that agree up to letter case get the same verdict. */
  lemma CaseNeverMatters(q1: string, q2: string)
    requires Lower(q1) == Lower(q2)
    ensures Accepts(q1) == Accepts(q2)
  {
    LowerTrim(q1);
    LowerTrim(q2);
  }

  lemma {:induction false} TrimStartPadded(pad: string, s: string)
    requires AllSpace(pad)
    ensures TrimStart(pad + s) == TrimStart(s)
    decreases |pad|
  {
    if |pad| > 0 {
      assert IsSpace(pad[0]);
      assert AllSpace(pad[1..]) by {
        forall i | 0 <= i < |pad| - 1 ensures IsSpace(pad[1..][i]) {
          assert pad[1..][i] == pad[i + 1];
        }
      }
      assert (pad + s)[0] == pad[0];
      assert (pad + s)[1..] == pad[1..] + s;
      TrimStartPadded(pad[1..], s);
    } else {
      assert pad + s == s;
    }
  }

  lemma {:induction false} TrimEndPadded(s: string, pad: string)
    requires AllSpace(pad)
    ensures TrimEnd(s + pad) == TrimEnd(s)
    decreases |pad|
  {
    if |pad| > 0 {
      assert IsSpace(pad[|pad| - 1]);
      assert AllSpace(pad[..|pad| - 1]) by {
        var init := pad[..|pad| - 1];
        forall i | 0 <= i < |init| ensures IsSpace(init[i]) {
          assert init[i] == pad[i];
        }
      }
      assert (s + pad)[|s + pad| - 1] == pad[|pad| - 1];
      assert (s + pad)[..|s + pad| - 1] == s + pad[..|pad| - 1];
      TrimEndPadded(s, pad[..|pad| - 1]);
    } else {
      assert s + pad == s;
    }
  }

  /** Trailing padding survives TrimStart of the text in front of it. */
  lemma {:induction false} TrimStartThenPad(s: string, pad: string)
    requires AllSpace(pad)
    ensures TrimEnd(TrimStart(s + pad)) == TrimEnd(TrimStart(s) + pad)
    decreases |s|
  {
    if |s| == 0 {
      assert s + pad == pad;
      TrimStartPadded(pad, "");
      TrimEndPadded("", pad);
      assert pad + "" == pad && "" + pad == pad;
    } else if IsSpace(s[0]) {
      assert (s + pad)[0] == s[0];
      assert (s + pad)[1..] == s[1..] + pad;
      TrimStartThenPad(s[1..], pad);
    } else {
      assert (s + pad)[0] == s[0];
    }
  }

  /** Whitespace around a query never changes its verdict. */
  lemma SurroundingSpaceNeverMatters(before: string, query: string, after: string)
    requires AllSpace(before) && AllSpace(after)
    ensures Accepts(before + query + after) == Accepts(query)
  {
    assert before + query + after == before + (query + after);
    TrimStartPadded(before, query + after);
    TrimStartThenPad(query, after);
    TrimEndPadded(TrimStart(query), after);
    assert Trim(before + query + after) == Trim(query);
  }

  // ---------------------------------------------------------------------
  // Keywords anywhere, in any letter case, trip the lexical gate.

  lemma {:induction false} ContainsTrimStart(s: string, t: string)
    requires Contains(s, t) && |t| > 0 && !IsSpace(t[0])
    ensures Contains(TrimStart(s), t)
    decreases |s|
  {
    if !StartsWith(s, t) && IsSpace(s[0]) {
      ContainsTrimStart(s[1..], t);
    }
  }

  lemma {:induction false} TrimEndShape(s: string)
    ensures TrimEnd(s) == s[..|TrimEnd(s)|]
    ensures forall i :: |TrimEnd(s)| <= i < |s| ==> IsSpace(s[i])
    decreases |s|
  {
    if |s| > 0 && IsSpace(s[|s| - 1]) {
      var init := s[..|s| - 1];
      TrimEndShape(init);
      assert forall i :: 0 <= i < |init| ==> init[i] == s[i];
    }
  }

  lemma ContainsTrimEnd(s: string, t: string)
    requires Contains(s, t) && |t| > 0 && !IsSpace(t[|t| - 1])
    ensures Contains(TrimEnd(s), t)
  {
    ContainsMeaning(s, t);
    var i :| OccursAt(s, t, i);
    TrimEndShape(s);
    var m := |TrimEnd(s)|;
    assert s[i + |t| - 1] == t[|t| - 1];
    assert i + |t| <= m;
    assert TrimEnd(s)[i..i + |t|] == s[i..i + |t|];
    ContainsAt(TrimEnd(s), t, i);
  }

  /** Every denylisted keyword is a run of lower-case letters. */
  lemma DenylistLetters(k: int)
    requires 0 <= k < |Denylist|
    ensures |Denylist[k]| > 0
    ensures forall j :: 0 <= j < |Denylist[k]| ==> 'a' <= Denylist[k][j] <= 'z'
  {
  }

  /** A query in which a denylisted keyword appears anywhere, in any letter
      case (inside a string literal, a column name, a comment), is rejected. */
  lemma KeywordAnywhereRejects(query: string, k: int)
    requires 0 <= k < |Denylist|
    requires Contains(Lower(query), Denylist[k])
    ensures !Accepts(query)
  {
    var w := Denylist[k];
    DenylistLetters(k);
    ContainsTrimStart(Lower(query), w);
    ContainsTrimEnd(TrimStart(Lower(query)), w);
    LowerTrim(query);
  }

  lemma LowerAppend(a: string, b: string)
    ensures Lower(a + b) == Lower(a) + Lower(b)
  {
  }

  /** A query that mentions created_at (and so metadata_created_at) is
      rejected, because it contains "create". */
  lemma CreatedAtColumnRejected(query: string)
    requires Contains(Lower(query), "created_at")
    ensures !Accepts(query)
  {
    ContainsPart("", "create", "d_at");
    assert "" + "create" + "d_at" == "created_at";
    ContainsTransitive(Lower(query), "created_at", "create");
    KeywordAnywhereRejects(query, 6);
  }

  /** A query that mentions updated_at (and so metadata_updated_at) is
      rejected, because it contains "update". */
  lemma UpdatedAtColumnRejected(query: string)
    requires Contains(Lower(query), "updated_at")
    ensures !Accepts(query)
  {
    ContainsPart("", "update", "d_at");
    assert "" + "update" + "d_at" == "updated_at";
    ContainsTransitive(Lower(query), "updated_at", "update");
    KeywordAnywhereRejects(query, 3);
  }

  lemma LowerLiteral(before: string, after: string)
    ensures Lower(before + "'Update'" + after) == Lower(before) + "'update'" + Lower(after)
  {
    LowerAppend(before + "'Update'", after);
    LowerAppend(before, "'Update'");
    assert Lower("'Update'") == "'update'";
  }

  lemma QuotedContains(lb: string, la: string)
    ensures Contains(lb + "'update'" + la, "update")
  {
    ContainsPart(lb + "'", "update", "'" + la);
    assert lb + "'" + "update" + ("'" + la) == lb + "'update'" + la;
  }

  /** A read-only query that compares a column with the string literal
      'Update' is rejected all the same, whatever surrounds the literal. */
  lemma KeywordInLiteralRejected(before: string, after: string)
    ensures !Accepts(before + "'Update'" + after)
  {
    LowerLiteral(before, after);
    QuotedContains(Lower(before), Lower(after));
    KeywordAnywhereRejects(before + "'Update'" + after, 3);
  }
}
