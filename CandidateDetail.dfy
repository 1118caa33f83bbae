/** The helpers of the candidate profile dialog
    (components/candidate-detail-modal.tsx): JSON field parsing, the
    location line, the default-filling maps over answers, experience and
    education, and the colour of the score badges. */
module CandidateDetail {
  import opened Text
  import opened JsonValue

  /** The outcome of a formatter whose callback reads a property of each
      element: reading a property of a null element throws a TypeError. */
  datatype Outcome<T> = Done(value: T) | TypeError

  /** fullCandidate?.column: undefined while no full record is loaded. */
  function FieldOf(full: Option<Row>, column: string): Option<Json> {
    if full.None? then None else Lookup(full.value, column)
  }

  /** The record whose fields the dialog shows: the loaded one, else the
      row that was clicked. */
  function DisplayRecord(full: Option<Row>, candidate: Row): (r: Row)
    ensures full.Some? ==> r == full.value
    ensures full.None? ==> r == candidate
  {
    if full.Some? then full.value else candidate
  }

  /** parseJSON: null for a falsy input or a string that is not JSON, the
      parsed value for any other string, the value itself otherwise. */
  function ParseJson(raw: Option<Json>, parse: Parser): (r: Json)
    ensures raw.None? || !Truthy(raw.value) ==> r == JNull
    ensures raw.Some? && Truthy(raw.value) && !raw.value.JStr? ==> r == raw.value
    ensures raw.Some? && Truthy(raw.value) && raw.value.JStr? ==>
              r == (if parse(raw.value.s).Some? then parse(raw.value.s).value else JNull)
  {
    if raw.None? || !Truthy(raw.value) then JNull
    else if raw.value.JStr? then
      match parse(raw.value.s)
      case None => JNull
      case Some(v) => v
    else raw.value
  }

  /** `v.key` read as a truthy value, or None. */
  function TruthyMember(v: Json, key: string): Option<Json> {
    var m := Member(v, key);
    if m.Some? && Truthy(m.value) then m else None
  }

  /** formatLocation: the city and the country, whichever are present, in
      that order and separated by ", "; None (null) when neither is. */
  method FormatLocation(full: Option<Row>, parse: Parser) returns (r: Option<string>)
    ensures var loc := ParseJson(FieldOf(full, "metadata_location"), parse);
            var city := TruthyMember(loc, "city");
            var country := TruthyMember(loc, "country");
            && (r.None? <==> city.None? && country.None?)
            && (city.Some? && country.Some? ==> r == Some(JsString(city.value) + ", " + JsString(country.value)))
            && (city.Some? && country.None? ==> r == Some(JsString(city.value)))
            && (city.None? && country.Some? ==> r == Some(JsString(country.value)))
  {
    var location := ParseJson(FieldOf(full, "metadata_location"), parse);
    if !Truthy(location) {
      return None;
    }
    var parts: seq<string> := [];
    var city := Member(location, "city");
    if city.Some? && Truthy(city.value) {
      parts := parts + [JsString(city.value)];
    }
    var country := Member(location, "country");
    if country.Some? && Truthy(country.value) {
      parts := parts + [JsString(country.value)];
    }
    if |parts| > 0 {
      if |parts| == 2 {
        assert parts[1..] == [parts[1]];
        assert Join(parts, ", ") == parts[0] + ", " + parts[1];
      }
      r := Some(Join(parts, ", "));
    } else {
      r := None;
    }
  }

  /** The elements of the parsed field when it is an array, else None. */
  function ArrayField(full: Option<Row>, column: string, parse: Parser): (r: Option<seq<Json>>)
    ensures var v := ParseJson(FieldOf(full, column), parse);
            r.Some? <==> v.JArr?
    ensures r.Some? ==> r.value == ParseJson(FieldOf(full, column), parse).items
  {
    var v := ParseJson(FieldOf(full, column), parse);
    if Truthy(v) && v.JArr? then Some(v.items) else None
  }

  predicate HasNull(items: seq<Json>) {
    exists i :: 0 <= i < |items| && items[i].JNull?
  }

  /** One question and answer, with its position in the list as id. */
  datatype QA = QA(question: Json, answer: Json, id: nat)

  /** `item.p?.key`: undefined when item.p is undefined or null. */
  function Path(item: Json, p: string, key: string): Option<Json> {
    match Member(item, p)
    case None => None
    case Some(v) => Member(v, key)
  }

  /** The question: its body when truthy, else a fixed text. */
  function QuestionOf(item: Json): (r: Json)
    ensures var body := Path(item, "question", "body");
            && (body.Some? && Truthy(body.value) ==> r == body.value)
            && (body.None? || !Truthy(body.value) ==> r == JStr("Question not available"))
  {
    OrElse(Path(item, "question", "body"), JStr("Question not available"))
  }

  /** The answer: its body, else its number, else "Yes"/"No" from checked;
      the last fallback "No answer provided" is written but never used. */
  function AnswerOf(item: Json): (r: Json)
    ensures var body := Path(item, "answer", "body");
            var number := Path(item, "answer", "number");
            var checked := Path(item, "answer", "checked");
            && (body.Some? && Truthy(body.value) ==> r == body.value)
            && ((body.None? || !Truthy(body.value)) && number.Some? && Truthy(number.value) ==> r == number.value)
            && ((body.None? || !Truthy(body.value)) && (number.None? || !Truthy(number.value)) ==>
                  r == JStr(if checked.Some? && Truthy(checked.value) then "Yes" else "No"))
  {
    var yesNo := JStr(if Path(item, "answer", "checked").Some? && Truthy(Path(item, "answer", "checked").value)
                      then "Yes" else "No");
    OrElse(Path(item, "answer", "body"),
      OrElse(Path(item, "answer", "number"),
        OrElse(Some(yesNo), JStr("No answer provided"))))
  }

  /** formatAnswers. */
  function FormatAnswers(full: Option<Row>, parse: Parser): (r: Outcome<seq<QA>>)
    ensures ArrayField(full, "metadata_answers", parse).None? ==> r == Done([])
    ensures r.TypeError? <==> ArrayField(full, "metadata_answers", parse).Some? &&
                               HasNull(ArrayField(full, "metadata_answers", parse).value)
  {
    match ArrayField(full, "metadata_answers", parse)
    case None => Done([])
    case Some(items) =>
      if HasNull(items) then TypeError
      else Done(seq(|items|, i requires 0 <= i < |items| => QA(QuestionOf(items[i]), AnswerOf(items[i]), i)))
  }

  /** The answers keep the input's length and order, entry i is the
      question and answer of item i with id i, and an answer without a truthy body or number reads "Yes" or "No" by its
      checked flag, never "No answer provided". */
  lemma AnswersMeaning(full: Option<Row>, parse: Parser)
    requires ArrayField(full, "metadata_answers", parse).Some?
    requires !HasNull(ArrayField(full, "metadata_answers", parse).value)
    ensures var items := ArrayField(full, "metadata_answers", parse).value;
            var r := FormatAnswers(full, parse);
            && r.Done? && |r.value| == |items|
            && (forall i :: 0 <= i < |items| ==> r.value[i] == QA(QuestionOf(items[i]), AnswerOf(items[i]), i))
            && (forall i :: 0 <= i < |items| ==> r.value[i].id == i)
            && (forall i :: 0 <= i < |items| ==>
                  var body := Path(items[i], "answer", "body");
                  var number := Path(items[i], "answer", "number");
                  var checked := Path(items[i], "answer", "checked");
                  && (body.Some? && Truthy(body.value) ==> r.value[i].answer == body.value)
                  && ((body.None? || !Truthy(body.value)) && number.Some? && Truthy(number.value) ==>
                        r.value[i].answer == number.value)
                  && ((body.None? || !Truthy(body.value)) && (number.None? || !Truthy(number.value)) ==>
                        r.value[i].answer == JStr(if checked.Some? && Truthy(checked.value) then "Yes" else "No")))
  {
  }

  /** The literal "No answer provided" is never produced unless the
      candidate's own body or number holds that text. */
  lemma NoAnswerFallbackUnused(item: Json)
    requires AnswerOf(item) == JStr("No answer provided")
    ensures Path(item, "answer", "body") == Some(JStr("No answer provided"))
         || Path(item, "answer", "number") == Some(JStr("No answer provided"))
  {
  }

  /** One experience entry; an id of None stands for Math.random(). */
  datatype Experience = Experience(
    title: Json, company: Json,
    startDate: Option<Json>, endDate: Option<Json>, current: Option<Json>,
    id: Option<Json>)

  /** One entry with its title and company defaulted; the dates and the
      current flag are passed through, the id only when truthy. */
  function ExperienceOf(item: Json): (r: Experience)
    ensures var t := Member(item, "title");
            var c := Member(item, "company");
            && r.title == (if t.Some? && Truthy(t.value) then t.value else JStr("Position not specified"))
            && r.company == (if c.Some? && Truthy(c.value) then c.value else JStr("Company not specified"))
    ensures r.startDate == Member(item, "start_date") && r.endDate == Member(item, "end_date")
    ensures r.current == Member(item, "current")
    ensures r.id.Some? ==> Member(item, "id") == r.id && Truthy(r.id.value)
    ensures Member(item, "id").Some? && Truthy(Member(item, "id").value) ==> r.id == Member(item, "id")
  {
    Experience(
      OrElse(Member(item, "title"), JStr("Position not specified")),
      OrElse(Member(item, "company"), JStr("Company not specified")),
      Member(item, "start_date"), Member(item, "end_date"), Member(item, "current"),
      TruthyMember(item, "id"))
  }

  /** formatExperience. */
  function FormatExperience(full: Option<Row>, parse: Parser): (r: Outcome<seq<Experience>>)
    ensures ArrayField(full, "metadata_experience_entries", parse).None? ==> r == Done([])
    ensures r.TypeError? <==> ArrayField(full, "metadata_experience_entries", parse).Some? &&
                               HasNull(ArrayField(full, "metadata_experience_entries", parse).value)
  {
    match ArrayField(full, "metadata_experience_entries", parse)
    case None => Done([])
    case Some(items) =>
      if HasNull(items) then TypeError
      else Done(seq(|items|, i requires 0 <= i < |items| => ExperienceOf(items[i])))
  }

  /** Experience keeps length and order, entry i being ExperienceOf item i;
      a falsy title or company becomes
      the fixed default text and a truthy one is kept. */
  lemma ExperienceMeaning(full: Option<Row>, parse: Parser)
    requires ArrayField(full, "metadata_experience_entries", parse).Some?
    requires !HasNull(ArrayField(full, "metadata_experience_entries", parse).value)
    ensures var items := ArrayField(full, "metadata_experience_entries", parse).value;
            var r := FormatExperience(full, parse);
            && r.Done? && |r.value| == |items|
            && (forall i :: 0 <= i < |items| ==> r.value[i] == ExperienceOf(items[i]))
            && (forall i :: 0 <= i < |items| ==>
                  var t := Member(items[i], "title");
                  var c := Member(items[i], "company");
                  && r.value[i].title == (if t.Some? && Truthy(t.value) then t.value else JStr("Position not specified"))
                  && r.value[i].company == (if c.Some? && Truthy(c.value) then c.value else JStr("Company not specified"))
                  && r.value[i].startDate == Member(items[i], "start_date"))
  {
  }

  /** One education entry; an id of None stands for Math.random(). */
  datatype Education = Education(
    degree: Json, school: Json,
    fieldOfStudy: Option<Json>, startDate: Option<Json>, endDate: Option<Json>,
    id: Option<Json>)

  /** One entry with its degree and school defaulted; the field of study
      and the dates are passed through, the id only when truthy. */
  function EducationOf(item: Json): (r: Education)
    ensures var d := Member(item, "degree");
            var s := Member(item, "school");
            && r.degree == (if d.Some? && Truthy(d.value) then d.value else JStr("Degree not specified"))
            && r.school == (if s.Some? && Truthy(s.value) then s.value else JStr("Institution not specified"))
    ensures r.fieldOfStudy == Member(item, "field_of_study")
    ensures r.startDate == Member(item, "start_date") && r.endDate == Member(item, "end_date")
    ensures r.id.Some? ==> Member(item, "id") == r.id && Truthy(r.id.value)
    ensures Member(item, "id").Some? && Truthy(Member(item, "id").value) ==> r.id == Member(item, "id")
  {
    Education(
      OrElse(Member(item, "degree"), JStr("Degree not specified")),
      OrElse(Member(item, "school"), JStr("Institution not specified")),
      Member(item, "field_of_study"), Member(item, "start_date"), Member(item, "end_date"),
      TruthyMember(item, "id"))
  }

  /** formatEducation. */
  function FormatEducation(full: Option<Row>, parse: Parser): (r: Outcome<seq<Education>>)
    ensures ArrayField(full, "metadata_education_entries", parse).None? ==> r == Done([])
    ensures r.TypeError? <==> ArrayField(full, "metadata_education_entries", parse).Some? &&
                               HasNull(ArrayField(full, "metadata_education_entries", parse).value)
  {
    match ArrayField(full, "metadata_education_entries", parse)
    case None => Done([])
    case Some(items) =>
      if HasNull(items) then TypeError
      else Done(seq(|items|, i requires 0 <= i < |items| => EducationOf(items[i])))
  }

  /** Education keeps length and order, entry i being EducationOf item i;
      a falsy degree or school becomes
      the fixed default text and a truthy one is kept. */
  lemma EducationMeaning(full: Option<Row>, parse: Parser)
    requires ArrayField(full, "metadata_education_entries", parse).Some?
    requires !HasNull(ArrayField(full, "metadata_education_entries", parse).value)
    ensures var items := ArrayField(full, "metadata_education_entries", parse).value;
            var r := FormatEducation(full, parse);
            && r.Done? && |r.value| == |items|
            && (forall i :: 0 <= i < |items| ==> r.value[i] == EducationOf(items[i]))
            && (forall i :: 0 <= i < |items| ==>
                  var d := Member(items[i], "degree");
                  var s := Member(items[i], "school");
                  && r.value[i].degree == (if d.Some? && Truthy(d.value) then d.value else JStr("Degree not specified"))
                  && r.value[i].school == (if s.Some? && Truthy(s.value) then s.value else JStr("Institution not specified"))
                  && r.value[i].fieldOfStudy == Member(items[i], "field_of_study"))
  {
  }

  // ---------------------------------------------------------------------
  // Score badges

  const Green := "bg-green-100 text-green-800"
  const Yellow := "bg-yellow-100 text-yellow-800"
  const Red := "bg-red-100 text-red-800"

  /** getFitScoreColor: for red flags a low score is good, for fit a high one. */
  function GetFitScoreColor(score: real, isNegative: bool): (r: string)
    ensures isNegative ==> (r == Green <==> score <= 3.0)
    ensures isNegative ==> (r == Yellow <==> 3.0 < score <= 6.0)
    ensures isNegative ==> (r == Red <==> score > 6.0)
    ensures !isNegative ==> (r == Green <==> score >= 8.0)
    ensures !isNegative ==> (r == Yellow <==> 6.0 <= score < 8.0)
    ensures !isNegative ==> (r == Red <==> score < 6.0)
  {
    if isNegative then
      if score <= 3.0 then Green else if score <= 6.0 then Yellow else Red
    else
      if score >= 8.0 then Green else if score >= 6.0 then Yellow else Red
  }

  /** How good a badge colour is: green over yellow over red. */
  function Rank(colour: string): int {
    if colour == Green then 2 else if colour == Yellow then 1 else 0
  }

  /** A higher fit score never gets a worse colour, a higher red-flag score
      never a better one. */
  lemma ColourMonotone(a: real, b: real)
    requires a <= b
    ensures Rank(GetFitScoreColor(a, false)) <= Rank(GetFitScoreColor(b, false))
    ensures Rank(GetFitScoreColor(a, true)) >= Rank(GetFitScoreColor(b, true))
  {
  }

  /** Number(x) || 0. Number(undefined) is NaN, Number(null) and
      Number(false) are 0 and Number(true) is 1; numbers and strings go
      through toNumber, a conversion outside the model that yields None for
      NaN. Both NaN and 0 end as 0. */
  function BadgeScore(v: Option<Json>, toNumber: Json -> Option<real>): (r: real)
    ensures v.None? || v == Some(JNull) ==> r == 0.0
    ensures v.Some? && v.value.JBool? ==> r == if v.value.b then 1.0 else 0.0
    ensures v.Some? && !v.value.JNull? && !v.value.JBool? && toNumber(v.value).None? ==> r == 0.0
    ensures v.Some? && !v.value.JNull? && !v.value.JBool? && toNumber(v.value).Some? ==>
              r == toNumber(v.value).value
  {
    match v
    case None => 0.0
    case Some(x) =>
      if x.JNull? then 0.0
      else if x.JBool? then (if x.b then 1.0 else 0.0)
      else
        match toNumber(x)
        case None => 0.0
        case Some(n) => n
  }

  /** The badge colours of the dialog header. */
  function FitBadge(full: Option<Row>, candidate: Row, toNumber: Json -> Option<real>): (r: string)
    ensures var s := BadgeScore(Lookup(DisplayRecord(full, candidate), "fit_score_positive"), toNumber);
            && (r == Green <==> s >= 8.0)
            && (r == Yellow <==> 6.0 <= s < 8.0)
            && (r == Red <==> s < 6.0)
  {
    GetFitScoreColor(BadgeScore(Lookup(DisplayRecord(full, candidate), "fit_score_positive"), toNumber), false)
  }

  function RedFlagBadge(full: Option<Row>, candidate: Row, toNumber: Json -> Option<real>): (r: string)
    ensures var s := BadgeScore(Lookup(DisplayRecord(full, candidate), "fit_score_negative"), toNumber);
            && (r == Green <==> s <= 3.0)
            && (r == Yellow <==> 3.0 < s <= 6.0)
            && (r == Red <==> s > 6.0)
  {
    GetFitScoreColor(BadgeScore(Lookup(DisplayRecord(full, candidate), "fit_score_negative"), toNumber), true)
  }

  /** A missing or NULL score counts as 0: red for fit, green for red
      flags. */
  lemma MissingScoreColours(full: Option<Row>, candidate: Row, toNumber: Json -> Option<real>)
    requires var v := Lookup(DisplayRecord(full, candidate), "fit_score_positive"); v.None? || v.value.JNull?
    requires var v := Lookup(DisplayRecord(full, candidate), "fit_score_negative"); v.None? || v.value.JNull?
    ensures FitBadge(full, candidate, toNumber) == Red
    ensures RedFlagBadge(full, candidate, toNumber) == Green
  {
  }
}
