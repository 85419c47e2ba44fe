/**
 * The list-display helpers of the Django admin (evaluations/admin.py): the coloured
 * participation rate of a group, the coloured average rating of a professor and of a
 * survey, the truncated question previews and the shown value of an answer.  The HTML
 * they produce is reduced to the colour and the number it carries.
 */
module Admin {
  import opened Wrappers
  import opened Models
  import opened Aggregation
  import Forms
  import AdminViews

  datatype Colour = Green | Orange | Red

  /** Green is the best mark, red the worst. */
  function Rank(c: Colour): nat
  {
    match c
    case Green => 0
    case Orange => 1
    case Red => 2
  }

  // ---------------------------------------------------------------------------
  // GroupAdmin.participation_rate
  // ---------------------------------------------------------------------------

  /** Green from 70 %, orange from 50 %, red below. */
  function RateColour(rate: real): Colour
  {
    if rate >= 70.0 then Green else if rate >= 50.0 then Orange else Red
  }

  /** '0%' for a group without students, else the rate with its colour. */
  datatype RateDisplay = ZeroPercent | ColouredRate(colour: Colour, rate: real)

  /**
   * The admin column shows '0%' exactly for a group without students; otherwise it shows
   * the same rate as the participation pages, green from 70 %, orange from 50 %, red below.
   */
  function ParticipationRate(g: Group): (d: RateDisplay)
    ensures d.ZeroPercent? <==> g.totalStudents <= 0
    ensures d.ColouredRate? ==>
      && d.rate == AdminViews.GroupRate(g)
      && (g.participatedStudents >= 0 ==> d.rate >= 0.0)
      && (d.colour == Green <==> d.rate >= 70.0)
      && (d.colour == Red <==> d.rate < 50.0)
  {
    if g.totalStudents > 0 then
      var rate := (g.participatedStudents as real / g.totalStudents as real) * 100.0;
      AdminViews.RateBounds(if g.participatedStudents >= 0 then g.participatedStudents else 0, g.totalStudents);
      ColouredRate(RateColour(rate), rate)
    else ZeroPercent
  }

  /** A higher rate never gets a worse colour. */
  lemma RateColourMonotone(a: real, b: real)
    requires a <= b
    ensures Rank(RateColour(b)) <= Rank(RateColour(a))
  {
  }

  // ---------------------------------------------------------------------------
  // ProfessorAdmin.average_rating and SurveyAdmin.average_rating_display
  // ---------------------------------------------------------------------------

  /** Green up to 2, orange up to 3.5, red above (lower ratings are better). */
  function RatingColour(avg: real): Colour
  {
    if avg <= 2.0 then Green else if avg <= 3.5 then Orange else Red
  }

  /** A better (lower) average never gets a worse colour. */
  lemma RatingColourMonotone(a: real, b: real)
    requires a <= b
    ensures Rank(RatingColour(a)) <= Rank(RatingColour(b))
  {
  }

  /** 'N/A', or the average with its colour. */
  datatype RatingDisplay = NotAvailable | ColouredRating(colour: Colour, avg: real)

  function ShowRating(r: Option<real>): RatingDisplay
  {
    match r
    case None => NotAvailable
    case Some(avg) => ColouredRating(RatingColour(avg), avg)
  }

  /** `average_rating`: 'N/A' without surveys, else the loop over them and its mean. */
  method ProfessorAverageRating(st: Store, professor: nat) returns (d: RatingDisplay)
    ensures d == ShowRating(ProfessorRating(st, professor))
  {
    var surveys := SurveysOf(st.surveys, professor);
    if |surveys| == 0 {
      assert SurveyAverages(st, surveys) == [];
      return NotAvailable;
    }
    var total, count := AccumulatePositive(st, surveys);
    if count > 0 {
      var avg := total / count as real;
      d := ColouredRating(RatingColour(avg), avg);
    } else {
      d := NotAvailable;
    }
  }

  /**
   * A professor's column shows 'N/A' exactly when none of their surveys has a positive
   * average (in particular when they have no survey); otherwise a value in [1, 5].
   */
  lemma ProfessorAverageRatingShown(st: Store, professor: nat)
    requires Valid(st)
    ensures ShowRating(ProfessorRating(st, professor)).NotAvailable? <==>
      forall s :: s in SurveysOf(st.surveys, professor) ==> SurveyAverage(st, s.id) == 0.0
    ensures SurveysOf(st.surveys, professor) == [] ==> ShowRating(ProfessorRating(st, professor)).NotAvailable?
    ensures ShowRating(ProfessorRating(st, professor)).ColouredRating? ==>
      1.0 <= ShowRating(ProfessorRating(st, professor)).avg <= 5.0
  {
    ProfessorRatingRange(st, professor);
  }

  /**
   * `average_rating_display`: 'N/A' exactly when the survey's average is not positive,
   * otherwise that average with the colour a professor's average of the same value gets.
   */
  function AverageRatingDisplay(st: Store, id: nat): (d: RatingDisplay)
    ensures d.NotAvailable? <==> SurveyAverage(st, id) <= 0.0
    ensures d.ColouredRating? ==> d == ShowRating(Some(SurveyAverage(st, id)))
  {
    var avg := SurveyAverage(st, id);
    if avg > 0.0 then ColouredRating(RatingColour(avg), avg) else NotAvailable
  }

  /**
   * A survey's column shows 'N/A' exactly when it has no rated, applicable answer to a
   * rating question; otherwise its average, which lies in [1, 5].
   */
  lemma AverageRatingDisplayShown(st: Store, id: nat)
    requires Valid(st)
    ensures AverageRatingDisplay(st, id).NotAvailable? <==>
      EligibleRatings(AnswersOf(st.answers, id), st.questions) == []
    ensures AverageRatingDisplay(st, id).ColouredRating? ==>
      AverageRatingDisplay(st, id).avg == SurveyAverage(st, id) && 1.0 <= AverageRatingDisplay(st, id).avg <= 5.0
  {
    SurveyAverageRange(st, id);
  }

  // ---------------------------------------------------------------------------
  // Previews and the shown answer value
  // ---------------------------------------------------------------------------

  /**
   * `s[:n] + '...' if len(s) > n else s`: a short text is shown unchanged; a long one as its
   * first `n` characters and an ellipsis, so a preview is never longer than `n + 3`.
   */
  function Preview(s: string, n: nat): (p: string)
    ensures |s| <= n ==> p == s
    ensures |s| > n ==> |p| == n + 3 && p[..n] == s[..n] && p[n..] == "..."
    ensures |p| <= n + 3
  {
    if |s| > n then
      assert (s[..n] + "...")[..n] == s[..n];
      assert (s[..n] + "...")[n..] == "...";
      s[..n] + "..."
    else s
  }

  /** Previewing a preview again, with room for the ellipsis, changes nothing more. */
  lemma PreviewIdempotent(s: string, n: nat)
    requires n >= 3
    ensures Preview(Preview(s, n), n + 3) == Preview(s, n)
  {
  }

  /** QuestionAdmin.text_en_preview: the English text cut to 80 characters and '...'. */
  function TextEnPreview(q: Question): (p: string)
    ensures |p| <= 83
    ensures |q.textEn| <= 80 ==> p == q.textEn
    ensures |q.textEn| > 80 ==> |p| == 83 && p[..80] == q.textEn[..80] && p[80..] == "..."
  {
    Preview(q.textEn, 80)
  }

  /** AnswerAdmin.question_preview: the answered question's English text cut to 50 characters. */
  function QuestionPreview(qs: seq<Question>, a: Answer): (p: string)
    ensures |p| <= 53
    ensures |AdminViews.QuestionText(qs, a.question)| <= 50 ==> p == AdminViews.QuestionText(qs, a.question)
    ensures |AdminViews.QuestionText(qs, a.question)| > 50 ==>
      |p| == 53 && p[..50] == AdminViews.QuestionText(qs, a.question)[..50] && p[50..] == "..."
  {
    Preview(AdminViews.QuestionText(qs, a.question), 50)
  }

  /** `str(n)` for a natural number. */
  function NatString(n: nat): (s: string)
    ensures |s| >= 1
    decreases n
  {
    if n < 10 then [(('0' as int) + n) as char]
    else NatString(n / 10) + [(('0' as int) + n % 10) as char]
  }

  /** `str(v)` for an integer. */
  function IntString(v: int): string
  {
    if v < 0 then "-" + NatString(-v) else NatString(v)
  }

  /** An f-string of a nullable rating: 'None' for null. */
  function ShowValue(v: Option<int>): string
  {
    match v
    case None => "None"
    case Some(n) => IntString(n)
  }

  /**
   * `get_rating_value_display()`: for a stored choice 1..6 the label the survey detail page
   * gives it, for anything else the value itself.
   */
  function RatingValueDisplay(v: Option<int>): (s: string)
    ensures v.Some? && 1 <= v.value <= 6 ==> s == AdminViews.RatingLabel(v)
    ensures !(v.Some? && 1 <= v.value <= 6) ==> s == ShowValue(v)
  {
    match v
    case Some(1) => "Strongly Agree"
    case Some(2) => "Agree"
    case Some(3) => "Neither Agree nor Disagree"
    case Some(4) => "Disagree"
    case Some(5) => "Strongly Disagree"
    case Some(6) => "Not Applicable"
    case _ => ShowValue(v)
  }

  /**
   * `get_answer_value`: 'value - label' for a rating question; any other answer is shown as
   * at most the first 50 characters of its text, or ''.
   */
  function GetAnswerValue(qs: seq<Question>, a: Answer): (v: string)
    ensures QuestionKind(qs, a.question) == Some(Rating) ==> v == ShowValue(a.rating) + " - " + RatingValueDisplay(a.rating)
    ensures QuestionKind(qs, a.question) != Some(Rating) ==>
      |v| <= 50 && (a.text.Some? ==> v <= a.text.value) && (a.text.None? ==> v == "")
    ensures QuestionKind(qs, a.question) != Some(Rating) && a.text.Some? ==>
      |v| == (if |a.text.value| <= 50 then |a.text.value| else 50)
  {
    if QuestionKind(qs, a.question) == Some(Rating) then ShowValue(a.rating) + " - " + RatingValueDisplay(a.rating)
    else if a.text.Some? && a.text.value != "" then (if |a.text.value| > 50 then a.text.value[..50] else a.text.value)
    else ""
  }

  /** A stored rating 1..6 is shown as its one digit, which the evaluation form reads back. */
  lemma RatingDisplaysAgree(v: int)
    requires 1 <= v <= 6
    ensures IntString(v) == [(('0' as int) + v) as char] && Forms.RatingOf(IntString(v)) == v
  {
  }

  /**
   * A stored rating 1..6 is shown as its one digit, which the evaluation form reads back as
   * the same value, followed by ' - ' and the label the survey detail page gives it.
   */
  lemma RatingAnswerShown(qs: seq<Question>, a: Answer)
    requires QuestionKind(qs, a.question) == Some(Rating) && a.rating.Some? && 1 <= a.rating.value <= 6
    ensures GetAnswerValue(qs, a)[..1] == IntString(a.rating.value)
    ensures Forms.RatingOf(GetAnswerValue(qs, a)[..1]) == a.rating.value
    ensures GetAnswerValue(qs, a)[1..] == " - " + AdminViews.RatingLabel(a.rating)
  {
    var v := a.rating.value;
    RatingDisplaysAgree(v);
    var shown := IntString(v) + " - " + RatingValueDisplay(a.rating);
    assert GetAnswerValue(qs, a) == shown;
    assert shown[..1] == IntString(v);
    assert shown[1..] == " - " + RatingValueDisplay(a.rating);
  }
}
