/**
 * The data model of the evaluation app (evaluations/models.py): schools, departments,
 * academic groups, professors, their group assignments, the two question catalogues
 * (professor evaluation and internship evaluation), surveys and answers.
 *
 * The relational database is replaced by a value `Store` of tables (sequences of rows,
 * each in the model's default ordering) and one id counter for new rows.  The per-survey
 * average rating, which drops the "Not Applicable" sentinel 6, is defined here.
 */
module Models {
  import opened Wrappers

  /** Answer.RATING_CHOICES: 1 (strongly agree, best) .. 5 (strongly disagree, worst). */
  const MinRating: int := 1
  /** The "Not Applicable" rating, excluded from every average. */
  const NotApplicable: int := 6

  /** `question_type`: 'rating' or anything else, which every caller treats as text. */
  datatype QuestionType = Rating | Text

  /** A Question or an InternshipQuestion: both have the same columns. */
  datatype Question = Question(
    id: nat,
    textEn: string,
    textUz: string,
    textRu: string,
    kind: QuestionType,
    order: int,
    isActive: bool)

  datatype School = School(id: nat, name: string, code: string)

  datatype Department = Department(id: nat, school: nat, name: string, code: string)

  datatype Group = Group(
    id: nat,
    name: string,
    department: nat,
    semester: int,
    totalStudents: int,
    participatedStudents: int)

  datatype Professor = Professor(id: nat, fullName: string, school: nat)

  /** A GroupProfessor row: professor `professor` teaches group `group`. */
  datatype Assignment = Assignment(group: nat, professor: nat)

  /** One student's evaluation of one professor. */
  datatype Survey = Survey(id: nat, group: nat, professor: nat)

  /** One student's internship evaluation (per group, not per professor). */
  datatype InternshipSurvey = InternshipSurvey(id: nat, group: nat)

  /** An Answer or an InternshipAnswer: `survey` is the (internship) survey it belongs to. */
  datatype Answer = Answer(survey: nat, question: nat, rating: Option<int>, text: Option<string>)

  /** The database: one table per model, and the next free primary key. */
  datatype Store = Store(
    schools: seq<School>,
    departments: seq<Department>,
    groups: seq<Group>,
    professors: seq<Professor>,
    assignments: seq<Assignment>,
    questions: seq<Question>,
    surveys: seq<Survey>,
    answers: seq<Answer>,
    internshipQuestions: seq<Question>,
    internshipSurveys: seq<InternshipSurvey>,
    internshipAnswers: seq<Answer>,
    nextId: nat)

  // ---------------------------------------------------------------------------
  // Question text
  // ---------------------------------------------------------------------------

  /** Question.get_text / InternshipQuestion.get_text: English is the fallback for every code but 'uz' and 'ru'. */
  function GetText(q: Question, language: string): (text: string)
    ensures text in {q.textEn, q.textUz, q.textRu}
    ensures language == "uz" ==> text == q.textUz
    ensures language == "ru" ==> text == q.textRu
    ensures language != "uz" && language != "ru" ==> text == q.textEn
  {
    if language == "uz" then q.textUz
    else if language == "ru" then q.textRu
    else q.textEn
  }

  // ---------------------------------------------------------------------------
  // Field validators and uniqueness constraints
  // ---------------------------------------------------------------------------

  /** The validators of Group: semester in 1..8, both counters non-negative. */
  predicate GroupFieldsValid(g: Group)
  {
    1 <= g.semester <= 8 && g.totalStudents >= 0 && g.participatedStudents >= 0
  }

  /** The validator of `rating_value`: when present it lies in 1..6. */
  predicate RatingInRange(a: Answer)
  {
    a.rating.Some? ==> MinRating <= a.rating.value <= NotApplicable
  }

  /** unique_together (survey, question) of Answer and InternshipAnswer. */
  predicate AnswersUnique(answers: seq<Answer>)
  {
    forall i, j :: 0 <= i < j < |answers| ==>
      answers[i].survey != answers[j].survey || answers[i].question != answers[j].question
  }

  /** unique_together (group, professor) of GroupProfessor. */
  predicate AssignmentsUnique(rows: seq<Assignment>)
  {
    forall i, j :: 0 <= i < j < |rows| ==> rows[i] != rows[j]
  }

  /** Primary keys of a question table are distinct. */
  predicate QuestionIdsDistinct(qs: seq<Question>)
  {
    forall i, j :: 0 <= i < j < |qs| ==> qs[i].id != qs[j].id
  }

  /** The constraints the models declare, plus: every survey id was allocated from `nextId`. */
  predicate Valid(st: Store)
  {
    && (forall g :: g in st.groups ==> GroupFieldsValid(g))
    && QuestionIdsDistinct(st.questions)
    && QuestionIdsDistinct(st.internshipQuestions)
    && AssignmentsUnique(st.assignments)
    && AnswersUnique(st.answers)
    && AnswersUnique(st.internshipAnswers)
    && (forall a :: a in st.answers ==> RatingInRange(a) && a.survey < st.nextId)
    && (forall a :: a in st.internshipAnswers ==> RatingInRange(a) && a.survey < st.nextId)
    && (forall s :: s in st.surveys ==> s.id < st.nextId)
    && (forall s :: s in st.internshipSurveys ==> s.id < st.nextId)
  }

  // ---------------------------------------------------------------------------
  // Lookups
  // ---------------------------------------------------------------------------

  /** The type of the question with primary key `id`, if there is one. */
  function QuestionKind(questions: seq<Question>, id: nat): (kind: Option<QuestionType>)
    ensures kind.Some? <==> exists i :: 0 <= i < |questions| && questions[i].id == id
    ensures kind.Some? ==> exists i :: 0 <= i < |questions| && questions[i].id == id && questions[i].kind == kind.value
  {
    if questions == [] then None
    else if questions[0].id == id then Some(questions[0].kind)
    else
      var rest := QuestionKind(questions[1..], id);
      assert forall i :: 0 <= i < |questions| - 1 ==> questions[1..][i] == questions[i + 1];
      rest
  }

  /** The answers of one survey: `survey.answers`. */
  function AnswersOf(answers: seq<Answer>, survey: nat): (r: seq<Answer>)
    ensures forall a :: a in r ==> a in answers && a.survey == survey
    ensures forall a :: a in answers && a.survey == survey ==> a in r
  {
    if answers == [] then []
    else (if answers[0].survey == survey then [answers[0]] else []) + AnswersOf(answers[1..], survey)
  }

  // ---------------------------------------------------------------------------
  // Per-survey average rating
  // ---------------------------------------------------------------------------

  /** An answer counts towards an average: a rating-type question, a rating present, not Not Applicable. */
  predicate Eligible(a: Answer, questions: seq<Question>)
  {
    QuestionKind(questions, a.question) == Some(Rating) && a.rating.Some? && a.rating.value != NotApplicable
  }

  /** The ratings of the eligible answers, in table order. */
  function EligibleRatings(answers: seq<Answer>, questions: seq<Question>): (rs: seq<int>)
    ensures |rs| <= |answers|
  {
    if answers == [] then []
    else (if Eligible(answers[0], questions) then [answers[0].rating.value] else [])
         + EligibleRatings(answers[1..], questions)
  }

  /** The averaged ratings are exactly the ratings of the eligible answers. */
  lemma {:induction false} EligibleRatingsMembers(answers: seq<Answer>, questions: seq<Question>)
    ensures forall r :: r in EligibleRatings(answers, questions) <==>
      exists a :: a in answers && Eligible(a, questions) && a.rating == Some(r)
  {
    if answers != [] {
      var a := answers[0];
      var rest := answers[1..];
      EligibleRatingsMembers(rest, questions);
      assert forall b :: b in answers <==> b == a || b in rest by {
        assert answers == [a] + rest;
      }
    }
  }

  function Sum(xs: seq<int>): int
  {
    if xs == [] then 0 else xs[0] + Sum(xs[1..])
  }

  /** The exact mean, 0 for an empty sequence. */
  function Mean(xs: seq<int>): (m: real)
    ensures |xs| == 0 ==> m == 0.0
    ensures |xs| > 0 ==> m * (|xs| as real) == Sum(xs) as real
  {
    if |xs| == 0 then 0.0 else Sum(xs) as real / |xs| as real
  }

  /**
   * Survey.get_average_rating and InternshipSurvey.get_average_rating over one survey's
   * answers: the mean of the eligible ratings, or 0 when none is left.
   */
  function RatingAverage(answers: seq<Answer>, questions: seq<Question>): (avg: real)
    ensures EligibleRatings(answers, questions) == [] ==> avg == 0.0
    ensures EligibleRatings(answers, questions) != [] ==>
      avg * (|EligibleRatings(answers, questions)| as real) == Sum(EligibleRatings(answers, questions)) as real
  {
    Mean(EligibleRatings(answers, questions))
  }

  /** The average rating of survey `id`. */
  function SurveyAverage(st: Store, id: nat): real
  {
    RatingAverage(AnswersOf(st.answers, id), st.questions)
  }

  /** The average rating of internship survey `id`. */
  function InternshipAverage(st: Store, id: nat): real
  {
    RatingAverage(AnswersOf(st.internshipAnswers, id), st.internshipQuestions)
  }

  lemma {:induction false} SumBounds(xs: seq<int>, lo: int, hi: int)
    requires forall x :: x in xs ==> lo <= x <= hi
    ensures |xs| * lo <= Sum(xs) <= |xs| * hi
  {
    if xs != [] {
      forall x | x in xs[1..]
        ensures lo <= x <= hi
      {
        assert x in xs;
      }
      SumBounds(xs[1..], lo, hi);
      var n := |xs[1..]|;
      assert Sum(xs) == xs[0] + Sum(xs[1..]);
      assert n * lo <= Sum(xs[1..]) <= n * hi;
      assert xs[0] in xs;
      assert |xs| * lo == n * lo + lo by { assert |xs| == n + 1; }
      assert |xs| * hi == n * hi + hi by { assert |xs| == n + 1; }
    }
  }

  /** A mean of values in [lo, hi] lies in [lo, hi]. */
  lemma MeanBounds(xs: seq<int>, lo: int, hi: int)
    requires |xs| > 0
    requires forall x :: x in xs ==> lo <= x <= hi
    ensures lo as real <= Mean(xs) <= hi as real
  {
    SumBounds(xs, lo, hi);
    var n := |xs| as real;
    var m := Mean(xs);
    assert m * n == Sum(xs) as real;
    assert (lo as real) * n <= m * n <= (hi as real) * n;
  }

  lemma {:induction false} EligibleRatingsInRange(answers: seq<Answer>, questions: seq<Question>)
    requires forall a :: a in answers ==> RatingInRange(a)
    ensures forall r :: r in EligibleRatings(answers, questions) ==> MinRating <= r < NotApplicable
  {
    if answers != [] {
      assert forall a :: a in answers[1..] ==> a in answers;
      assert answers[0] in answers;
      EligibleRatingsInRange(answers[1..], questions);
    }
  }

  /**
   * With ratings limited to 1..6 and 6 excluded, an average is 0 exactly when no eligible
   * rating remains, and otherwise lies in [1, 5].
   */
  lemma RatingAverageRange(answers: seq<Answer>, questions: seq<Question>)
    requires forall a :: a in answers ==> RatingInRange(a)
    ensures RatingAverage(answers, questions) == 0.0 <==> EligibleRatings(answers, questions) == []
    ensures EligibleRatings(answers, questions) != [] ==> 1.0 <= RatingAverage(answers, questions) <= 5.0
  {
    var rs := EligibleRatings(answers, questions);
    if rs != [] {
      EligibleRatingsInRange(answers, questions);
      MeanBounds(rs, 1, 5);
    }
  }

  lemma {:induction false} EligibleRatingsAppend(a: seq<Answer>, b: seq<Answer>, questions: seq<Question>)
    ensures EligibleRatings(a + b, questions) == EligibleRatings(a, questions) + EligibleRatings(b, questions)
  {
    if a == [] {
      assert a + b == b;
    } else {
      var head := if Eligible(a[0], questions) then [a[0].rating.value] else [];
      assert (a + b)[0] == a[0] && (a + b)[1..] == a[1..] + b;
      assert EligibleRatings(a + b, questions) == head + EligibleRatings(a[1..] + b, questions);
      assert EligibleRatings(a, questions) == head + EligibleRatings(a[1..], questions);
      EligibleRatingsAppend(a[1..], b, questions);
    }
  }

  lemma {:induction false} AnswersOfAppend(a: seq<Answer>, b: seq<Answer>, survey: nat)
    ensures AnswersOf(a + b, survey) == AnswersOf(a, survey) + AnswersOf(b, survey)
  {
    if a == [] {
      assert a + b == b;
    } else {
      assert (a + b)[1..] == a[1..] + b;
      AnswersOfAppend(a[1..], b, survey);
    }
  }

  /**
   * Adding an answer that is not eligible (a text-type question, no rating, or the rating 6)
   * to any survey leaves every survey's average as it was.
   */
  lemma RatingAverageIgnoresIneligible(answers: seq<Answer>, questions: seq<Question>, a: Answer, survey: nat)
    requires !Eligible(a, questions)
    ensures RatingAverage(AnswersOf(answers + [a], survey), questions)
         == RatingAverage(AnswersOf(answers, survey), questions)
  {
    var head := AnswersOf(answers, survey);
    var tail := AnswersOf([a], survey);
    AnswersOfAppend(answers, [a], survey);
    assert [a][1..] == [];
    assert tail == if a.survey == survey then [a] else [];
    EligibleRatingsAppend(head, tail, questions);
    assert EligibleRatings(tail, questions) == [] by {
      if tail == [a] {
        assert tail[1..] == [];
      }
    }
    assert EligibleRatings(head + tail, questions) == EligibleRatings(head, questions);
  }

  /** Survey.get_average_rating ignores text answers and Not Applicable ratings. */
  lemma SurveyAverageIgnoresIneligible(st: Store, a: Answer, id: nat)
    requires !Eligible(a, st.questions)
    ensures SurveyAverage(st.(answers := st.answers + [a]), id) == SurveyAverage(st, id)
  {
    RatingAverageIgnoresIneligible(st.answers, st.questions, a, id);
  }

  /** InternshipSurvey.get_average_rating ignores null ratings, Not Applicable ratings and text answers. */
  lemma InternshipAverageIgnoresIneligible(st: Store, a: Answer, id: nat)
    requires a.rating.None? || a.rating == Some(NotApplicable)
             || QuestionKind(st.internshipQuestions, a.question) != Some(Rating)
    ensures InternshipAverage(st.(internshipAnswers := st.internshipAnswers + [a]), id) == InternshipAverage(st, id)
  {
    RatingAverageIgnoresIneligible(st.internshipAnswers, st.internshipQuestions, a, id);
  }

  /** Both survey averages lie in [1, 5], or are 0 exactly when the survey has no eligible rating. */
  lemma SurveyAverageRange(st: Store, id: nat)
    requires Valid(st)
    ensures SurveyAverage(st, id) == 0.0 <==> EligibleRatings(AnswersOf(st.answers, id), st.questions) == []
    ensures SurveyAverage(st, id) != 0.0 ==> 1.0 <= SurveyAverage(st, id) <= 5.0
    ensures InternshipAverage(st, id) == 0.0
            <==> EligibleRatings(AnswersOf(st.internshipAnswers, id), st.internshipQuestions) == []
    ensures InternshipAverage(st, id) != 0.0 ==> 1.0 <= InternshipAverage(st, id) <= 5.0
  {
    RatingAverageRange(AnswersOf(st.answers, id), st.questions);
    RatingAverageRange(AnswersOf(st.internshipAnswers, id), st.internshipQuestions);
  }

  /** Ratings {1, 2, 6, 6} average to (1 + 2) / 2; ratings {6, 6} average to 0. */
  lemma RatingAverageExamples()
    ensures var q := [Question(1, "", "", "", Rating, 0, true)];
            RatingAverage([Answer(7, 1, Some(1), None), Answer(8, 1, Some(2), None), Answer(9, 1, Some(6), None)], q) == 1.5
            && RatingAverage([Answer(9, 1, Some(6), None)], q) == 0.0
  {
    var q := [Question(1, "", "", "", Rating, 0, true)];
    var all := [Answer(7, 1, Some(1), None), Answer(8, 1, Some(2), None), Answer(9, 1, Some(6), None)];
    assert QuestionKind(q, 1) == Some(Rating);
    assert EligibleRatings(all[2..], q) == [];
    assert EligibleRatings(all, q) == [1, 2];
  }

  // ---------------------------------------------------------------------------
  // Survey.get_average_rating as written
  // ---------------------------------------------------------------------------

  /**
   * `self.answers.filter(question__question_type='rating').exclude(rating_value=6)`: the
   * exclusion drops only the 6s, so answers with a null rating stay in the selection.
   */
  function AsWrittenSelected(answers: seq<Answer>, questions: seq<Question>): (sel: seq<Answer>)
    ensures forall a :: a in sel <==>
      a in answers && QuestionKind(questions, a.question) == Some(Rating) && a.rating != Some(NotApplicable)
  {
    if answers == [] then []
    else
      var a := answers[0];
      (if QuestionKind(questions, a.question) == Some(Rating) && a.rating != Some(NotApplicable) then [a] else [])
      + AsWrittenSelected(answers[1..], questions)
  }

  /** `sum(answer.rating_value for answer in ...)`; None stands for the TypeError of adding a None. */
  function SumAsWritten(sel: seq<Answer>): Option<int>
  {
    if sel == [] then Some(0)
    else match sel[0].rating
      case None => None
      case Some(v) =>
        match SumAsWritten(sel[1..])
        case None => None
        case Some(rest) => Some(v + rest)
  }

  /**
   * Survey.get_average_rating exactly as written: 0 for an empty selection, otherwise the
   * sum over the selection divided by its count, where the sum raises (None) on a null
   * rating.  InternshipSurvey's version also filters nulls; `RatingAverage` is the
   * corrected definition and the one the rest of the model uses.
   */
  function SurveyAverageAsWritten(answers: seq<Answer>, questions: seq<Question>): (r: Option<real>)
    ensures r.None? <==> exists a :: a in answers && QuestionKind(questions, a.question) == Some(Rating) && a.rating.None?
    ensures r.Some? ==> r.value == RatingAverage(answers, questions)
  {
    var sel := AsWrittenSelected(answers, questions);
    AsWrittenSumRaises(answers, questions);
    AsWrittenSumValue(answers, questions);
    if sel == [] then Some(0.0)
    else match SumAsWritten(sel)
      case None => None
      case Some(total) => Some(total as real / |sel| as real)
  }

  /** The as-written sum raises exactly when a rating-type answer has a null rating. */
  lemma {:induction false} AsWrittenSumRaises(answers: seq<Answer>, questions: seq<Question>)
    ensures SumAsWritten(AsWrittenSelected(answers, questions)).None? <==>
      exists a :: a in answers && QuestionKind(questions, a.question) == Some(Rating) && a.rating.None?
  {
    if answers != [] {
      var a := answers[0];
      var rest := answers[1..];
      AsWrittenSumRaises(rest, questions);
      var selRest := AsWrittenSelected(rest, questions);
      var sel := AsWrittenSelected(answers, questions);
      if QuestionKind(questions, a.question) == Some(Rating) && a.rating != Some(NotApplicable) {
        assert sel == [a] + selRest;
        assert sel[0] == a && sel[1..] == selRest;
      } else {
        assert sel == selRest;
      }
      if b :| b in rest && QuestionKind(questions, b.question) == Some(Rating) && b.rating.None? {
        assert b in answers;
      }
      if b :| b in answers && QuestionKind(questions, b.question) == Some(Rating) && b.rating.None? {
        if b != a {
          assert b in rest;
        }
      }
    }
  }

  /** When it does not raise, the as-written sum adds up the eligible ratings, as many as selected. */
  lemma {:induction false} AsWrittenSumValue(answers: seq<Answer>, questions: seq<Question>)
    ensures SumAsWritten(AsWrittenSelected(answers, questions)).Some? ==>
      && SumAsWritten(AsWrittenSelected(answers, questions)).value == Sum(EligibleRatings(answers, questions))
      && |AsWrittenSelected(answers, questions)| == |EligibleRatings(answers, questions)|
  {
    if answers != [] && SumAsWritten(AsWrittenSelected(answers, questions)).Some? {
      var a := answers[0];
      var rest := answers[1..];
      var selRest := AsWrittenSelected(rest, questions);
      var sel := AsWrittenSelected(answers, questions);
      var eligibleRest := EligibleRatings(rest, questions);
      if QuestionKind(questions, a.question) == Some(Rating) && a.rating != Some(NotApplicable) {
        assert sel == [a] + selRest;
        assert sel[0] == a && sel[1..] == selRest;
        AsWrittenSumValue(rest, questions);
        assert Eligible(a, questions);
        assert EligibleRatings(answers, questions) == [a.rating.value] + eligibleRest;
        assert ([a.rating.value] + eligibleRest)[1..] == eligibleRest;
      } else {
        assert sel == selRest;
        AsWrittenSumValue(rest, questions);
        assert !Eligible(a, questions);
        assert EligibleRatings(answers, questions) == eligibleRest;
      }
    }
  }

  /** Without null ratings on rating-type questions, filtering only the 6s selects the eligible answers. */
  lemma {:induction false} EligibleWhenNoNulls(answers: seq<Answer>, questions: seq<Question>)
    requires forall a :: a in answers && QuestionKind(questions, a.question) == Some(Rating) ==> a.rating.Some?
    ensures forall a :: a in answers ==>
      (Eligible(a, questions) <==> QuestionKind(questions, a.question) == Some(Rating) && a.rating != Some(NotApplicable))
  {
  }

  /**
   * A question that already has a text answer and is then switched to 'rating' (question_edit
   * allows it): the as-written selection keeps that answer, its null rating makes the sum
   * raise, while the corrected average is 0.
   */
  lemma AsWrittenRaisesOnNullRating()
    ensures var qs := [Question(1, "Comment", "", "", Rating, 0, true)];
            var answers := [Answer(5, 1, None, Some("Great lecturer"))];
            && AsWrittenSelected(answers, qs) == answers
            && SumAsWritten(answers) == None
            && SurveyAverageAsWritten(answers, qs) == None
            && RatingAverage(answers, qs) == 0.0
  {
    var qs := [Question(1, "Comment", "", "", Rating, 0, true)];
    var answers := [Answer(5, 1, None, Some("Great lecturer"))];
    assert QuestionKind(qs, 1) == Some(Rating);
    assert AsWrittenSelected(answers, qs) == answers;
    assert SumAsWritten(answers) == None;
  }
}
