/**
 * The custom administration pages (evaluations/admin_views.py): the dashboard ranking and
 * participation figures, the participation report, the per-question professors rating
 * report, the reconciliation of a professor's group assignments, the guarded deletes and
 * the survey detail page.  Pages that change data take the store and return the outcome
 * and the new store; listing pages are functions or, where the source loops, methods
 * proved equal to one.
 */
module AdminViews {
  import opened Wrappers
  import opened Models
  import opened Aggregation
  import Views

  // ---------------------------------------------------------------------------
  // Dashboard: top rated professors
  // ---------------------------------------------------------------------------

  /** One entry of `top_professors`: the professor, their rating and their survey count. */
  datatype RatedProfessor = RatedProfessor(professor: nat, rating: real, count: nat)

  function RatingKey(r: RatedProfessor): real
  {
    r.rating
  }

  /** The entry the loop appends for professor `p`, when it appends one. */
  function RowFor(st: Store, p: Professor): seq<RatedProfessor>
  {
    var surveys := SurveysOf(st.surveys, p.id);
    if surveys == [] then []
    else match ProfessorRating(st, p.id)
      case None => []
      case Some(rating) => [RatedProfessor(p.id, rating, |surveys|)]
  }

  /** The entries appended for `professors`, in their order. */
  function RatedRows(st: Store, professors: seq<Professor>): seq<RatedProfessor>
  {
    if professors == [] then []
    else RatedRows(st, professors[..|professors| - 1]) + RowFor(st, professors[|professors| - 1])
  }

  /** Professor `p` is listed with `r`: they have a rating, and `r` carries it and their survey count. */
  predicate RatedAs(st: Store, p: Professor, r: RatedProfessor)
  {
    ProfessorRating(st, p.id).Some?
    && r == RatedProfessor(p.id, ProfessorRating(st, p.id).value, |SurveysOf(st.surveys, p.id)|)
  }

  /** The dashboard loop over professors, then `sort(key=rating)` and `[:5]`. */
  method TopProfessors(st: Store, professors: seq<Professor>) returns (top: seq<RatedProfessor>)
    ensures top == Take(SortBy(RatedRows(st, professors), RatingKey), 5)
  {
    var rows: seq<RatedProfessor> := [];
    for i := 0 to |professors|
      invariant rows == RatedRows(st, professors[..i])
    {
      var p := professors[i];
      var surveys := SurveysOf(st.surveys, p.id);
      assert professors[..i + 1][..i] == professors[..i];
      if |surveys| > 0 {
        var total, count := AccumulatePositive(st, surveys);
        if count > 0 {
          rows := rows + [RatedProfessor(p.id, total / count as real, |surveys|)];
        }
      }
    }
    assert professors[..|professors|] == professors;
    top := Take(SortBy(rows, RatingKey), 5);
  }

  lemma RowForMembers(st: Store, p: Professor)
    ensures forall r :: r in RowFor(st, p) <==> RatedAs(st, p, r)
  {
    var surveys := SurveysOf(st.surveys, p.id);
    if surveys == [] {
      assert SurveyAverages(st, surveys) == [];
    }
  }

  lemma {:induction false} RatedRowsMembers(st: Store, professors: seq<Professor>)
    ensures forall r :: r in RatedRows(st, professors) <==> exists p :: p in professors && RatedAs(st, p, r)
  {
    if professors != [] {
      var init := professors[..|professors| - 1];
      var last := professors[|professors| - 1];
      RatedRowsMembers(st, init);
      RowForMembers(st, last);
      assert professors == init + [last];
      forall r | exists p :: p in professors && RatedAs(st, p, r)
        ensures r in RatedRows(st, professors)
      {
        var p :| p in professors && RatedAs(st, p, r);
        if p != last {
          assert p in init;
        }
      }
    }
  }

  /** Every listed rating lies in [1, 5]. */
  lemma RatedRowsRange(st: Store, professors: seq<Professor>)
    requires Valid(st)
    ensures forall r :: r in RatedRows(st, professors) ==> 1.0 <= r.rating <= 5.0
  {
    RatedRowsMembers(st, professors);
    forall r | r in RatedRows(st, professors)
      ensures 1.0 <= r.rating <= 5.0
    {
      var p :| p in professors && RatedAs(st, p, r);
      ProfessorRatingRange(st, p.id);
    }
  }

  /**
   * The dashboard's top professors: at most five entries, sorted ascending by rating; each
   * is a professor of the list with a rating in [1, 5], carrying that rating and their
   * survey count.
   */
  lemma TopProfessorsRanked(st: Store, professors: seq<Professor>)
    requires Valid(st)
    ensures var top := Take(SortBy(RatedRows(st, professors), RatingKey), 5);
            && |top| <= 5
            && SortedBy(top, RatingKey)
            && (forall r :: r in top ==> exists p :: p in professors && RatedAs(st, p, r))
            && (forall r :: r in top ==> 1.0 <= r.rating <= 5.0)
  {
    RatedRowsMembers(st, professors);
    RatedRowsRange(st, professors);
    TakeSortedIsLowest(RatedRows(st, professors), RatingKey, 5);
  }

  /** Professors without a positive survey average never appear among the top professors. */
  lemma TopProfessorsOmitUnrated(st: Store, professors: seq<Professor>)
    ensures var top := Take(SortBy(RatedRows(st, professors), RatingKey), 5);
            forall p, r :: p in professors && ProfessorRating(st, p.id).None? && r in top ==> r.professor != p.id
  {
    var top := Take(SortBy(RatedRows(st, professors), RatingKey), 5);
    RatedRowsMembers(st, professors);
    TakeSortedIsLowest(RatedRows(st, professors), RatingKey, 5);
    forall p, r | p in professors && ProfessorRating(st, p.id).None? && r in top
      ensures r.professor != p.id
    {
      var q :| q in professors && RatedAs(st, q, r);
    }
  }

  /** Every rated professor left out of the top list rates no better (no lower) than every one listed. */
  lemma TopProfessorsAreLowest(st: Store, professors: seq<Professor>)
    ensures var top := Take(SortBy(RatedRows(st, professors), RatingKey), 5);
            forall p, r :: p in professors && ProfessorRating(st, p.id).Some? && r in top
              && RatedProfessor(p.id, ProfessorRating(st, p.id).value, |SurveysOf(st.surveys, p.id)|) !in top
              ==> r.rating <= ProfessorRating(st, p.id).value
  {
    var rows := RatedRows(st, professors);
    var top := Take(SortBy(rows, RatingKey), 5);
    RatedRowsMembers(st, professors);
    TakeSortedIsLowest(rows, RatingKey, 5);
    forall p, r | p in professors && ProfessorRating(st, p.id).Some? && r in top
      && RatedProfessor(p.id, ProfessorRating(st, p.id).value, |SurveysOf(st.surveys, p.id)|) !in top
      ensures r.rating <= ProfessorRating(st, p.id).value
    {
      var y := RatedProfessor(p.id, ProfessorRating(st, p.id).value, |SurveysOf(st.surveys, p.id)|);
      assert RatedAs(st, p, y);
      assert y in rows;
      assert RatingKey(r) <= RatingKey(y);
    }
  }

  // ---------------------------------------------------------------------------
  // Participation rates
  // ---------------------------------------------------------------------------

  /** `participated / total * 100`, or 0 when there are no students. */
  function Rate(participated: int, total: int): real
  {
    if total > 0 then (participated as real / total as real) * 100.0 else 0.0
  }

  /** A group's participation rate. */
  function GroupRate(g: Group): real
  {
    Rate(g.participatedStudents, g.totalStudents)
  }

  function TotalStudents(groups: seq<Group>): int
  {
    if groups == [] then 0 else TotalStudents(groups[..|groups| - 1]) + groups[|groups| - 1].totalStudents
  }

  function TotalParticipated(groups: seq<Group>): int
  {
    if groups == [] then 0 else TotalParticipated(groups[..|groups| - 1]) + groups[|groups| - 1].participatedStudents
  }

  /** The overall rate: Σparticipated / Σtotal · 100, or 0 when Σtotal is 0. */
  function OverallRate(groups: seq<Group>): real
  {
    Rate(TotalParticipated(groups), TotalStudents(groups))
  }

  /**
   * A rate is 0 without students; otherwise rate · total = 100 · participated, so it is
   * non-negative, and at most 100 while no more students took part than the group has.
   */
  lemma RateBounds(participated: int, total: int)
    requires participated >= 0
    ensures total <= 0 ==> Rate(participated, total) == 0.0
    ensures total > 0 ==> Rate(participated, total) * (total as real) == 100.0 * (participated as real)
    ensures Rate(participated, total) >= 0.0
    ensures participated <= total ==> Rate(participated, total) <= 100.0
  {
    if total > 0 {
      var r := Rate(participated, total);
      assert r * (total as real) == 100.0 * (participated as real);
      if participated <= total {
        assert r * (total as real) <= 100.0 * (total as real);
      }
    }
  }

  /** `group_participation`: the per-group rates, both totals and the overall rate. */
  method GroupParticipation(groups: seq<Group>)
    returns (rates: seq<real>, totalStudents: int, totalParticipated: int, overall: real)
    ensures |rates| == |groups| && forall i :: 0 <= i < |groups| ==> rates[i] == GroupRate(groups[i])
    ensures totalStudents == TotalStudents(groups) && totalParticipated == TotalParticipated(groups)
    ensures overall == OverallRate(groups)
  {
    rates, totalStudents, totalParticipated := [], 0, 0;
    for i := 0 to |groups|
      invariant |rates| == i && forall k :: 0 <= k < i ==> rates[k] == GroupRate(groups[k])
      invariant totalStudents == TotalStudents(groups[..i])
      invariant totalParticipated == TotalParticipated(groups[..i])
    {
      var g := groups[i];
      var rate := 0.0;
      if g.totalStudents > 0 {
        rate := (g.participatedStudents as real / g.totalStudents as real) * 100.0;
      }
      rates := rates + [rate];
      assert groups[..i + 1][..i] == groups[..i];
      totalStudents := totalStudents + g.totalStudents;
      totalParticipated := totalParticipated + g.participatedStudents;
    }
    assert groups[..|groups|] == groups;
    overall := if totalStudents > 0 then (totalParticipated as real / totalStudents as real) * 100.0 else 0.0;
  }

  /** The dashboard figures: both totals over all groups and the rates of the first five groups. */
  method DashboardParticipation(groups: seq<Group>)
    returns (totalStudents: int, totalParticipated: int, firstRates: seq<real>)
    ensures totalStudents == TotalStudents(groups) && totalParticipated == TotalParticipated(groups)
    ensures |firstRates| == |Take(groups, 5)|
    ensures forall i :: 0 <= i < |firstRates| ==> firstRates[i] == GroupRate(groups[i])
  {
    var allRates, overall;
    allRates, totalStudents, totalParticipated, overall := GroupParticipation(groups);
    firstRates := [];
    var shown := Take(groups, 5);
    for i := 0 to |shown|
      invariant |firstRates| == i && forall k :: 0 <= k < i ==> firstRates[k] == GroupRate(groups[k])
    {
      var g := shown[i];
      var rate := 0.0;
      if g.totalStudents > 0 {
        rate := (g.participatedStudents as real / g.totalStudents as real) * 100.0;
      }
      firstRates := firstRates + [rate];
    }
  }

  lemma {:induction false} TotalsBounds(groups: seq<Group>)
    requires forall g :: g in groups ==> GroupFieldsValid(g)
    ensures 0 <= TotalParticipated(groups) && 0 <= TotalStudents(groups)
    ensures (forall g :: g in groups ==> g.participatedStudents <= g.totalStudents)
            ==> TotalParticipated(groups) <= TotalStudents(groups)
  {
    if groups != [] {
      var init := groups[..|groups| - 1];
      forall g | g in init
        ensures GroupFieldsValid(g)
      {
        assert g in groups;
      }
      assert groups[|groups| - 1] in groups;
      TotalsBounds(init);
    }
  }

  /**
   * The overall rate lies in [0, 100] while no group has more participants than students,
   * and weighs every group by its size: overall · Σtotal = 100 · Σparticipated.
   */
  lemma OverallRateBounds(groups: seq<Group>)
    requires forall g :: g in groups ==> GroupFieldsValid(g) && g.participatedStudents <= g.totalStudents
    ensures 0.0 <= OverallRate(groups) <= 100.0
    ensures TotalStudents(groups) > 0 ==>
      OverallRate(groups) * (TotalStudents(groups) as real) == 100.0 * (TotalParticipated(groups) as real)
  {
    TotalsBounds(groups);
    RateBounds(TotalParticipated(groups), TotalStudents(groups));
  }

  lemma {:induction false} CountedTotals(groups: seq<Group>, i: nat)
    requires i < |groups|
    ensures TotalParticipated(Views.Counted(groups, i)) == TotalParticipated(groups) + 1
    ensures TotalStudents(Views.Counted(groups, i)) == TotalStudents(groups)
  {
    var c := Views.Counted(groups, i);
    if i < |groups| - 1 {
      assert c[..|c| - 1] == Views.Counted(groups[..|groups| - 1], i);
      CountedTotals(groups[..|groups| - 1], i);
    } else {
      assert c[..|c| - 1] == groups[..|groups| - 1];
    }
  }

  /** One more participant raises a rate by 100 / total. */
  lemma RateIncrement(participated: int, total: int)
    requires total > 0
    ensures Rate(participated + 1, total) == Rate(participated, total) + 100.0 / (total as real)
    ensures Rate(participated + 1, total) > Rate(participated, total)
  {
    var t := total as real;
    assert (participated + 1) as real / t == participated as real / t + 1.0 / t;
  }

  /**
   * Counting one more participant (the end of a wizard pass) raises that group's rate
   * when it has students, adds exactly one to the overall participation and leaves the
   * other groups' rates as they were.
   */
  lemma CountingRaisesRate(groups: seq<Group>, i: nat)
    requires i < |groups|
    ensures groups[i].totalStudents > 0 ==> GroupRate(Views.Counted(groups, i)[i]) > GroupRate(groups[i])
    ensures forall k :: 0 <= k < |groups| && k != i ==> Views.Counted(groups, i)[k] == groups[k]
    ensures TotalParticipated(Views.Counted(groups, i)) == TotalParticipated(groups) + 1
    ensures TotalStudents(Views.Counted(groups, i)) == TotalStudents(groups)
  {
    CountedTotals(groups, i);
    var g := groups[i];
    var counted := Views.Counted(groups, i);
    assert counted[i] == g.(participatedStudents := g.participatedStudents + 1);
    if g.totalStudents > 0 {
      assert GroupRate(counted[i]) == Rate(g.participatedStudents + 1, g.totalStudents);
      RateIncrement(g.participatedStudents, g.totalStudents);
    }
  }

  // ---------------------------------------------------------------------------
  // Professors rating report
  // ---------------------------------------------------------------------------

  /** `Question.objects.filter(is_active=True, question_type='rating')` in catalogue order. */
  function RatingQuestions(qs: seq<Question>): (r: seq<Question>)
    ensures forall q :: q in r ==> q in qs && q.isActive && q.kind == Rating
    ensures forall q :: q in qs && q.isActive && q.kind == Rating ==> q in r
  {
    if qs == [] then []
    else RatingQuestions(qs[..|qs| - 1]) + (if qs[|qs| - 1].isActive && qs[|qs| - 1].kind == Rating then [qs[|qs| - 1]] else [])
  }

  /** `.filter(is_active=True, question_type='text').first()`. */
  function TextQuestion(qs: seq<Question>): (r: Option<Question>)
    ensures r.Some? ==> r.value in qs && r.value.isActive && r.value.kind == Text
    ensures r.None? ==> forall q :: q in qs ==> !(q.isActive && q.kind == Text)
    ensures r.Some? ==>
      exists i :: 0 <= i < |qs| && qs[i] == r.value && forall j :: 0 <= j < i ==> !(qs[j].isActive && qs[j].kind == Text)
  {
    if qs == [] then None
    else if qs[0].isActive && qs[0].kind == Text then Some(qs[0])
    else TextQuestion(qs[1..])
  }

  /** The professor of the survey with primary key `id` (the join `survey__professor`). */
  function SurveyProfessor(surveys: seq<Survey>, id: nat): Option<nat>
  {
    if surveys == [] then None
    else if surveys[0].id == id then Some(surveys[0].professor)
    else SurveyProfessor(surveys[1..], id)
  }

  /** One of the pooled answers: for question `q`, by professor `p`, rated, and not Not Applicable. */
  predicate Pooled(st: Store, a: Answer, p: nat, q: nat)
  {
    a.question == q && SurveyProfessor(st.surveys, a.survey) == Some(p) && a.rating.Some? && a.rating.value != NotApplicable
  }

  /** The ratings pooled over all of a professor's surveys for one question. */
  function PooledRatings(st: Store, answers: seq<Answer>, p: nat, q: nat): seq<int>
  {
    if answers == [] then []
    else PooledRatings(st, answers[..|answers| - 1], p, q)
         + (if Pooled(st, answers[|answers| - 1], p, q) then [answers[|answers| - 1].rating.value] else [])
  }

  /** The average of one question for one professor: the pooled mean, or 0. */
  function QuestionAverage(st: Store, p: nat, q: nat): real
  {
    Mean(PooledRatings(st, st.answers, p, q))
  }

  /** `question_averages`: one entry per rating question. */
  function QuestionAverages(st: Store, p: nat, qs: seq<Question>): (r: seq<real>)
    ensures |r| == |qs|
  {
    if qs == [] then [] else QuestionAverages(st, p, qs[..|qs| - 1]) + [QuestionAverage(st, p, qs[|qs| - 1].id)]
  }

  /** Entry k of `question_averages` is the average of the k-th rating question. */
  lemma {:induction false} QuestionAveragesShape(st: Store, p: nat, qs: seq<Question>)
    ensures forall k :: 0 <= k < |qs| ==> QuestionAverages(st, p, qs)[k] == QuestionAverage(st, p, qs[k].id)
  {
    if qs != [] {
      var init := qs[..|qs| - 1];
      QuestionAveragesShape(st, p, init);
      assert forall k :: 0 <= k < |init| ==> qs[k] == init[k];
    }
  }

  /** In a valid store, every per-question average of the report is 0 or lies in [1, 5]. */
  lemma QuestionAveragesRange(st: Store, p: nat, qs: seq<Question>)
    requires Valid(st)
    ensures forall k :: 0 <= k < |qs| ==>
      var x := QuestionAverages(st, p, qs)[k];
      x == QuestionAverage(st, p, qs[k].id) && (x == 0.0 <==> PooledRatings(st, st.answers, p, qs[k].id) == [])
      && (x == 0.0 || 1.0 <= x <= 5.0)
  {
    QuestionAveragesShape(st, p, qs);
    forall k | 0 <= k < |qs|
      ensures var x := QuestionAverages(st, p, qs)[k];
        x == QuestionAverage(st, p, qs[k].id) && (x == 0.0 <==> PooledRatings(st, st.answers, p, qs[k].id) == [])
        && (x == 0.0 || 1.0 <= x <= 5.0)
    {
      QuestionAverageRange(st, p, qs[k].id);
    }
  }

  /** The averages of the questions that had answers (`valid_question_count` of them). */
  function AnsweredAverages(st: Store, p: nat, qs: seq<Question>): seq<real>
  {
    if qs == [] then []
    else AnsweredAverages(st, p, qs[..|qs| - 1])
         + (if PooledRatings(st, st.answers, p, qs[|qs| - 1].id) != [] then [QuestionAverage(st, p, qs[|qs| - 1].id)] else [])
  }

  /** `overall_average`: the mean over the answered questions only, or 0. */
  function OverallAverage(st: Store, p: nat, qs: seq<Question>): real
  {
    MeanReal(AnsweredAverages(st, p, qs))
  }

  /** The non-empty text answers of a professor's surveys to the comment question. */
  function Comments(st: Store, answers: seq<Answer>, p: nat, tq: nat): (cs: seq<string>)
    ensures forall c :: c in cs ==>
      (c != "" && exists a :: a in answers && a.question == tq && SurveyProfessor(st.surveys, a.survey) == Some(p) && a.text == Some(c))
    ensures forall a ::
      (a in answers && a.question == tq && SurveyProfessor(st.surveys, a.survey) == Some(p)
       && a.text.Some? && a.text.value != "") ==> a.text.value in cs
  {
    if answers == [] then []
    else
      var a := answers[|answers| - 1];
      Comments(st, answers[..|answers| - 1], p, tq)
      + (if a.question == tq && SurveyProfessor(st.surveys, a.survey) == Some(p) && a.text.Some? && a.text.value != ""
         then [a.text.value] else [])
  }

  /** The comments keep answer-table order: two tables one after the other concatenate. */
  lemma {:induction false} CommentsAppend(st: Store, a: seq<Answer>, b: seq<Answer>, p: nat, tq: nat)
    ensures Comments(st, a + b, p, tq) == Comments(st, a, p, tq) + Comments(st, b, p, tq)
  {
    if b == [] {
      assert a + b == a;
    } else {
      assert (a + b)[|a + b| - 1] == b[|b| - 1] && (a + b)[..|a + b| - 1] == a + b[..|b| - 1];
      CommentsAppend(st, a, b[..|b| - 1], p, tq);
    }
  }

  /** One row of the report. */
  datatype ProfessorRow = ProfessorRow(professor: nat, averages: seq<real>, overall: real, comments: seq<string>)

  function OverallKey(r: ProfessorRow): real
  {
    r.overall
  }

  function RowOf(st: Store, p: nat, qs: seq<Question>, tq: Option<Question>): ProfessorRow
  {
    ProfessorRow(p, QuestionAverages(st, p, qs), OverallAverage(st, p, qs),
                 if tq.Some? then Comments(st, st.answers, p, tq.value.id) else [])
  }

  /** The rows of the professors that have surveys, in professor order. */
  function RatingRows(st: Store, ps: seq<Professor>, qs: seq<Question>, tq: Option<Question>): seq<ProfessorRow>
  {
    if ps == [] then []
    else RatingRows(st, ps[..|ps| - 1], qs, tq)
         + (if SurveysOf(st.surveys, ps[|ps| - 1].id) != [] then [RowOf(st, ps[|ps| - 1].id, qs, tq)] else [])
  }

  /** The loop over the rating questions for one professor. */
  method RateProfessor(st: Store, p: nat, qs: seq<Question>) returns (averages: seq<real>, overall: real)
    ensures averages == QuestionAverages(st, p, qs)
    ensures overall == OverallAverage(st, p, qs)
  {
    averages := [];
    var totalSum := 0.0;
    var validCount := 0;
    for i := 0 to |qs|
      invariant averages == QuestionAverages(st, p, qs[..i])
      invariant totalSum == SumReal(AnsweredAverages(st, p, qs[..i]))
      invariant validCount == |AnsweredAverages(st, p, qs[..i])|
    {
      var pooled := PooledRatings(st, st.answers, p, qs[i].id);
      QuestionStep(st, p, qs, i);
      if |pooled| > 0 {
        var avg := Mean(pooled);
        averages := averages + [avg];
        totalSum := totalSum + avg;
        validCount := validCount + 1;
      } else {
        averages := averages + [0.0];
      }
    }
    assert qs[..|qs|] == qs;
    overall := if validCount > 0 then totalSum / validCount as real else 0.0;
  }

  lemma QuestionStep(st: Store, p: nat, qs: seq<Question>, i: nat)
    requires i < |qs|
    ensures QuestionAverages(st, p, qs[..i + 1]) == QuestionAverages(st, p, qs[..i]) + [QuestionAverage(st, p, qs[i].id)]
    ensures PooledRatings(st, st.answers, p, qs[i].id) == [] ==>
      AnsweredAverages(st, p, qs[..i + 1]) == AnsweredAverages(st, p, qs[..i])
    ensures PooledRatings(st, st.answers, p, qs[i].id) != [] ==>
      && SumReal(AnsweredAverages(st, p, qs[..i + 1])) == SumReal(AnsweredAverages(st, p, qs[..i])) + QuestionAverage(st, p, qs[i].id)
      && |AnsweredAverages(st, p, qs[..i + 1])| == |AnsweredAverages(st, p, qs[..i])| + 1
  {
    assert qs[..i + 1][..i] == qs[..i];
    var before := AnsweredAverages(st, p, qs[..i]);
    var avg := QuestionAverage(st, p, qs[i].id);
    assert (before + [avg])[..|before|] == before;
  }

  lemma RatingRowsStep(st: Store, ps: seq<Professor>, qs: seq<Question>, tq: Option<Question>, i: nat)
    requires i < |ps|
    ensures RatingRows(st, ps[..i + 1], qs, tq) ==
      RatingRows(st, ps[..i], qs, tq) + (if SurveysOf(st.surveys, ps[i].id) != [] then [RowOf(st, ps[i].id, qs, tq)] else [])
  {
    assert ps[..i + 1][..i] == ps[..i];
  }

  /** `admin_professors_rating`: one row per professor with surveys, sorted ascending by overall. */
  method ProfessorsRating(st: Store) returns (rows: seq<ProfessorRow>)
    ensures rows == SortBy(RatingRows(st, st.professors, RatingQuestions(st.questions), TextQuestion(st.questions)),
                           OverallKey)
  {
    var qs := RatingQuestions(st.questions);
    var tq := TextQuestion(st.questions);
    var data: seq<ProfessorRow> := [];
    for i := 0 to |st.professors|
      invariant data == RatingRows(st, st.professors[..i], qs, tq)
    {
      var p := st.professors[i];
      RatingRowsStep(st, st.professors, qs, tq, i);
      if |SurveysOf(st.surveys, p.id)| > 0 {
        var averages, overall := RateProfessor(st, p.id, qs);
        var comments := if tq.Some? then Comments(st, st.answers, p.id, tq.value.id) else [];
        data := data + [ProfessorRow(p.id, averages, overall, comments)];
      }
    }
    assert st.professors[..|st.professors|] == st.professors;
    rows := SortBy(data, OverallKey);
  }

  lemma {:induction false} PooledInRange(st: Store, answers: seq<Answer>, p: nat, q: nat)
    requires forall a :: a in answers ==> RatingInRange(a)
    ensures forall r :: r in PooledRatings(st, answers, p, q) ==> MinRating <= r < NotApplicable
  {
    if answers != [] {
      var init := answers[..|answers| - 1];
      forall a | a in init
        ensures RatingInRange(a)
      {
        assert a in answers;
      }
      assert answers[|answers| - 1] in answers;
      PooledInRange(st, init, p, q);
    }
  }

  /**
   * With valid answers a question's average is 0 exactly when the professor has no rated,
   * applicable answer to it, and otherwise lies in [1, 5].
   */
  lemma QuestionAverageRange(st: Store, p: nat, q: nat)
    requires Valid(st)
    ensures QuestionAverage(st, p, q) == 0.0 <==> PooledRatings(st, st.answers, p, q) == []
    ensures PooledRatings(st, st.answers, p, q) != [] ==> 1.0 <= QuestionAverage(st, p, q) <= 5.0
  {
    var rs := PooledRatings(st, st.answers, p, q);
    if rs != [] {
      PooledInRange(st, st.answers, p, q);
      MeanBounds(rs, 1, 5);
    }
  }

  lemma {:induction false} AnsweredAveragesRange(st: Store, p: nat, qs: seq<Question>)
    requires Valid(st)
    ensures forall x :: x in AnsweredAverages(st, p, qs) ==> 1.0 <= x <= 5.0
    ensures AnsweredAverages(st, p, qs) == [] <==> forall q :: q in qs ==> PooledRatings(st, st.answers, p, q.id) == []
  {
    AnsweredAveragesBounded(st, p, qs);
    AnsweredAveragesEmpty(st, p, qs);
  }

  lemma {:induction false} AnsweredAveragesBounded(st: Store, p: nat, qs: seq<Question>)
    requires Valid(st)
    ensures forall x :: x in AnsweredAverages(st, p, qs) ==> 1.0 <= x <= 5.0
  {
    if qs != [] {
      var init := qs[..|qs| - 1];
      var last := qs[|qs| - 1];
      var tail := if PooledRatings(st, st.answers, p, last.id) != [] then [QuestionAverage(st, p, last.id)] else [];
      assert AnsweredAverages(st, p, qs) == AnsweredAverages(st, p, init) + tail;
      AnsweredAveragesBounded(st, p, init);
      QuestionAverageRange(st, p, last.id);
    }
  }

  lemma {:induction false} AnsweredAveragesEmpty(st: Store, p: nat, qs: seq<Question>)
    ensures AnsweredAverages(st, p, qs) == [] <==> forall q :: q in qs ==> PooledRatings(st, st.answers, p, q.id) == []
  {
    if qs != [] {
      var init := qs[..|qs| - 1];
      var last := qs[|qs| - 1];
      var tail := if PooledRatings(st, st.answers, p, last.id) != [] then [QuestionAverage(st, p, last.id)] else [];
      assert AnsweredAverages(st, p, qs) == AnsweredAverages(st, p, init) + tail;
      AnsweredAveragesEmpty(st, p, init);
      assert forall q :: q in qs <==> q in init || q == last by {
        assert qs == init + [last];
      }
    }
  }

  /**
   * The overall score is 0 exactly when none of the questions had an applicable answer for
   * the professor, and otherwise lies in [1, 5]; questions without answers do not pull it
   * towards 0.
   */
  lemma OverallAverageRange(st: Store, p: nat, qs: seq<Question>)
    requires Valid(st)
    ensures OverallAverage(st, p, qs) == 0.0 <==> forall q :: q in qs ==> PooledRatings(st, st.answers, p, q.id) == []
    ensures (exists q :: q in qs && PooledRatings(st, st.answers, p, q.id) != []) ==>
      1.0 <= OverallAverage(st, p, qs) <= 5.0
  {
    var xs := AnsweredAverages(st, p, qs);
    AnsweredAveragesRange(st, p, qs);
    if xs != [] {
      MeanRealBounds(xs, 1.0, 5.0);
    }
  }

  /** A question without applicable answers leaves the overall score unchanged. */
  lemma OverallIgnoresUnanswered(st: Store, p: nat, qs: seq<Question>, q: Question)
    requires PooledRatings(st, st.answers, p, q.id) == []
    ensures OverallAverage(st, p, qs + [q]) == OverallAverage(st, p, qs)
    ensures QuestionAverages(st, p, qs + [q]) == QuestionAverages(st, p, qs) + [0.0]
  {
    assert (qs + [q])[..|qs + [q]| - 1] == qs;
    assert AnsweredAverages(st, p, qs + [q]) == AnsweredAverages(st, p, qs);
  }

  lemma {:induction false} RatingRowsMembers(st: Store, ps: seq<Professor>, qs: seq<Question>, tq: Option<Question>)
    ensures forall r :: r in RatingRows(st, ps, qs, tq) <==>
      exists p :: p in ps && SurveysOf(st.surveys, p.id) != [] && r == RowOf(st, p.id, qs, tq)
  {
    if ps != [] {
      var init := ps[..|ps| - 1];
      var last := ps[|ps| - 1];
      RatingRowsMembers(st, init, qs, tq);
      assert ps == init + [last];
      forall r | exists p :: p in ps && SurveysOf(st.surveys, p.id) != [] && r == RowOf(st, p.id, qs, tq)
        ensures r in RatingRows(st, ps, qs, tq)
      {
        var p :| p in ps && SurveysOf(st.surveys, p.id) != [] && r == RowOf(st, p.id, qs, tq);
        if p != last {
          assert p in init;
        }
      }
    }
  }

  /**
   * The report lists exactly the professors that have surveys, each once per occurrence in
   * the professor table, with one average per active rating question, sorted ascending by
   * the overall score, which is 0 or lies in [1, 5].
   */
  lemma ProfessorsRatingReport(st: Store)
    requires Valid(st)
    ensures var qs := RatingQuestions(st.questions);
            var tq := TextQuestion(st.questions);
            var data := RatingRows(st, st.professors, qs, tq);
            var rows := SortBy(data, OverallKey);
            && SortedBy(rows, OverallKey)
            && multiset(rows) == multiset(data)
            && (forall r :: r in rows <==>
                  exists p :: p in st.professors && SurveysOf(st.surveys, p.id) != [] && r == RowOf(st, p.id, qs, tq))
            && (forall r :: r in rows ==> |r.averages| == |qs| && (r.overall == 0.0 || 1.0 <= r.overall <= 5.0))
            && (forall r :: r in rows ==> forall k :: 0 <= k < |qs| ==>
                  r.averages[k] == QuestionAverage(st, r.professor, qs[k].id)
                  && (r.averages[k] == 0.0 || 1.0 <= r.averages[k] <= 5.0))
  {
    var qs := RatingQuestions(st.questions);
    var tq := TextQuestion(st.questions);
    var data := RatingRows(st, st.professors, qs, tq);
    var rows := SortBy(data, OverallKey);
    SortBySorted(data, OverallKey);
    RatingRowsMembers(st, st.professors, qs, tq);
    forall r | r in rows
      ensures r in data
    {
      assert r in multiset(rows);
    }
    forall r | r in data
      ensures r in rows
    {
      assert r in multiset(data);
    }
    forall r | r in rows
      ensures |r.averages| == |qs| && (r.overall == 0.0 || 1.0 <= r.overall <= 5.0)
      ensures forall k :: 0 <= k < |qs| ==>
        r.averages[k] == QuestionAverage(st, r.professor, qs[k].id)
        && (r.averages[k] == 0.0 || 1.0 <= r.averages[k] <= 5.0)
    {
      var p :| p in st.professors && SurveysOf(st.surveys, p.id) != [] && r == RowOf(st, p.id, qs, tq);
      OverallAverageRange(st, p.id, qs);
      QuestionAveragesRange(st, p.id, qs);
    }
  }

  // ---------------------------------------------------------------------------
  // Outcomes of the pages that change data
  // ---------------------------------------------------------------------------

  /**
   * Done: the change was made (a redirect with a success message); FormError: a redirect
   * back with an error message; Rejected: a guarded delete refused; ConfirmPage: the
   * confirmation page of a GET; NotFound: `get_object_or_404` failed; ProtectedError and
   * IntegrityError: the database refused the write.
   */
  datatype AdminOutcome = Done | FormError | Rejected | ConfirmPage | NotFound | ProtectedError | IntegrityError

  datatype AdminResult = AdminResult(outcome: AdminOutcome, store: Store)

  /** `queryset.filter(...)`: the rows that satisfy `keep`, in table order. */
  function Filter<T(!new)>(s: seq<T>, keep: T -> bool): (r: seq<T>)
    ensures forall x :: x in r <==> x in s && keep(x)
    ensures |r| <= |s|
  {
    if s == [] then []
    else (if keep(s[0]) then [s[0]] else []) + Filter(s[1..], keep)
  }

  /** No two rows share a key. */
  ghost predicate KeysDistinct<T, K>(s: seq<T>, key: T -> K)
  {
    forall i, j :: 0 <= i < j < |s| ==> key(s[i]) != key(s[j])
  }

  /** Deleting rows keeps the keys of the remaining rows distinct. */
  lemma {:induction false} FilterKeysDistinct<T(!new), K>(s: seq<T>, keep: T -> bool, key: T -> K)
    requires KeysDistinct(s, key)
    ensures KeysDistinct(Filter(s, keep), key)
  {
    if s != [] {
      var rest := Filter(s[1..], keep);
      assert KeysDistinct(s[1..], key) by {
        forall i, j | 0 <= i < j < |s| - 1
          ensures key(s[1..][i]) != key(s[1..][j])
        {
          assert s[1..][i] == s[i + 1] && s[1..][j] == s[j + 1];
        }
      }
      FilterKeysDistinct(s[1..], keep, key);
      if keep(s[0]) {
        forall j | 0 <= j < |rest|
          ensures key(rest[j]) != key(s[0])
        {
          assert rest[j] in s[1..];
          var k :| 0 <= k < |s| - 1 && s[1..][k] == rest[j];
          assert s[k + 1] == rest[j];
        }
        assert Filter(s, keep) == [s[0]] + rest;
      }
    }
  }

  lemma FilterQuestionIdsDistinct(qs: seq<Question>, keep: Question -> bool)
    requires QuestionIdsDistinct(qs)
    ensures QuestionIdsDistinct(Filter(qs, keep))
  {
    FilterKeysDistinct(qs, keep, (q: Question) => q.id);
  }

  lemma FilterAssignmentsUnique(rows: seq<Assignment>, keep: Assignment -> bool)
    requires AssignmentsUnique(rows)
    ensures AssignmentsUnique(Filter(rows, keep))
  {
    FilterKeysDistinct(rows, keep, (a: Assignment) => a);
  }

  /** `Answer.objects.filter(survey=survey).delete()`: the answers of the other surveys, in table order. */
  function AnswersWithout(answers: seq<Answer>, survey: nat): (r: seq<Answer>)
    ensures forall a :: a in r <==> a in answers && a.survey != survey
  {
    if answers == [] then []
    else (if answers[0].survey != survey then [answers[0]] else []) + AnswersWithout(answers[1..], survey)
  }

  lemma AnswersWithoutUnique(answers: seq<Answer>, survey: nat)
    requires AnswersUnique(answers)
    ensures AnswersUnique(AnswersWithout(answers, survey))
  {
    var key := (a: Answer) => (a.survey, a.question);
    FilterKeysDistinct(answers, (a: Answer) => a.survey != survey, key);
    assert AnswersWithout(answers, survey) == Filter(answers, (a: Answer) => a.survey != survey) by {
      AnswersWithoutIsFilter(answers, survey);
    }
  }

  lemma {:induction false} AnswersWithoutIsFilter(answers: seq<Answer>, survey: nat)
    ensures AnswersWithout(answers, survey) == Filter(answers, (a: Answer) => a.survey != survey)
  {
    if answers != [] {
      AnswersWithoutIsFilter(answers[1..], survey);
    }
  }

  // ---------------------------------------------------------------------------
  // Assignment reconciliation
  // ---------------------------------------------------------------------------

  /** `values_list('group_id')` of a professor's GroupProfessor rows, as a set. */
  function GroupsOf(rows: seq<Assignment>, professor: nat): (gs: set<nat>)
    ensures forall g :: g in gs <==> Assignment(g, professor) in rows
  {
    set a | a in rows && a.professor == professor :: a.group
  }

  predicate ProfessorExists(professors: seq<Professor>, id: nat)
  {
    exists p :: p in professors && p.id == id
  }

  predicate GroupExists(groups: seq<Group>, id: nat)
  {
    exists g :: g in groups && g.id == id
  }

  lemma AppendUnique(rows: seq<Assignment>, x: Assignment)
    requires AssignmentsUnique(rows) && x !in rows
    ensures AssignmentsUnique(rows + [x])
  {
    forall i, j | 0 <= i < j < |rows + [x]|
      ensures (rows + [x])[i] != (rows + [x])[j]
    {
      if j == |rows| {
        assert (rows + [x])[i] in rows;
      }
    }
  }

  /**
   * `assignment_add` on POST: with no professor chosen, an error and no change; an unknown
   * professor, 404 and no change.  Otherwise it creates a row for every selected group the
   * professor does not have yet (in set order, so a 404 on an unknown group leaves the rows
   * created before it, each for the professor and an existing selected group), then deletes the professor's rows for groups not selected.  Only
   * the assignment table changes, never another professor's rows, and uniqueness of
   * (group, professor) is kept.  On success the professor's groups are exactly the selection.
   */
  method AssignmentAdd(st: Store, professor: Option<nat>, selected: seq<nat>) returns (r: AdminResult)
    ensures professor.None? ==> r == AdminResult(FormError, st)
    ensures r.outcome == FormError <==> professor.None?
    ensures professor.Some? && !ProfessorExists(st.professors, professor.value) ==> r == AdminResult(NotFound, st)
    ensures r.outcome in {Done, FormError, NotFound}
    ensures r.store == st.(assignments := r.store.assignments)
    ensures forall a: Assignment :: (professor.None? || a.professor != professor.value) ==>
      (a in r.store.assignments <==> a in st.assignments)
    ensures AssignmentsUnique(st.assignments) ==> AssignmentsUnique(r.store.assignments)
    ensures r.outcome == Done ==>
      && professor.Some? && ProfessorExists(st.professors, professor.value)
      && GroupsOf(r.store.assignments, professor.value) == set g | g in selected
      && forall g :: g in GroupsOf(r.store.assignments, professor.value) - GroupsOf(st.assignments, professor.value)
           ==> GroupExists(st.groups, g)
    ensures r.outcome == NotFound && professor.Some? && ProfessorExists(st.professors, professor.value) ==>
      && (exists g :: g in selected && g !in GroupsOf(st.assignments, professor.value) && !GroupExists(st.groups, g))
      && (forall a :: a in st.assignments ==> a in r.store.assignments)
      && forall a :: a in r.store.assignments && a !in st.assignments ==>
           a.professor == professor.value && a.group in selected && GroupExists(st.groups, a.group)
  {
    if professor.None? {
      return AdminResult(FormError, st);
    }
    var p := professor.value;
    if !ProfessorExists(st.professors, p) {
      return AdminResult(NotFound, st);
    }
    var current := GroupsOf(st.assignments, p);
    var chosen := set g | g in selected;
    var toAdd := chosen - current;
    var toRemove := current - chosen;
    var rows := st.assignments;
    var remaining := toAdd;
    while remaining != {}
      invariant remaining <= toAdd
      invariant forall a :: a in rows <==> a in st.assignments || (a.professor == p && a.group in toAdd - remaining)
      invariant AssignmentsUnique(st.assignments) ==> AssignmentsUnique(rows)
      invariant forall g :: g in toAdd - remaining ==> GroupExists(st.groups, g)
      decreases remaining
    {
      var g :| g in remaining;
      if !GroupExists(st.groups, g) {
        return AdminResult(NotFound, st.(assignments := rows));
      }
      if AssignmentsUnique(st.assignments) {
        AppendUnique(rows, Assignment(g, p));
      }
      rows := rows + [Assignment(g, p)];
      remaining := remaining - {g};
    }
    var kept := Filter(rows, (a: Assignment) => !(a.professor == p && a.group in toRemove));
    if AssignmentsUnique(st.assignments) {
      FilterAssignmentsUnique(rows, (a: Assignment) => !(a.professor == p && a.group in toRemove));
    }
    r := AdminResult(Done, st.(assignments := kept));
  }

  // ---------------------------------------------------------------------------
  // Guarded deletes
  // ---------------------------------------------------------------------------

  /**
   * `school_delete`: refused while departments belong to the school; a GET shows the
   * confirmation page; a POST deletes it, unless professors still reference it, which the
   * PROTECT foreign key of Professor.school refuses.
   */
  function SchoolDelete(st: Store, id: nat, post: bool): (r: AdminResult)
    ensures r.outcome == Done <==>
      && (exists s :: s in st.schools && s.id == id)
      && !(exists d :: d in st.departments && d.school == id)
      && post
      && !(exists p :: p in st.professors && p.school == id)
    ensures (exists d :: d in st.departments && d.school == id) ==> r.store == st
    ensures r.outcome != Done ==> r.store == st
    ensures r.outcome == Done ==>
      && (forall s :: s in r.store.schools <==> s in st.schools && s.id != id)
      && r.store == st.(schools := r.store.schools)
  {
    if !(exists s :: s in st.schools && s.id == id) then AdminResult(NotFound, st)
    else if exists d :: d in st.departments && d.school == id then AdminResult(Rejected, st)
    else if !post then AdminResult(ConfirmPage, st)
    else if exists p :: p in st.professors && p.school == id then AdminResult(ProtectedError, st)
    else AdminResult(Done, st.(schools := Filter(st.schools, (s: School) => s.id != id)))
  }

  /**
   * `question_delete` and `internship_question_delete` over one catalogue and its answers:
   * refused while answers reference the question; a GET shows the confirmation page; a POST
   * deletes it, and since no answer references it the cascade deletes nothing.
   */
  function GuardedQuestionDelete(qs: seq<Question>, answers: seq<Answer>, id: nat, post: bool)
    : (r: (AdminOutcome, seq<Question>))
    ensures r.0 == Done <==>
      (exists q :: q in qs && q.id == id) && !(exists a :: a in answers && a.question == id) && post
    ensures r.0 != Done ==> r.1 == qs
    ensures r.0 == Done ==> forall q :: q in r.1 <==> q in qs && q.id != id
  {
    if !(exists q :: q in qs && q.id == id) then (NotFound, qs)
    else if exists a :: a in answers && a.question == id then (Rejected, qs)
    else if !post then (ConfirmPage, qs)
    else (Done, Filter(qs, (q: Question) => q.id != id))
  }

  function QuestionDelete(st: Store, id: nat, post: bool): AdminResult
  {
    var (outcome, qs) := GuardedQuestionDelete(st.questions, st.answers, id, post);
    AdminResult(outcome, st.(questions := qs))
  }

  function InternshipQuestionDelete(st: Store, id: nat, post: bool): AdminResult
  {
    var (outcome, qs) := GuardedQuestionDelete(st.internshipQuestions, st.internshipAnswers, id, post);
    AdminResult(outcome, st.(internshipQuestions := qs))
  }

  /**
   * `survey_delete`: a GET shows the confirmation page; a POST deletes the survey's answers
   * and then the survey; an unknown survey is a 404.
   */
  function SurveyDelete(st: Store, id: nat, post: bool): (r: AdminResult)
    ensures r.outcome == Done <==> (exists s :: s in st.surveys && s.id == id) && post
    ensures r.outcome != Done ==> r.store == st
    ensures r.outcome == Done ==>
      && (forall s :: s in r.store.surveys <==> s in st.surveys && s.id != id)
      && (forall a :: a in r.store.answers <==> a in st.answers && a.survey != id)
      && r.store == st.(surveys := r.store.surveys, answers := r.store.answers)
  {
    if !(exists s :: s in st.surveys && s.id == id) then AdminResult(NotFound, st)
    else if !post then AdminResult(ConfirmPage, st)
    else AdminResult(Done, st.(answers := AnswersWithout(st.answers, id),
                               surveys := Filter(st.surveys, (s: Survey) => s.id != id)))
  }

  /** `internship_survey_delete`: the same over internship surveys and their answers. */
  function InternshipSurveyDelete(st: Store, id: nat, post: bool): (r: AdminResult)
    ensures r.outcome == Done <==> (exists s :: s in st.internshipSurveys && s.id == id) && post
    ensures r.outcome != Done ==> r.store == st
    ensures r.outcome == Done ==>
      && (forall s :: s in r.store.internshipSurveys <==> s in st.internshipSurveys && s.id != id)
      && (forall a :: a in r.store.internshipAnswers <==> a in st.internshipAnswers && a.survey != id)
      && r.store == st.(internshipSurveys := r.store.internshipSurveys, internshipAnswers := r.store.internshipAnswers)
  {
    if !(exists s :: s in st.internshipSurveys && s.id == id) then AdminResult(NotFound, st)
    else if !post then AdminResult(ConfirmPage, st)
    else AdminResult(Done, st.(internshipAnswers := AnswersWithout(st.internshipAnswers, id),
                               internshipSurveys := Filter(st.internshipSurveys, (s: InternshipSurvey) => s.id != id)))
  }

  lemma {:induction false} AnswersOfFiltered(answers: seq<Answer>, removed: nat, survey: nat)
    requires survey != removed
    ensures AnswersOf(AnswersWithout(answers, removed), survey) == AnswersOf(answers, survey)
  {
    if answers != [] {
      var rest := AnswersWithout(answers[1..], removed);
      AnswersOfFiltered(answers[1..], removed, survey);
      if answers[0].survey != removed {
        var w := [answers[0]] + rest;
        assert AnswersWithout(answers, removed) == w;
        assert w[0] == answers[0] && w[1..] == rest;
        assert AnswersOf(w, survey) == (if answers[0].survey == survey then [answers[0]] else []) + AnswersOf(rest, survey);
      } else {
        assert AnswersWithout(answers, removed) == rest;
      }
    }
  }

  lemma {:induction false} AnswersOfRemoved(answers: seq<Answer>, removed: nat)
    ensures AnswersOf(AnswersWithout(answers, removed), removed) == []
  {
    if answers != [] {
      var rest := AnswersWithout(answers[1..], removed);
      AnswersOfRemoved(answers[1..], removed);
      if answers[0].survey != removed {
        var w := [answers[0]] + rest;
        assert AnswersWithout(answers, removed) == w;
        assert w[0] == answers[0] && w[1..] == rest;
      } else {
        assert AnswersWithout(answers, removed) == rest;
      }
    }
  }

  /**
   * Deleting a survey leaves no answer of it behind and leaves the average of every other
   * survey as it was; the deletes keep the store's constraints.
   */
  lemma SurveyDeleteEffect(st: Store, id: nat, other: nat)
    requires other != id
    ensures var r := SurveyDelete(st, id, true);
            r.outcome == Done ==>
              && AnswersOf(r.store.answers, id) == []
              && SurveyAverage(r.store, other) == SurveyAverage(st, other)
  {
    var r := SurveyDelete(st, id, true);
    if r.outcome == Done {
      AnswersOfFiltered(st.answers, id, other);
      AnswersOfRemoved(st.answers, id);
    }
  }

  /** The guarded deletes keep the store's constraints. */
  lemma DeletesKeepValid(st: Store, id: nat, post: bool)
    requires Valid(st)
    ensures Valid(SchoolDelete(st, id, post).store)
    ensures Valid(QuestionDelete(st, id, post).store)
    ensures Valid(InternshipQuestionDelete(st, id, post).store)
  {
    FilterQuestionIdsDistinct(st.questions, (q: Question) => q.id != id);
    FilterQuestionIdsDistinct(st.internshipQuestions, (q: Question) => q.id != id);
  }

  /** Deleting a survey and its answers keeps the store's constraints. */
  lemma SurveyDeletesKeepValid(st: Store, id: nat, post: bool)
    requires Valid(st)
    ensures Valid(SurveyDelete(st, id, post).store)
    ensures Valid(InternshipSurveyDelete(st, id, post).store)
  {
    AnswersWithoutUnique(st.answers, id);
    AnswersWithoutUnique(st.internshipAnswers, id);
  }

  /** A question with answers cannot be deleted, from either catalogue, and nothing changes. */
  lemma AnsweredQuestionsStay(st: Store, id: nat, post: bool)
    ensures (exists a :: a in st.answers && a.question == id) ==> QuestionDelete(st, id, post).store == st
    ensures (exists a :: a in st.internshipAnswers && a.question == id) ==> InternshipQuestionDelete(st, id, post).store == st
  {
  }

  // ---------------------------------------------------------------------------
  // Adding a group
  // ---------------------------------------------------------------------------

  /**
   * `group_add` on POST: 404 for an unknown department, the UNIQUE constraint on
   * `group_name` refuses a duplicate name, otherwise the group is created with no
   * participants yet.  `objects.create` does not run the field validators.
   */
  function GroupAdd(st: Store, name: string, department: nat, semester: int, total: int): (r: AdminResult)
    ensures r.outcome == Done <==>
      (exists d :: d in st.departments && d.id == department) && !(exists g :: g in st.groups && g.name == name)
    ensures r.outcome != Done ==> r.store == st
    ensures r.outcome == Done ==>
      && r.store.groups == st.groups + [Group(st.nextId, name, department, semester, total, 0)]
      && r.store.nextId == st.nextId + 1
  {
    if !(exists d :: d in st.departments && d.id == department) then AdminResult(NotFound, st)
    else if exists g :: g in st.groups && g.name == name then AdminResult(IntegrityError, st)
    else AdminResult(Done, st.(groups := st.groups + [Group(st.nextId, name, department, semester, total, 0)],
                               nextId := st.nextId + 1))
  }

  /**
   * A new group starts with rate 0 and leaves the totals' participation unchanged; the
   * store stays valid exactly when the submitted semester is in 1..8 and the student count
   * is non-negative, because nothing on this path checks them.
   */
  lemma GroupAddEffect(st: Store, name: string, department: nat, semester: int, total: int)
    requires Valid(st)
    ensures var r := GroupAdd(st, name, department, semester, total);
            r.outcome == Done ==>
              && GroupRate(r.store.groups[|r.store.groups| - 1]) == 0.0
              && TotalParticipated(r.store.groups) == TotalParticipated(st.groups)
              && (Valid(r.store) <==> 1 <= semester <= 8 && total >= 0)
  {
    var r := GroupAdd(st, name, department, semester, total);
    if r.outcome == Done {
      var g := Group(st.nextId, name, department, semester, total, 0);
      assert r.store.groups[..|r.store.groups| - 1] == st.groups;
      AppendedGroupValid(st, g);
    }
  }

  /** Appending a group to a valid store keeps it valid exactly when the group's own fields are valid. */
  lemma AppendedGroupValid(st: Store, g: Group)
    requires Valid(st)
    ensures Valid(st.(groups := st.groups + [g])) <==> GroupFieldsValid(g)
  {
    var groups := st.groups + [g];
    assert forall h :: h in groups <==> h in st.groups || h == g;
  }

  // ---------------------------------------------------------------------------
  // Survey detail
  // ---------------------------------------------------------------------------

  /** `rating_labels.get(answer.rating_value, 'N/A')`. */
  function RatingLabel(v: Option<int>): string
  {
    match v
    case Some(1) => "Strongly Agree"
    case Some(2) => "Agree"
    case Some(3) => "Neither Agree nor Disagree"
    case Some(4) => "Disagree"
    case Some(5) => "Strongly Disagree"
    case Some(6) => "Not Applicable"
    case _ => "N/A"
  }

  /**
   * Each of the six rating values has its own label, and exactly the missing or unknown
   * values show 'N/A'.
   */
  lemma RatingLabelsDistinct()
    ensures forall v, w :: 1 <= v < w <= 6 ==> RatingLabel(Some(v)) != RatingLabel(Some(w))
    ensures forall v :: RatingLabel(v) == "N/A" <==> v.None? || !(1 <= v.value <= 6)
  {
    assert RatingLabel(Some(1)) == "Strongly Agree" && RatingLabel(Some(2)) == "Agree";
    assert RatingLabel(Some(3)) == "Neither Agree nor Disagree" && RatingLabel(Some(4)) == "Disagree";
    assert RatingLabel(Some(5)) == "Strongly Disagree" && RatingLabel(Some(6)) == "Not Applicable";
  }

  /** `question.text_en` of the question with primary key `id`. */
  function QuestionText(qs: seq<Question>, id: nat): string
  {
    if qs == [] then "" else if qs[0].id == id then qs[0].textEn else QuestionText(qs[1..], id)
  }

  /** `question.order` of the question with primary key `id`. */
  function QuestionOrder(qs: seq<Question>, id: nat): int
  {
    if qs == [] then 0 else if qs[0].id == id then qs[0].order else QuestionOrder(qs[1..], id)
  }

  /** The key of `order_by('question__order')`. */
  function OrderKey(qs: seq<Question>): Answer -> real
  {
    (a: Answer) => QuestionOrder(qs, a.question) as real
  }

  /** One entry of `question_data`. */
  datatype DetailRow =
    | RatingRow(question: string, value: Option<int>, shown: string)
    | TextRow(question: string, text: Option<string>)

  function DetailRowFor(qs: seq<Question>, a: Answer): DetailRow
  {
    if QuestionKind(qs, a.question) == Some(Rating)
    then RatingRow(QuestionText(qs, a.question), a.rating, RatingLabel(a.rating))
    else TextRow(QuestionText(qs, a.question), a.text)
  }

  function DetailRows(qs: seq<Question>, answers: seq<Answer>): (rows: seq<DetailRow>)
    ensures |rows| == |answers|
  {
    if answers == [] then []
    else DetailRows(qs, answers[..|answers| - 1]) + [DetailRowFor(qs, answers[|answers| - 1])]
  }

  /** The survey's answers ordered by their question's `order`. */
  function DetailAnswers(st: Store, id: nat): seq<Answer>
  {
    SortBy(AnswersOf(st.answers, id), OrderKey(st.questions))
  }

  datatype Detail = Detail(rows: seq<DetailRow>, average: real)

  /** `survey_detail`: 404 for an unknown survey, else the rows and the survey's average. */
  method SurveyDetail(st: Store, id: nat) returns (r: Option<Detail>)
    ensures r.None? <==> !(exists s :: s in st.surveys && s.id == id)
    ensures r.Some? ==> r.value == Detail(DetailRows(st.questions, DetailAnswers(st, id)), SurveyAverage(st, id))
  {
    if !(exists s :: s in st.surveys && s.id == id) {
      return None;
    }
    var answers := DetailAnswers(st, id);
    var rows: seq<DetailRow> := [];
    for i := 0 to |answers|
      invariant rows == DetailRows(st.questions, answers[..i])
    {
      assert answers[..i + 1][..i] == answers[..i];
      rows := rows + [DetailRowFor(st.questions, answers[i])];
    }
    assert answers[..|answers|] == answers;
    r := Some(Detail(rows, SurveyAverage(st, id)));
  }

  lemma {:induction false} DetailRowsShape(qs: seq<Question>, answers: seq<Answer>)
    ensures forall k :: 0 <= k < |answers| ==> DetailRows(qs, answers)[k] == DetailRowFor(qs, answers[k])
  {
    if answers != [] {
      DetailRowsShape(qs, answers[..|answers| - 1]);
    }
  }

  /**
   * The detail page lists every answer of the survey once, ordered by question order; a
   * rating question's row shows the stored rating with its label, any other question's row
   * shows the stored text.
   */
  lemma SurveyDetailRows(st: Store, id: nat)
    ensures var answers := DetailAnswers(st, id);
            var rows := DetailRows(st.questions, answers);
            && multiset(answers) == multiset(AnswersOf(st.answers, id))
            && SortedBy(answers, OrderKey(st.questions))
            && |rows| == |answers|
            && forall k :: 0 <= k < |rows| ==>
                 && (rows[k].RatingRow? <==> QuestionKind(st.questions, answers[k].question) == Some(Rating))
                 && rows[k].question == QuestionText(st.questions, answers[k].question)
                 && (rows[k].RatingRow? ==> rows[k].value == answers[k].rating && rows[k].shown == RatingLabel(answers[k].rating))
                 && (rows[k].TextRow? ==> rows[k].text == answers[k].text)
  {
    var answers := DetailAnswers(st, id);
    SortBySorted(AnswersOf(st.answers, id), OrderKey(st.questions));
    DetailRowsShape(st.questions, answers);
  }
}
