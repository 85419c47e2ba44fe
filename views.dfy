/**
 * The student-facing survey wizard (evaluations/views.py).  The session holds the selected
 * group, the language and a cursor over the group's assigned professors.  `home` selects a
 * group; `survey` evaluates or skips the professor under the cursor and, after the last one,
 * either routes to the internship survey (semester > 1) or counts the student as
 * participating (semester 1); `internship_survey` records the internship evaluation and
 * counts the student; `thank_you` clears the session.
 *
 * Each view is a function from (store, session, request) to (outcome, store, session);
 * the two views that save answers are also methods with the loop over `cleaned_data`,
 * proved equal to their functions.  Redirects and rendered pages both become the
 * `Outcome` of the page the student sees next.
 */
module Views {
  import opened Wrappers
  import opened Models
  import opened Forms

  /** The session keys survey_group_id, survey_language and survey_professor_index. */
  datatype Session = Session(groupId: Option<nat>, language: Option<string>, professorIndex: Option<nat>)

  const EmptySession: Session := Session(None, None, None)

  /** The page the student lands on: rendered by the view itself or reached by a redirect. */
  datatype Outcome = Home | SurveyPage | InternshipPage | ThankYou | NotFound

  datatype ViewResult = ViewResult(outcome: Outcome, store: Store, session: Session)

  datatype HomeRequest = HomeGet | HomePost(group: Option<nat>, language: string)

  /** A GET, a POST with `skip_professor` ("Not my professor"), or a POST of the evaluation form. */
  datatype SurveyRequest = SurveyGet | SkipProfessor | SubmitEvaluation(post: PostData)

  datatype InternshipRequest = InternshipGet | SubmitInternship(post: PostData)

  // ---------------------------------------------------------------------------
  // Lookups and store updates the views use
  // ---------------------------------------------------------------------------

  /** `if not group_id`: the key is missing, or holds the falsy id 0. */
  predicate NoGroup(sess: Session)
  {
    sess.groupId.None? || sess.groupId.value == 0
  }

  /** `session.get('survey_language', 'en')`. */
  function Language(sess: Session): string
  {
    sess.language.GetOr("en")
  }

  /** The position of the group with primary key `id` (get_object_or_404). */
  function GroupIndex(groups: seq<Group>, id: nat): (i: Option<nat>)
    ensures i.Some? ==> i.value < |groups| && groups[i.value].id == id
    ensures i.None? ==> forall g :: g in groups ==> g.id != id
  {
    if groups == [] then None
    else if groups[0].id == id then Some(0)
    else match GroupIndex(groups[1..], id)
      case None => None
      case Some(k) => Some(k + 1)
  }

  /** The professors assigned to a group, in assignment order. */
  function ProfessorsOf(assignments: seq<Assignment>, group: nat): (ps: seq<nat>)
    ensures forall p :: p in ps ==> Assignment(group, p) in assignments
    ensures forall p :: Assignment(group, p) in assignments ==> p in ps
  {
    if assignments == [] then []
    else (if assignments[0].group == group then [assignments[0].professor] else [])
         + ProfessorsOf(assignments[1..], group)
  }

  /**
   * The professors come in assignment order: the professors of two tables one after the
   * other are those of the first table followed by those of the second.
   */
  lemma {:induction false} ProfessorsOfAppend(a: seq<Assignment>, b: seq<Assignment>, group: nat)
    ensures ProfessorsOf(a + b, group) == ProfessorsOf(a, group) + ProfessorsOf(b, group)
  {
    if a == [] {
      assert a + b == b;
    } else {
      assert (a + b)[0] == a[0] && (a + b)[1..] == a[1..] + b;
      ProfessorsOfAppend(a[1..], b, group);
    }
  }

  /** The Answer (or InternshipAnswer) row saved for one cleaned field. */
  function AnswerFor(survey: nat, c: Cleaned, questions: seq<Question>): Answer
  {
    if QuestionKind(questions, c.question) == Some(Rating)
    then Answer(survey, c.question, Some(RatingOf(c.value)), None)
    else Answer(survey, c.question, None, Some(c.value))
  }

  /** The answer rows saved for a whole cleaned form, in field order. */
  function AnswersFor(survey: nat, cleaned: seq<Cleaned>, questions: seq<Question>): seq<Answer>
  {
    if cleaned == [] then []
    else AnswersFor(survey, cleaned[..|cleaned| - 1], questions) + [AnswerFor(survey, cleaned[|cleaned| - 1], questions)]
  }

  /** Survey.objects.create plus one Answer per cleaned field. */
  function RecordSurvey(st: Store, group: nat, professor: nat, cleaned: seq<Cleaned>): Store
  {
    st.(surveys := st.surveys + [Survey(st.nextId, group, professor)],
        answers := st.answers + AnswersFor(st.nextId, cleaned, st.questions),
        nextId := st.nextId + 1)
  }

  /** InternshipSurvey.objects.create plus one InternshipAnswer per cleaned field. */
  function RecordInternshipSurvey(st: Store, group: nat, cleaned: seq<Cleaned>): Store
  {
    st.(internshipSurveys := st.internshipSurveys + [InternshipSurvey(st.nextId, group)],
        internshipAnswers := st.internshipAnswers + AnswersFor(st.nextId, cleaned, st.internshipQuestions),
        nextId := st.nextId + 1)
  }

  /** The group table after `groups[i].participated_students += 1`. */
  function Counted(groups: seq<Group>, i: nat): seq<Group>
    requires i < |groups|
  {
    groups[i := groups[i].(participatedStudents := groups[i].participatedStudents + 1)]
  }

  /** `group.participated_students += 1; group.save()`. */
  function CountParticipation(st: Store, i: nat): Store
    requires i < |st.groups|
  {
    st.(groups := Counted(st.groups, i))
  }

  // ---------------------------------------------------------------------------
  // The views
  // ---------------------------------------------------------------------------

  /**
   * The student views never touch the catalogue (schools, departments, professors,
   * assignments, question lists) and only ever append rows to the result tables.
   */
  predicate CataloguesKept(before: Store, after: Store)
  {
    && after.schools == before.schools && after.departments == before.departments
    && after.professors == before.professors && after.assignments == before.assignments
    && after.questions == before.questions && after.internshipQuestions == before.internshipQuestions
    && |after.groups| == |before.groups|
    && before.surveys <= after.surveys && before.answers <= after.answers
    && before.internshipSurveys <= after.internshipSurveys && before.internshipAnswers <= after.internshipAnswers
  }

  /**
   * `home`: the store is left as it is; the wizard starts, at the first professor, only for
   * an existing group and an offered language, and otherwise the form is shown again.
   */
  function HomeStep(st: Store, sess: Session, req: HomeRequest): (r: ViewResult)
    ensures r.store == st
    ensures r.outcome == Home || r.outcome == SurveyPage
    ensures r.outcome == SurveyPage ==>
      && r.session.groupId.Some? && GroupIndex(st.groups, r.session.groupId.value).Some?
      && Language(r.session) in LanguageChoices && r.session.professorIndex == Some(0)
    ensures r.outcome == Home ==> r.session == sess
  {
    match req
    case HomeGet => ViewResult(Home, st, sess)
    case HomePost(group, language) =>
      if group.Some? && GroupIndex(st.groups, group.value).Some? && language in LanguageChoices
      then ViewResult(SurveyPage, st, sess.(groupId := group, language := Some(language), professorIndex := Some(0)))
      else ViewResult(Home, st, sess)
  }

  /**
   * `survey`: one request against the professor under the cursor.  It keeps the catalogue,
   * leaves the internship tables alone, adds at most one survey, and changes nothing when
   * the session has no group or the group does not exist.
   */
  function SurveyStep(st: Store, sess: Session, req: SurveyRequest): (r: ViewResult)
    ensures CataloguesKept(st, r.store)
    ensures r.store.internshipSurveys == st.internshipSurveys && r.store.internshipAnswers == st.internshipAnswers
    ensures |r.store.surveys| <= |st.surveys| + 1
    ensures (NoGroup(sess) || GroupIndex(st.groups, sess.groupId.value).None?) ==> r.store == st && r.session == sess
  {
    if NoGroup(sess) then ViewResult(Home, st, sess)
    else
      var groupId := sess.groupId.value;
      var gi := GroupIndex(st.groups, groupId);
      if gi.None? then ViewResult(NotFound, st, sess)
      else
        var professors := ProfessorsOf(st.assignments, groupId);
        var index := sess.professorIndex.GetOr(0);
        if |professors| == 0 then ViewResult(Home, st, sess)
        else if index >= |professors| then ViewResult(ThankYou, st, sess)
        else match req
          case SurveyGet => ViewResult(SurveyPage, st, sess)
          case SkipProfessor => ViewResult(SurveyPage, st, sess.(professorIndex := Some(index + 1)))
          case SubmitEvaluation(post) =>
            match Clean(FormFields(st.questions, Language(sess)), post)
            case None => ViewResult(SurveyPage, st, sess)
            case Some(cleaned) => EvaluationSaved(st, sess, gi.value, |professors|, professors[index], index, cleaned)
  }

  /**
   * The valid-submission branch of `survey`: save the evaluation of `professor` (at `index`
   * of `count` professors), then move on, route to the internship survey, or finish.
   */
  function EvaluationSaved(st: Store, sess: Session, gi: nat, count: nat, professor: nat, index: nat,
                           cleaned: seq<Cleaned>): (r: ViewResult)
    requires gi < |st.groups| && sess.groupId.Some?
    ensures CataloguesKept(st, r.store)
    ensures r.store.internshipSurveys == st.internshipSurveys && r.store.internshipAnswers == st.internshipAnswers
    ensures r.store.surveys == st.surveys + [Survey(st.nextId, sess.groupId.value, professor)]
  {
    var recorded := RecordSurvey(st, sess.groupId.value, professor, cleaned);
    if index + 1 < count then
      ViewResult(SurveyPage, recorded, sess.(professorIndex := Some(index + 1)))
    else if st.groups[gi].semester > 1 then
      ViewResult(InternshipPage, recorded, sess.(professorIndex := None))
    else
      ViewResult(ThankYou, CountParticipation(recorded, gi), sess.(groupId := None, professorIndex := None))
  }

  /**
   * `internship_survey`: only for semester 2..8; a valid submission counts the student.  It
   * keeps the catalogue, leaves the evaluation tables alone, adds at most one internship
   * survey, and changes nothing when the session has no group or the group does not exist.
   */
  function InternshipStep(st: Store, sess: Session, req: InternshipRequest): (r: ViewResult)
    ensures CataloguesKept(st, r.store)
    ensures r.store.surveys == st.surveys && r.store.answers == st.answers
    ensures |r.store.internshipSurveys| <= |st.internshipSurveys| + 1
    ensures (NoGroup(sess) || GroupIndex(st.groups, sess.groupId.value).None?) ==> r.store == st && r.session == sess
  {
    if NoGroup(sess) then ViewResult(Home, st, sess)
    else
      var groupId := sess.groupId.value;
      var gi := GroupIndex(st.groups, groupId);
      if gi.None? then ViewResult(NotFound, st, sess)
      else if st.groups[gi.value].semester <= 1 then ViewResult(ThankYou, st, sess)
      else match req
        case InternshipGet => ViewResult(InternshipPage, st, sess)
        case SubmitInternship(post) =>
          match Clean(FormFields(st.internshipQuestions, Language(sess)), post)
          case None => ViewResult(InternshipPage, st, sess)
          case Some(cleaned) => InternshipSaved(st, sess, gi.value, cleaned)
  }

  /** The valid-submission branch of `internship_survey`: save, count the student, finish. */
  function InternshipSaved(st: Store, sess: Session, gi: nat, cleaned: seq<Cleaned>): (r: ViewResult)
    requires gi < |st.groups| && sess.groupId.Some?
    ensures CataloguesKept(st, r.store)
    ensures r.store.surveys == st.surveys && r.store.answers == st.answers
    ensures r.store.internshipSurveys == st.internshipSurveys + [InternshipSurvey(st.nextId, sess.groupId.value)]
  {
    ViewResult(ThankYou, CountParticipation(RecordInternshipSurvey(st, sess.groupId.value, cleaned), gi),
               sess.(groupId := None))
  }

  /** `thank_you`: removes all three session keys. */
  function ThankYouStep(st: Store, sess: Session): (r: ViewResult)
    ensures r.session == EmptySession && r.store == st && r.outcome == ThankYou
  {
    ViewResult(ThankYou, st, EmptySession)
  }

  /** The loop over `cleaned_data` of both views, saving one answer row per field. */
  method CreateAnswers(survey: nat, cleaned: seq<Cleaned>, questions: seq<Question>, table: seq<Answer>)
    returns (updated: seq<Answer>)
    ensures updated == table + AnswersFor(survey, cleaned, questions)
  {
    updated := table;
    var i := 0;
    while i < |cleaned|
      invariant 0 <= i <= |cleaned|
      invariant updated == table + AnswersFor(survey, cleaned[..i], questions)
    {
      var c := cleaned[i];
      if QuestionKind(questions, c.question) == Some(Rating) {
        updated := updated + [Answer(survey, c.question, Some(RatingOf(c.value)), None)];
      } else {
        updated := updated + [Answer(survey, c.question, None, Some(c.value))];
      }
      i := i + 1;
      assert cleaned[..i][..i - 1] == cleaned[..i - 1];
    }
    assert cleaned[..|cleaned|] == cleaned;
  }

  /** Saving a valid evaluation: Survey.objects.create, the answer loop, the cursor and the end of the pass. */
  method SaveEvaluation(st: Store, sess: Session, gi: nat, count: nat, professor: nat, index: nat,
                        cleaned: seq<Cleaned>) returns (r: ViewResult)
    requires gi < |st.groups| && sess.groupId.Some?
    ensures r == EvaluationSaved(st, sess, gi, count, professor, index, cleaned)
  {
    var group := st.groups[gi];
    var survey := Survey(st.nextId, sess.groupId.value, professor);
    var answers := CreateAnswers(survey.id, cleaned, st.questions, st.answers);
    var store := st.(surveys := st.surveys + [survey], answers := answers, nextId := st.nextId + 1);
    var session := sess.(professorIndex := Some(index + 1));
    if index + 1 >= count {
      if group.semester > 1 {
        session := session.(professorIndex := None);
        r := ViewResult(InternshipPage, store, session);
      } else {
        store := store.(groups := store.groups[gi := group.(participatedStudents := group.participatedStudents + 1)]);
        session := session.(groupId := None, professorIndex := None);
        r := ViewResult(ThankYou, store, session);
      }
    } else {
      r := ViewResult(SurveyPage, store, session);
    }
  }

  /** The `survey` view, step by step as the source runs it. */
  method SurveyView(st: Store, sess: Session, req: SurveyRequest) returns (r: ViewResult)
    ensures r == SurveyStep(st, sess, req)
  {
    if NoGroup(sess) {
      return ViewResult(Home, st, sess);
    }
    var groupId := sess.groupId.value;
    var gi := GroupIndex(st.groups, groupId);
    if gi.None? {
      return ViewResult(NotFound, st, sess);
    }
    var professors := ProfessorsOf(st.assignments, groupId);
    if |professors| == 0 {
      return ViewResult(Home, st, sess);
    }
    var index := sess.professorIndex.GetOr(0);
    if index >= |professors| {
      return ViewResult(ThankYou, st, sess);
    }
    var current := professors[index];
    match req {
      case SurveyGet =>
        r := ViewResult(SurveyPage, st, sess);
      case SkipProfessor =>
        r := ViewResult(SurveyPage, st, sess.(professorIndex := Some(index + 1)));
      case SubmitEvaluation(post) =>
        var form := new DynamicForm(st.questions, Language(sess));
        var cleaned := Clean(form.fields, post);
        if cleaned.None? {
          r := ViewResult(SurveyPage, st, sess);
        } else {
          r := SaveEvaluation(st, sess, gi.value, |professors|, current, index, cleaned.value);
        }
    }
  }

  /** Saving a valid internship evaluation: create, the answer loop, the counter, the session. */
  method SaveInternship(st: Store, sess: Session, gi: nat, cleaned: seq<Cleaned>) returns (r: ViewResult)
    requires gi < |st.groups| && sess.groupId.Some?
    ensures r == InternshipSaved(st, sess, gi, cleaned)
  {
    var group := st.groups[gi];
    var survey := InternshipSurvey(st.nextId, sess.groupId.value);
    var answers := CreateAnswers(survey.id, cleaned, st.internshipQuestions, st.internshipAnswers);
    var store := st.(internshipSurveys := st.internshipSurveys + [survey], internshipAnswers := answers,
                     nextId := st.nextId + 1);
    store := store.(groups := store.groups[gi := group.(participatedStudents := group.participatedStudents + 1)]);
    r := ViewResult(ThankYou, store, sess.(groupId := None));
  }

  /** The `internship_survey` view, step by step as the source runs it. */
  method InternshipSurveyView(st: Store, sess: Session, req: InternshipRequest) returns (r: ViewResult)
    ensures r == InternshipStep(st, sess, req)
  {
    if NoGroup(sess) {
      return ViewResult(Home, st, sess);
    }
    var gi := GroupIndex(st.groups, sess.groupId.value);
    if gi.None? {
      return ViewResult(NotFound, st, sess);
    }
    if st.groups[gi.value].semester <= 1 {
      return ViewResult(ThankYou, st, sess);
    }
    match req {
      case InternshipGet =>
        r := ViewResult(InternshipPage, st, sess);
      case SubmitInternship(post) =>
        var form := new DynamicForm(st.internshipQuestions, Language(sess));
        var cleaned := Clean(form.fields, post);
        if cleaned.None? {
          r := ViewResult(InternshipPage, st, sess);
        } else {
          r := SaveInternship(st, sess, gi.value, cleaned.value);
        }
    }
  }

  // ---------------------------------------------------------------------------
  // One request at a time
  // ---------------------------------------------------------------------------

  /** A valid selection stores the group and language and puts the cursor on the first professor. */
  lemma HomeSelectsGroup(st: Store, sess: Session, group: nat, language: string)
    ensures var r := HomeStep(st, sess, HomePost(Some(group), language));
            if GroupIndex(st.groups, group).Some? && language in LanguageChoices
            then r.outcome == SurveyPage && r.store == st
                 && r.session == Session(Some(group), Some(language), Some(0))
            else r.outcome == Home && r.store == st && r.session == sess
  {
  }

  /** Without a group in the session both survey views go home and change nothing. */
  lemma NoGroupGoesHome(st: Store, sess: Session, req: SurveyRequest, ireq: InternshipRequest)
    requires NoGroup(sess)
    ensures SurveyStep(st, sess, req) == ViewResult(Home, st, sess)
    ensures InternshipStep(st, sess, ireq) == ViewResult(Home, st, sess)
  {
  }

  /** A group without assigned professors sends the student home and never gets a survey. */
  lemma NoProfessorsGoesHome(st: Store, sess: Session, req: SurveyRequest)
    requires !NoGroup(sess) && GroupIndex(st.groups, sess.groupId.value).Some?
    requires ProfessorsOf(st.assignments, sess.groupId.value) == []
    ensures SurveyStep(st, sess, req) == ViewResult(Home, st, sess)
  {
  }

  /** A cursor at or past the end of the professor list leads to the thank-you page. */
  lemma ExhaustedGoesThankYou(st: Store, sess: Session, req: SurveyRequest)
    requires !NoGroup(sess) && GroupIndex(st.groups, sess.groupId.value).Some?
    requires |ProfessorsOf(st.assignments, sess.groupId.value)| > 0
    requires sess.professorIndex.GetOr(0) >= |ProfessorsOf(st.assignments, sess.groupId.value)|
    ensures SurveyStep(st, sess, req) == ViewResult(ThankYou, st, sess)
  {
  }

  /** "Not my professor" only moves the cursor: no survey, no answer, no participation change. */
  lemma SkipOnlyAdvances(st: Store, sess: Session)
    requires !NoGroup(sess) && GroupIndex(st.groups, sess.groupId.value).Some?
    requires sess.professorIndex.GetOr(0) < |ProfessorsOf(st.assignments, sess.groupId.value)|
    ensures SurveyStep(st, sess, SkipProfessor)
         == ViewResult(SurveyPage, st, sess.(professorIndex := Some(sess.professorIndex.GetOr(0) + 1)))
  {
  }

  lemma {:induction false} AnswersForShape(survey: nat, cleaned: seq<Cleaned>, questions: seq<Question>)
    ensures |AnswersFor(survey, cleaned, questions)| == |cleaned|
    ensures forall k :: 0 <= k < |cleaned| ==>
      AnswersFor(survey, cleaned, questions)[k] == AnswerFor(survey, cleaned[k], questions)
  {
    if cleaned != [] {
      AnswersForShape(survey, cleaned[..|cleaned| - 1], questions);
    }
  }

  lemma {:induction false} QuestionKindOf(qs: seq<Question>, k: nat)
    requires QuestionIdsDistinct(qs) && k < |qs|
    ensures QuestionKind(qs, qs[k].id) == Some(qs[k].kind)
  {
    if k > 0 {
      assert qs[0].id != qs[k].id;
      QuestionKindOf(qs[1..], k - 1);
    }
  }

  lemma ActiveQuestionKind(questions: seq<Question>, k: nat)
    requires QuestionIdsDistinct(questions) && k < |ActiveQuestions(questions)|
    ensures QuestionKind(questions, ActiveQuestions(questions)[k].id) == Some(ActiveQuestions(questions)[k].kind)
  {
    var active := ActiveQuestions(questions);
    assert active[k] in active;
    var j :| 0 <= j < |questions| && questions[j] == active[k];
    QuestionKindOf(questions, j);
  }

  /**
   * The answer row saved for question `q` in survey `survey`: a rating question's answer
   * holds `int(value)` in 1..6 and no text, a text question's answer the text and no rating.
   */
  predicate SavedFor(a: Answer, survey: nat, q: Question)
  {
    && a.survey == survey && a.question == q.id
    && (q.kind == Rating ==> a.text.None? && a.rating.Some? && 1 <= a.rating.value <= 6)
    && (q.kind == Text ==> a.rating.None? && a.text.Some?)
  }

  /** A valid submission saves one answer per active question, in catalogue order. */
  lemma SavedAnswers(questions: seq<Question>, language: string, post: PostData, survey: nat)
    requires QuestionIdsDistinct(questions)
    requires Clean(FormFields(questions, language), post).Some?
    ensures var active := ActiveQuestions(questions);
            var saved := AnswersFor(survey, Clean(FormFields(questions, language), post).value, questions);
            |saved| == |active| && forall k :: 0 <= k < |active| ==> SavedFor(saved[k], survey, active[k])
  {
    var active := ActiveQuestions(questions);
    var cleaned := Clean(FormFields(questions, language), post).value;
    var saved := AnswersFor(survey, cleaned, questions);
    CleanedRatingIsChoice(questions, language, post);
    AnswersForShape(survey, cleaned, questions);
    forall k | 0 <= k < |active|
      ensures SavedFor(saved[k], survey, active[k])
    {
      ActiveQuestionKind(questions, k);
      assert saved[k] == AnswerFor(survey, cleaned[k], questions);
    }
  }

  /**
   * A valid evaluation saves exactly what `RecordSurvey` describes, for the session's group
   * and the professor under the cursor; apart from the group counters (see
   * `SurveyStepParticipation`) nothing else in the store changes.
   */
  lemma SubmitRecordsSurvey(st: Store, sess: Session, post: PostData)
    requires !NoGroup(sess) && GroupIndex(st.groups, sess.groupId.value).Some?
    requires sess.professorIndex.GetOr(0) < |ProfessorsOf(st.assignments, sess.groupId.value)|
    requires Clean(FormFields(st.questions, Language(sess)), post).Some?
    ensures var professors := ProfessorsOf(st.assignments, sess.groupId.value);
            SurveyStep(st, sess, SubmitEvaluation(post)).store.(groups := st.groups)
              == RecordSurvey(st, sess.groupId.value, professors[sess.professorIndex.GetOr(0)],
                              Clean(FormFields(st.questions, Language(sess)), post).value)
  {
    var professors := ProfessorsOf(st.assignments, sess.groupId.value);
    var index := sess.professorIndex.GetOr(0);
    var cleaned := Clean(FormFields(st.questions, Language(sess)), post).value;
    var gi := GroupIndex(st.groups, sess.groupId.value).value;
    SubmitStep(st, sess, post);
    EvaluationSavedRecords(st, sess, gi, |professors|, professors[index], index, cleaned);
  }

  /** A valid submission for a professor under the cursor takes the saving branch. */
  lemma SubmitStep(st: Store, sess: Session, post: PostData)
    requires !NoGroup(sess) && GroupIndex(st.groups, sess.groupId.value).Some?
    requires sess.professorIndex.GetOr(0) < |ProfessorsOf(st.assignments, sess.groupId.value)|
    requires Clean(FormFields(st.questions, Language(sess)), post).Some?
    ensures var professors := ProfessorsOf(st.assignments, sess.groupId.value);
            var index := sess.professorIndex.GetOr(0);
            SurveyStep(st, sess, SubmitEvaluation(post))
              == EvaluationSaved(st, sess, GroupIndex(st.groups, sess.groupId.value).value, |professors|,
                                 professors[index], index, Clean(FormFields(st.questions, Language(sess)), post).value)
  {
    var professors := ProfessorsOf(st.assignments, sess.groupId.value);
    var cleaned := Clean(FormFields(st.questions, Language(sess)), post);
    assert cleaned == Some(cleaned.value);
    assert |professors| > 0;
  }

  lemma EvaluationSavedRecords(st: Store, sess: Session, gi: nat, count: nat, professor: nat, index: nat,
                               cleaned: seq<Cleaned>)
    requires gi < |st.groups| && sess.groupId.Some?
    ensures EvaluationSaved(st, sess, gi, count, professor, index, cleaned).store.(groups := st.groups)
            == RecordSurvey(st, sess.groupId.value, professor, cleaned)
  {
  }

  /**
   * `RecordSurvey` creates exactly one survey, with the next free id, and exactly one answer
   * per active question of the catalogue after the existing ones, and touches nothing else.
   */
  lemma RecordSurveyRows(st: Store, group: nat, professor: nat, language: string, post: PostData)
    requires QuestionIdsDistinct(st.questions)
    requires Clean(FormFields(st.questions, language), post).Some?
    ensures var r := RecordSurvey(st, group, professor, Clean(FormFields(st.questions, language), post).value);
            var active := ActiveQuestions(st.questions);
            && r.surveys == st.surveys + [Survey(st.nextId, group, professor)]
            && |r.answers| == |st.answers| + |active|
            && r.answers[..|st.answers|] == st.answers
            && (forall k :: 0 <= k < |active| ==> SavedFor(r.answers[|st.answers| + k], st.nextId, active[k]))
            && r.nextId == st.nextId + 1
            && r.groups == st.groups && r.assignments == st.assignments && r.questions == st.questions
            && r.internshipSurveys == st.internshipSurveys && r.internshipAnswers == st.internshipAnswers
  {
    var cleaned := Clean(FormFields(st.questions, language), post).value;
    SavedAnswers(st.questions, language, post, st.nextId);
    AppendedRows(st.answers, AnswersFor(st.nextId, cleaned, st.questions), st.nextId, ActiveQuestions(st.questions));
  }

  lemma AppendedRows(table: seq<Answer>, saved: seq<Answer>, survey: nat, active: seq<Question>)
    requires |saved| == |active| && forall k :: 0 <= k < |active| ==> SavedFor(saved[k], survey, active[k])
    ensures (table + saved)[..|table|] == table
    ensures forall k :: 0 <= k < |active| ==> SavedFor((table + saved)[|table| + k], survey, active[k])
  {
    forall k | 0 <= k < |active|
      ensures SavedFor((table + saved)[|table| + k], survey, active[k])
    {
      assert (table + saved)[|table| + k] == saved[k];
    }
  }

  /**
   * How one `survey` request changes participation: only a valid submission for the last
   * professor of a semester-1 group does, and then by exactly one for the session's group,
   * clearing the group and the cursor from the session; a valid submission for the last
   * professor of a later semester routes to the internship survey, keeping the group in
   * the session and dropping the cursor.
   */
  lemma SurveyStepParticipation(st: Store, sess: Session, req: SurveyRequest)
    ensures var r := SurveyStep(st, sess, req);
            r.store.groups == st.groups
            || (&& !NoGroup(sess)
                && var gi := GroupIndex(st.groups, sess.groupId.value);
                && gi.Some?
                && st.groups[gi.value].semester <= 1
                && req.SubmitEvaluation?
                && sess.professorIndex.GetOr(0) + 1 == |ProfessorsOf(st.assignments, sess.groupId.value)|
                && r.store.groups == Counted(st.groups, gi.value)
                && r.outcome == ThankYou
                && r.session == sess.(groupId := None, professorIndex := None))
    ensures var r := SurveyStep(st, sess, req);
            r.outcome == InternshipPage ==>
              && r.store.groups == st.groups
              && r.session == sess.(professorIndex := None)
              && st.groups[GroupIndex(st.groups, sess.groupId.value).value].semester > 1
  {
  }

  /**
   * `internship_survey`: nothing happens for semester 1; a valid submission creates one
   * internship survey with one answer per active internship question, counts the student
   * once and removes the group from the session, so a repeated submission goes home.
   */
  lemma InternshipStepEffect(st: Store, sess: Session, req: InternshipRequest)
    requires !NoGroup(sess) && GroupIndex(st.groups, sess.groupId.value).Some?
    ensures var gi := GroupIndex(st.groups, sess.groupId.value).value;
            var r := InternshipStep(st, sess, req);
            && (st.groups[gi].semester <= 1 ==> r == ViewResult(ThankYou, st, sess))
            && (r.outcome != ThankYou ==> r.store == st)
            && (r.outcome == ThankYou && st.groups[gi].semester > 1 ==>
                  && req.SubmitInternship?
                  && r.store.internshipSurveys == st.internshipSurveys + [InternshipSurvey(st.nextId, sess.groupId.value)]
                  && |r.store.internshipAnswers| == |st.internshipAnswers| + |ActiveQuestions(st.internshipQuestions)|
                  && r.store.groups == Counted(st.groups, gi)
                  && r.store.surveys == st.surveys && r.store.answers == st.answers
                  && r.session.groupId.None?
                  && InternshipStep(r.store, r.session, req) == ViewResult(Home, r.store, r.session))
  {
    var gi := GroupIndex(st.groups, sess.groupId.value).value;
    var r := InternshipStep(st, sess, req);
    if r.outcome == ThankYou && st.groups[gi].semester > 1 {
      var cleaned := Clean(FormFields(st.internshipQuestions, Language(sess)), req.post).value;
      CleanedRatingIsChoice(st.internshipQuestions, Language(sess), req.post);
      AnswersForShape(st.nextId, cleaned, st.internshipQuestions);
    }
  }

  // ---------------------------------------------------------------------------
  // Any request keeps the store valid and never lowers participation
  // ---------------------------------------------------------------------------

  /** Either the group table is unchanged or exactly one group's counter rose by one. */
  predicate RaisedAtMostOnce(before: seq<Group>, after: seq<Group>)
  {
    after == before || exists i :: 0 <= i < |before| && after == Counted(before, i)
  }

  lemma {:induction false} NewAnswersValid(nextId: nat, cleaned: seq<Cleaned>, questions: seq<Question>,
                                           table: seq<Answer>, active: seq<Question>)
    requires QuestionIdsDistinct(active)
    requires |cleaned| == |active|
    requires forall k :: 0 <= k < |active| ==>
      cleaned[k].question == active[k].id
      && (QuestionKind(questions, cleaned[k].question) == Some(Rating) ==> 1 <= RatingOf(cleaned[k].value) <= 6)
    requires AnswersUnique(table)
    requires forall a :: a in table ==> RatingInRange(a) && a.survey < nextId
    ensures var t := table + AnswersFor(nextId, cleaned, questions);
            && AnswersUnique(t)
            && forall a :: a in t ==> RatingInRange(a) && a.survey < nextId + 1
  {
    var saved := AnswersFor(nextId, cleaned, questions);
    AnswersForShape(nextId, cleaned, questions);
    var t := table + saved;
    forall i, j | 0 <= i < j < |t|
      ensures t[i].survey != t[j].survey || t[i].question != t[j].question
    {
      if j >= |table| && i < |table| {
        assert t[i] in table;
      } else if i >= |table| {
        assert t[i].question == active[i - |table|].id;
        assert t[j].question == active[j - |table|].id;
      }
    }
    forall a | a in t
      ensures RatingInRange(a) && a.survey < nextId + 1
    {
      if a !in table {
        var k :| 0 <= k < |saved| && saved[k] == a;
      }
    }
  }

  /** The answers a valid submission appends keep the answer table valid. */
  lemma AppendedAnswersValid(nextId: nat, questions: seq<Question>, language: string, post: PostData, table: seq<Answer>)
    requires QuestionIdsDistinct(questions)
    requires AnswersUnique(table)
    requires forall a :: a in table ==> RatingInRange(a) && a.survey < nextId
    requires Clean(FormFields(questions, language), post).Some?
    ensures var t := table + AnswersFor(nextId, Clean(FormFields(questions, language), post).value, questions);
            AnswersUnique(t) && forall a :: a in t ==> RatingInRange(a) && a.survey < nextId + 1
  {
    var active := ActiveQuestions(questions);
    var cleaned := Clean(FormFields(questions, language), post).value;
    CleanedRatingIsChoice(questions, language, post);
    ActiveQuestionsDistinct(questions);
    forall k | 0 <= k < |active|
      ensures QuestionKind(questions, cleaned[k].question) == Some(Rating) ==> 1 <= RatingOf(cleaned[k].value) <= 6
    {
      ActiveQuestionKind(questions, k);
    }
    NewAnswersValid(nextId, cleaned, questions, table, active);
  }

  lemma CountParticipationValid(st: Store, i: nat)
    requires Valid(st) && i < |st.groups|
    ensures Valid(CountParticipation(st, i))
  {
    var groups := CountParticipation(st, i).groups;
    forall g | g in groups
      ensures GroupFieldsValid(g)
    {
      var j :| 0 <= j < |groups| && groups[j] == g;
      assert st.groups[j] in st.groups;
    }
  }

  lemma RecordSurveyValid(st: Store, group: nat, professor: nat, language: string, post: PostData)
    requires Valid(st)
    requires Clean(FormFields(st.questions, language), post).Some?
    ensures Valid(RecordSurvey(st, group, professor, Clean(FormFields(st.questions, language), post).value))
  {
    AppendedAnswersValid(st.nextId, st.questions, language, post, st.answers);
  }

  lemma RecordInternshipValid(st: Store, group: nat, language: string, post: PostData)
    requires Valid(st)
    requires Clean(FormFields(st.internshipQuestions, language), post).Some?
    ensures Valid(RecordInternshipSurvey(st, group, Clean(FormFields(st.internshipQuestions, language), post).value))
  {
    AppendedAnswersValid(st.nextId, st.internshipQuestions, language, post, st.internshipAnswers);
  }

  lemma SurveyStepValid(st: Store, sess: Session, req: SurveyRequest)
    requires Valid(st)
    ensures Valid(SurveyStep(st, sess, req).store)
    ensures RaisedAtMostOnce(st.groups, SurveyStep(st, sess, req).store.groups)
  {
    SurveyStepParticipation(st, sess, req);
    if !NoGroup(sess) && req.SubmitEvaluation? && GroupIndex(st.groups, sess.groupId.value).Some? {
      var gi := GroupIndex(st.groups, sess.groupId.value).value;
      var professors := ProfessorsOf(st.assignments, sess.groupId.value);
      var index := sess.professorIndex.GetOr(0);
      var clean := Clean(FormFields(st.questions, Language(sess)), req.post);
      if index < |professors| && clean.Some? {
        SubmitStep(st, sess, req.post);
        RecordSurveyValid(st, sess.groupId.value, professors[index], Language(sess), req.post);
        var recorded := RecordSurvey(st, sess.groupId.value, professors[index], clean.value);
        CountParticipationValid(recorded, gi);
      }
    }
  }

  lemma InternshipStepValid(st: Store, sess: Session, req: InternshipRequest)
    requires Valid(st)
    ensures Valid(InternshipStep(st, sess, req).store)
    ensures RaisedAtMostOnce(st.groups, InternshipStep(st, sess, req).store.groups)
  {
    if !NoGroup(sess) && req.SubmitInternship? && GroupIndex(st.groups, sess.groupId.value).Some? {
      var gi := GroupIndex(st.groups, sess.groupId.value).value;
      var clean := Clean(FormFields(st.internshipQuestions, Language(sess)), req.post);
      if st.groups[gi].semester > 1 && clean.Some? {
        RecordInternshipValid(st, sess.groupId.value, Language(sess), req.post);
        CountParticipationValid(RecordInternshipSurvey(st, sess.groupId.value, clean.value), gi);
      }
    }
  }

  datatype Request = HomeRequest(h: HomeRequest) | SurveyRequest(s: SurveyRequest)
                   | InternshipRequest(i: InternshipRequest) | ThankYouRequest

  /** Any of the four student views. */
  function Step(st: Store, sess: Session, req: Request): ViewResult
  {
    match req
    case HomeRequest(h) => HomeStep(st, sess, h)
    case SurveyRequest(s) => SurveyStep(st, sess, s)
    case InternshipRequest(i) => InternshipStep(st, sess, i)
    case ThankYouRequest => ThankYouStep(st, sess)
  }

  /**
   * Every view keeps the model's constraints (unique answers per question and survey,
   * ratings in 1..6, group validators) and never lowers any group's participation: either
   * the groups are untouched or exactly one group's counter rises by one.
   */
  lemma StepKeepsStoreValid(st: Store, sess: Session, req: Request)
    requires Valid(st)
    ensures Valid(Step(st, sess, req).store)
    ensures RaisedAtMostOnce(st.groups, Step(st, sess, req).store.groups)
  {
    match req {
      case HomeRequest(h) =>
      case ThankYouRequest =>
      case SurveyRequest(s) => SurveyStepValid(st, sess, s);
      case InternshipRequest(i) => InternshipStepValid(st, sess, i);
    }
  }

  // ---------------------------------------------------------------------------
  // A whole pass through the wizard
  // ---------------------------------------------------------------------------

  /** What the student does on one professor's page. */
  datatype Decision = Skip | Submit(post: PostData)

  function ToRequest(d: Decision): SurveyRequest
  {
    match d
    case Skip => SkipProfessor
    case Submit(post) => SubmitEvaluation(post)
  }

  /** The `survey` POSTs of one pass, in order (the GETs between them change nothing). */
  function RunSurvey(st: Store, sess: Session, ds: seq<Decision>): ViewResult
  {
    if ds == [] then ViewResult(SurveyPage, st, sess)
    else
      var r := RunSurvey(st, sess, ds[..|ds| - 1]);
      SurveyStep(r.store, r.session, ToRequest(ds[|ds| - 1]))
  }

  function Submits(ds: seq<Decision>): nat
  {
    if ds == [] then 0 else Submits(ds[..|ds| - 1]) + (if ds[|ds| - 1].Submit? then 1 else 0)
  }

  /** Every submitted form of the pass is valid against the question catalogue. */
  predicate AllValid(questions: seq<Question>, language: string, ds: seq<Decision>)
  {
    forall k :: 0 <= k < |ds| && ds[k].Submit? ==> Clean(FormFields(questions, language), ds[k].post).Some?
  }

  lemma AllValidPrefix(questions: seq<Question>, language: string, ds: seq<Decision>)
    requires ds != [] && AllValid(questions, language, ds)
    ensures AllValid(questions, language, ds[..|ds| - 1])
    ensures ds[|ds| - 1].Submit? ==> Clean(FormFields(questions, language), ds[|ds| - 1].post).Some?
  {
    var init := ds[..|ds| - 1];
    forall k | 0 <= k < |init| && init[k].Submit?
      ensures Clean(FormFields(questions, language), init[k].post).Some?
    {
      assert init[k] == ds[k];
    }
  }

  /**
   * Before the last professor, each decision only moves the cursor on by one and adds one
   * survey per submission; the groups, assignments and catalogues stay as they were.
   */
  lemma {:induction false} PassPrefix(st: Store, group: nat, language: string, ds: seq<Decision>)
    requires group != 0 && GroupIndex(st.groups, group).Some?
    requires |ds| < |ProfessorsOf(st.assignments, group)|
    requires AllValid(st.questions, language, ds)
    ensures var r := RunSurvey(st, Session(Some(group), Some(language), Some(0)), ds);
            && r.outcome == SurveyPage
            && r.session == Session(Some(group), Some(language), Some(|ds|))
            && r.store.groups == st.groups
            && r.store.assignments == st.assignments
            && r.store.questions == st.questions
            && r.store.internshipQuestions == st.internshipQuestions
            && r.store.internshipSurveys == st.internshipSurveys
            && |r.store.surveys| == |st.surveys| + Submits(ds)
  {
    if ds != [] {
      AllValidPrefix(st.questions, language, ds);
      PassPrefix(st, group, language, ds[..|ds| - 1]);
    }
  }

  /**
   * The decision on the last professor: a skip only moves the cursor past the end; an
   * evaluation adds one survey and then counts the student (semester 1) or routes to the
   * internship survey (later semesters).
   */
  lemma LastProfessor(st: Store, sess: Session, d: Decision)
    requires !NoGroup(sess) && GroupIndex(st.groups, sess.groupId.value).Some?
    requires sess.professorIndex == Some(|ProfessorsOf(st.assignments, sess.groupId.value)| - 1)
    requires d.Submit? ==> Clean(FormFields(st.questions, Language(sess)), d.post).Some?
    ensures var gi := GroupIndex(st.groups, sess.groupId.value).value;
            var r := SurveyStep(st, sess, ToRequest(d));
            && |r.store.surveys| == |st.surveys| + (if d.Submit? then 1 else 0)
            && r.store.internshipQuestions == st.internshipQuestions
            && r.store.internshipSurveys == st.internshipSurveys
            && (d.Skip? ==> r.store == st && r.session == sess.(professorIndex := Some(|ProfessorsOf(st.assignments, sess.groupId.value)|)))
            && (d.Submit? && st.groups[gi].semester <= 1 ==>
                  r.outcome == ThankYou && r.store.groups == Counted(st.groups, gi) && r.session.groupId.None?)
            && (d.Submit? && st.groups[gi].semester > 1 ==>
                  r.outcome == InternshipPage && r.store.groups == st.groups && r.session == sess.(professorIndex := None))
  {
  }

  /**
   * One pass over a group's n >= 1 professors (n decisions, every submitted form valid):
   * it creates one survey per submission and
   *  - when the last professor is skipped, leaves participation unchanged and the next
   *    request ends at the thank-you page without the internship step;
   *  - when the last professor is evaluated in semester 1, counts the student exactly once,
   *    clears the group from the session and ends at the thank-you page;
   *  - when the last professor is evaluated in a later semester, counts nobody yet and
   *    routes to the internship survey, whose valid submission then counts the student
   *    exactly once.
   */
  lemma CompletedPass(st: Store, group: nat, language: string, ds: seq<Decision>, ipost: PostData)
    requires group != 0 && GroupIndex(st.groups, group).Some?
    requires |ds| == |ProfessorsOf(st.assignments, group)| > 0
    requires AllValid(st.questions, language, ds)
    ensures var gi := GroupIndex(st.groups, group).value;
            var r := RunSurvey(st, Session(Some(group), Some(language), Some(0)), ds);
            && |r.store.surveys| == |st.surveys| + Submits(ds)
            && (ds[|ds| - 1].Skip? ==>
                  && r.outcome == SurveyPage && r.store.groups == st.groups
                  && SurveyStep(r.store, r.session, SurveyGet) == ViewResult(ThankYou, r.store, r.session))
            && (ds[|ds| - 1].Submit? && st.groups[gi].semester <= 1 ==>
                  && r.outcome == ThankYou && r.store.groups == Counted(st.groups, gi)
                  && r.session.groupId.None?
                  && r.store.internshipSurveys == st.internshipSurveys)
            && (ds[|ds| - 1].Submit? && st.groups[gi].semester > 1 ==>
                  && r.outcome == InternshipPage && r.store.groups == st.groups
                  && r.session == Session(Some(group), Some(language), None)
                  && (Clean(FormFields(st.internshipQuestions, language), ipost).Some? ==>
                      var f := InternshipStep(r.store, r.session, SubmitInternship(ipost));
                      && f.outcome == ThankYou && f.store.groups == Counted(st.groups, gi)
                      && |f.store.internshipSurveys| == |st.internshipSurveys| + 1))
  {
    var init := ds[..|ds| - 1];
    var start := Session(Some(group), Some(language), Some(0));
    AllValidPrefix(st.questions, language, ds);
    PassPrefix(st, group, language, init);
    var mid := RunSurvey(st, start, init);
    LastProfessor(mid.store, mid.session, ds[|ds| - 1]);
    var r := RunSurvey(st, start, ds);
    assert r == SurveyStep(mid.store, mid.session, ToRequest(ds[|ds| - 1]));
    if ds[|ds| - 1].Skip? {
      ExhaustedGoesThankYou(r.store, r.session, SurveyGet);
    } else if st.groups[GroupIndex(st.groups, group).value].semester > 1 {
      assert r.session == Session(Some(group), Some(language), None);
      if Clean(FormFields(st.internshipQuestions, language), ipost).Some? {
        InternshipSubmitCounts(r.store, group, language, ipost);
      }
    }
  }

  /** A valid internship submission right after the last professor counts the student once. */
  lemma InternshipSubmitCounts(st: Store, group: nat, language: string, ipost: PostData)
    requires group != 0 && GroupIndex(st.groups, group).Some?
    requires st.groups[GroupIndex(st.groups, group).value].semester > 1
    requires Clean(FormFields(st.internshipQuestions, language), ipost).Some?
    ensures var f := InternshipStep(st, Session(Some(group), Some(language), None), SubmitInternship(ipost));
            && f.outcome == ThankYou
            && f.store.groups == Counted(st.groups, GroupIndex(st.groups, group).value)
            && |f.store.internshipSurveys| == |st.internshipSurveys| + 1
  {
  }
}
