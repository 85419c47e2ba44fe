# Course evaluation: a Dafny model

The system is a Django application for anonymous course evaluations at a university.

- **Student wizard.** A student picks an academic group and a language. They then step through the professors assigned to the group, evaluating each one or skipping the ones that are not theirs. A pass ends either at a thank-you page or, for groups above the first semester, after an internship questionnaire. A completed pass counts one more participating student for the group.
- **Administration.** A custom admin area and the Django admin rank professors by their average rating, where lower is better (1 is "Strongly Agree", 5 is "Strongly Disagree" and 6 means "Not Applicable"). They also show participation rates, reconcile which professors teach which groups, and guard deletes of records that others still depend on.

The model replaces the database with a value `Models.Store`: one sequence per table, plus the next primary key. It replaces the session with a `Views.Session` record of three optional keys. An HTTP response becomes an outcome, which is a page or a redirect target.

The modules follow the source files:

- `Models` (`evaluations/models.py`) holds the records and their field and uniqueness constraints as `Valid`. It also holds the language lookup of question texts and the per-survey average.
- `Forms` (`evaluations/forms.py`) holds the class `DynamicForm`, whose constructor builds one field per active question. It also holds the validation of a submitted form (`Clean`). A text field is stripped of surrounding whitespace, as Django's CharField does by default, so a blank comment is saved as ''. A text holding a NUL character is rejected, as by the CharField's null-character validator.
- `Views` (`evaluations/views.py`) holds the four student views, each as a method proved equal to a step function. It also holds the lemmas about whole passes through the wizard.
- `Aggregation` holds what several admin pages share: the per-professor mean of the positive survey averages (with the accumulating loop as a method) and Python's `list.sort` by key as an insertion sort.
- `AdminViews` (`evaluations/admin_views.py`) holds:
  - the dashboard ranking and participation figures;
  - the professors rating report;
  - `assignment_add`;
  - the guarded deletes and `group_add`;
  - the survey detail page.
- `Admin` (`evaluations/admin.py`) holds the list-column helpers: colours, previews and shown answer values.
- `CustomAdmin` (`evaluations/custom_admin.py`) holds the dashboard of the custom admin site.

Averages are exact `real` numbers. Rounding for display is not modelled.

## Model

| member | source | states |
|---|---|---|
| Models.GetText | evaluations/models.py:189-195 | 'uz' gives the Uzbek text and 'ru' the Russian one. Every other code, including the default, gives the English text. The same holds for InternshipQuestion.get_text. |
| Models.QuestionKind | evaluations/views.py:89-91 | The type of a question is found exactly when a question with that primary key exists, and it is that question's type. |
| Models.AnswersOf | evaluations/models.py:226 | The answers of a survey are exactly the rows of the answer table that belong to it. |
| Models.AnswersOfAppend | evaluations/models.py:226 | A survey's answers keep table order. Two tables one after the other give the answers of the first, then those of the second. |
| Models.EligibleRatings | evaluations/models.py:226-228 | The ratings that take part in an average are never more than the answers. |
| Models.EligibleRatingsAppend | evaluations/models.py:226-228 | The averaged ratings keep answer order. Two tables one after the other give the ratings of the first, then those of the second. |
| Models.EligibleRatingsMembers | evaluations/models.py:226-228 | A value takes part in the average exactly when it is the rating of an answer to a rating question that is neither null nor Not Applicable. |
| Models.Mean | evaluations/models.py:230-233 | The mean of no values is 0. Otherwise mean × count equals the sum. |
| Models.RatingAverage | evaluations/models.py:224-233 | The average is 0 when no eligible rating remains. Otherwise average × count equals the sum of the eligible ratings (rating questions only, without Not Applicable). |
| Models.EligibleRatingsInRange | evaluations/models.py:263-269 | With the 1..6 validator on the stored ratings, every eligible rating lies in 1..5. |
| Models.RatingAverageRange | evaluations/models.py:230-233 | The average is 0 exactly when nothing eligible remains. Otherwise it lies in [1, 5]. |
| Models.RatingAverageIgnoresIneligible | evaluations/models.py:226-228 | Adding a text answer, a null rating or a Not Applicable rating never changes a survey's average. |
| Models.SurveyAverageIgnoresIneligible | evaluations/models.py:226-228 | The same statement for a survey's average in a whole store. |
| Models.InternshipAverageIgnoresIneligible | evaluations/models.py:366-369 | An internship answer that is null, Not Applicable or to a non-rating question leaves the internship average unchanged. |
| Models.SurveyAverageRange | evaluations/models.py:224-233 | In a valid store, the survey average and the internship survey average are each 0 exactly when nothing eligible remains. Otherwise each lies in [1, 5]. |
| Models.RatingAverageExamples | evaluations/models.py:230-233 | Ratings 1, 2 and N/A average 1.5. N/A alone gives 0. |
| Models.AsWrittenSelected | evaluations/models.py:226-228 | The as-written selection is exactly the answers to rating questions whose rating is not 6. Null ratings stay in it. |
| Models.AsWrittenSumRaises | evaluations/models.py:231 | The as-written `sum` fails exactly when some answer to a rating question has a null rating. |
| Models.AsWrittenSumValue | evaluations/models.py:230-233 | When the as-written `sum` succeeds, it equals the sum of the eligible ratings, and the selection has as many answers as there are eligible ratings. |
| Models.SurveyAverageAsWritten | evaluations/models.py:224-233 | As written, the average fails exactly when some answer to a rating question has a null rating. Otherwise it equals the corrected average. |
| Models.EligibleWhenNoNulls | evaluations/models.py:226-228 | Without null ratings, the as-written filter (rating type, not 6) selects exactly the eligible answers. |
| Models.AsWrittenRaisesOnNullRating | evaluations/models.py:231 | A rating question that holds a text answer with a null rating makes the as-written sum fail, where the corrected average is 0. |
| Forms.ChoiceString | evaluations/forms.py:70-71 | The posted string of a choice value is one character and reads back as that value. |
| Forms.FieldFor | evaluations/forms.py:65-86 | A question's field is named `question_<id>` and labelled with the question's text in the form's language. It is a required choice over exactly the six rating values for a rating question, and an optional text field otherwise. |
| Forms.ActiveQuestions | evaluations/forms.py:63 | The active questions are exactly the questions with `is_active`. |
| Forms.DynamicForm.constructor | evaluations/forms.py:58-86 | The constructor keeps the language, and its loop inserts exactly the fields `FormFields` describes. |
| Forms.FieldsShape | evaluations/forms.py:65-86 | There is one field per question, in question order. |
| Forms.FieldsCoverActive | evaluations/forms.py:63-66 | With distinct ids, a question has a field `question_<id>` exactly when it is active. |
| Forms.FormFieldsOnePerActiveQuestion | evaluations/forms.py:63-86 | The form has one field per active question and distinct field names. Each label is `get_text(language)`. A field is required and offers the six rating choices exactly when its question is a rating question. |
| Forms.StripStart | evaluations/forms.py:78-86 | `lstrip` never lengthens a text and leaves it starting with a non-whitespace character or empty. |
| Forms.StripEnd | evaluations/forms.py:78-86 | `rstrip` never lengthens a text and leaves it ending with a non-whitespace character or empty. |
| Forms.StripStartShape | evaluations/forms.py:78-86 | `lstrip` keeps a suffix of the text and removes only whitespace. |
| Forms.StripEndShape | evaluations/forms.py:78-86 | `rstrip` keeps a prefix of the text and removes only whitespace. |
| Forms.StripIsInfix | evaluations/forms.py:78-86 | The stripped text is a contiguous piece of the original, and everything cut off at either end is whitespace. |
| Forms.StripIsStripped | evaluations/forms.py:78-86 | A stripped text has no whitespace at either end. |
| Forms.StripEmpty | evaluations/forms.py:78-86 | Stripping leaves nothing exactly when the text is all whitespace. |
| Forms.StripIdempotent | evaluations/forms.py:78-86 | Stripping twice gives the same as stripping once. |
| Forms.StripStable | evaluations/forms.py:78-86 | A text without whitespace at its ends is left as it is. |
| Forms.StripKeepsNul | evaluations/forms.py:78-86 | The stripped text holds a NUL character exactly when the posted text does, because NUL is not whitespace. |
| Forms.CleanField | evaluations/forms.py:68-86 | A required choice field cleans exactly when a choice string was posted, and a non-empty result is that string. An optional text field cleans exactly when its stripped text holds no NUL character. A cleaned text is the posted text stripped of surrounding whitespace, with no NUL and no whitespace at its ends. |
| Forms.Clean | evaluations/forms.py:68-86 | Validation succeeds exactly when every field cleans. The cleaned data then holds one value per field, for that field's question. |
| Forms.CleanFieldFor | evaluations/forms.py:68-86 | A field cleans exactly when its question is answered (rating: one of 1..6; text: no NUL character). A cleaned rating lies in 1..6. An answered text field cleans to the posted text stripped of surrounding whitespace. |
| Forms.BlankCommentCleansEmpty | evaluations/forms.py:78-86 | A comment made only of whitespace, or missing, is saved as ''. Any other comment is saved non-empty. |
| Forms.FieldsClean | evaluations/forms.py:65-86 | The same, field by field, over the whole form. |
| Forms.CleanedWhenAnswered | evaluations/forms.py:68-86 | The form is valid exactly when every active question is answered. |
| Forms.CleanedRatingIsChoice | evaluations/forms.py:70-75 | A valid form yields one cleaned value per active question, in order. Every rating value lies in 1..6. |
| Forms.LanguageChoicesSelectTranslations | evaluations/forms.py:24-35 | The language choices are exactly 'en', 'uz' and 'ru', with initial 'en', and they select the three translations of a question. |
| Views.GroupIndex | evaluations/views.py:35 | A group is found exactly when a row with that id exists. |
| Views.ProfessorsOf | evaluations/views.py:38-39 | A professor is listed exactly when they are assigned to the group. |
| Views.ProfessorsOfAppend | evaluations/views.py:38-39 | The professors come in assignment-table order. Listing two tables one after the other gives the professors of the first, then those of the second. |
| Views.HomeStep | evaluations/views.py:10-25 | `home` never changes a table and ends at home or at the survey. It reaches the survey only for an existing group and an offered language, with the cursor at the first professor. Staying home keeps the session. |
| Views.SurveyStep | evaluations/views.py:28-145 | `survey` never changes the catalogue, only appends to the evaluation tables, adds at most one survey and leaves the internship tables alone. Without a group, or for an unknown group, it changes neither store nor session. |
| Views.EvaluationSaved | evaluations/views.py:80-127 | A saved evaluation appends exactly one survey, for the session's group and the given professor, keeps the catalogue and leaves the internship tables alone. |
| Views.InternshipStep | evaluations/views.py:199-265 | `internship_survey` never changes the catalogue or the evaluation tables and adds at most one internship survey. Without a group, or for an unknown group, it changes neither store nor session. |
| Views.InternshipSaved | evaluations/views.py:232-263 | A saved internship survey appends exactly one internship survey for the session's group and keeps the catalogue and the evaluation tables. |
| Views.ThankYouStep | evaluations/views.py:151-155 | The thank-you page clears all three session keys and changes no table. |
| Views.CreateAnswers | evaluations/views.py:86-102 | The answer loop appends the answers of the cleaned data to the table, in order. |
| Views.SaveEvaluation | evaluations/views.py:80-127 | Saving an evaluation gives the result `EvaluationSaved` describes. |
| Views.SurveyView | evaluations/views.py:28-145 | The survey view gives the result of the wizard step `SurveyStep`. |
| Views.SaveInternship | evaluations/views.py:232-263 | Saving an internship survey gives the result `InternshipSaved` describes. |
| Views.InternshipSurveyView | evaluations/views.py:199-265 | The internship view gives the result of `InternshipStep`. |
| Views.HomeSelectsGroup | evaluations/views.py:12-21 | A valid group and language set the session to (group, language, index 0) and lead to the survey. Anything else stays home with nothing changed. |
| Views.NoGroupGoesHome | evaluations/views.py:31-33 | Without a group id, the survey and internship views both redirect home and change nothing. |
| Views.NoProfessorsGoesHome | evaluations/views.py:41-43 | A group without professors redirects home and creates no survey. |
| Views.ExhaustedGoesThankYou | evaluations/views.py:49-50 | An index at or beyond the number of professors leads to thank-you with nothing changed. |
| Views.SkipOnlyAdvances | evaluations/views.py:71-74 | "Not my professor" only advances the index by one. No table changes. |
| Views.AnswersForShape | evaluations/views.py:86-102 | One answer row per cleaned value, in order. |
| Views.ActiveQuestionKind | evaluations/views.py:89-91 | The question looked up for a field of the form has that field's question type. |
| Views.SavedAnswers | evaluations/views.py:86-102 | A valid submit saves one answer per active question. A rating answer holds `int(value)` and no text; a text answer holds the text and no rating. |
| Views.SubmitRecordsSurvey | evaluations/views.py:77-102 | A valid submit records one survey for (group, current professor) with its answers. Apart from participation, nothing else changes. |
| Views.EvaluationSavedRecords | evaluations/views.py:80-105 | Saving an evaluation changes the tables only as `RecordSurvey` does, apart from participation. |
| Views.RecordSurveyRows | evaluations/views.py:80-102 | Recording adds exactly one survey and, after the old answers, one answer per active question. It changes no other table. |
| Views.SurveyStepParticipation | evaluations/views.py:105-125 | A survey step raises participation only when submitting the last professor of a first-semester group. It then raises it by one, ends at thank-you and clears group and index. Leaving for the internship page keeps the groups and drops only the index, for semester > 1. |
| Views.InternshipStepEffect | evaluations/views.py:206-263 | Semester ≤ 1 goes to thank-you with nothing changed. Any other non-thank-you outcome changes nothing. A valid submit adds one internship survey and its answers, raises participation by one and clears the group id, so a repeated submit goes home. |
| Views.CountParticipationValid | evaluations/views.py:117-119 | Raising participation keeps the store valid. |
| Views.RecordSurveyValid | evaluations/views.py:80-102 | Recording a survey keeps ratings in 1..6, answers unique per (survey, question), and every other constraint. |
| Views.RecordInternshipValid | evaluations/views.py:232-253 | The same for an internship survey. |
| Views.SurveyStepValid | evaluations/views.py:28-145 | A survey step keeps the store valid and raises at most one group's participation by one. |
| Views.InternshipStepValid | evaluations/views.py:199-265 | The same for the internship step. |
| Views.StepKeepsStoreValid | evaluations/views.py:10-155 | Every student view keeps the store valid and raises at most one group's count by one. |
| Views.PassPrefix | evaluations/views.py:46-127 | Before the last professor, any mix of skips and valid submits stays on the survey page at index = number of decisions. It changes no group and adds one survey per submit. |
| Views.LastProfessor | evaluations/views.py:105-125 | At the last professor, a skip only moves the index past the end. A submit ends at thank-you with +1 for semester 1, or at the internship page with no change for semester > 1. |
| Views.CompletedPass | evaluations/views.py:105-125 | A whole pass adds one survey per submit. Ending with a skip leads to thank-you with no count. Ending with a submit counts exactly one participant: directly in semester 1, or, in later semesters, after a valid internship submission. |
| Views.InternshipSubmitCounts | evaluations/views.py:228-263 | A valid internship submit ends at thank-you, raises participation by one and adds one internship survey. |
| Aggregation.Positives | evaluations/admin_views.py:68-72 | The kept averages are never more than the survey averages. |
| Aggregation.PositiveMean | evaluations/admin_views.py:66-74 | There is no rating exactly when no survey average is positive. Otherwise rating × count equals the sum of the positive averages. |
| Aggregation.PositivesMembers | evaluations/admin_views.py:70-72 | The kept averages are exactly the positive ones. |
| Aggregation.PositiveMeanRange | evaluations/admin_views.py:73-74 | When the averages are 0 or in [lo, hi], the rating is absent exactly when all are 0, and otherwise lies in [lo, hi]. |
| Aggregation.PositiveMeanIgnoresZero | evaluations/admin_views.py:70 | A survey with average 0 does not change a professor's rating. |
| Aggregation.SurveysOf | evaluations/admin_views.py:64 | `prof.surveys` holds exactly that professor's surveys. |
| Aggregation.SurveysOfAppend | evaluations/admin_views.py:64 | The surveys come in table order. Filtering two tables one after the other concatenates the two results. |
| Aggregation.SurveyAverages | evaluations/admin_views.py:68-69 | There is one average per survey. |
| Aggregation.SurveyAveragesMembers | evaluations/admin_views.py:68-69 | Every survey's average is in the list, and every listed value is the average of some survey. |
| Aggregation.AccumulatePositive | evaluations/admin_views.py:66-72 | The loop's `total_avg` and `count` are the sum and the number of the positive survey averages. |
| Aggregation.ProfessorRatingRange | evaluations/admin_views.py:65-74 | In a valid store, a professor is unrated exactly when all their survey averages are 0. Otherwise the rating lies in [1, 5]. |
| Aggregation.SortBy | evaluations/admin_views.py:83 | Sorting keeps the length and is a permutation. |
| Aggregation.Take | evaluations/admin_views.py:84 | `[:n]` is the prefix of length min(n, len). |
| Aggregation.SortBySorted | evaluations/admin_views.py:83 | The sorted list is ascending by key. |
| Aggregation.TakeSortedIsLowest | evaluations/admin_views.py:83-84 | The first n of the sorted list are ascending and drawn from the input. No element left out has a lower key than one kept. |
| AdminViews.TopProfessors | evaluations/admin_views.py:62-84 | The dashboard loop, sort and cut give the first five of the rated rows sorted by rating. |
| AdminViews.RowForMembers | evaluations/admin_views.py:64-81 | A professor contributes a row exactly when they have a rating. The row holds that rating and their survey count. |
| AdminViews.RatedRowsMembers | evaluations/admin_views.py:62-81 | The rows are exactly the rated professors' rows. |
| AdminViews.RatedRowsRange | evaluations/admin_views.py:73-79 | In a valid store, every listed rating lies in [1, 5]. |
| AdminViews.TopProfessorsRanked | evaluations/admin_views.py:83-84 | At most five rows, ascending, each a listed professor's rating in [1, 5]. |
| AdminViews.TopProfessorsOmitUnrated | evaluations/admin_views.py:73 | A professor without a positive survey average never appears. |
| AdminViews.TopProfessorsAreLowest | evaluations/admin_views.py:83-84 | A rated professor left out has a rating no lower than any listed one. |
| AdminViews.RateBounds | evaluations/admin_views.py:92-94 | The rate is 0 without students. Otherwise rate × total = 100 × participated. It is at least 0, and at most 100 when participated ≤ total. |
| AdminViews.GroupParticipation | evaluations/admin_views.py:189-209 | Gives one rate per group, the two sums and the overall rate. |
| AdminViews.DashboardParticipation | evaluations/admin_views.py:53-101 | Gives the two sums and the rates of the first five groups. |
| AdminViews.TotalsBounds | evaluations/admin_views.py:207-208 | With valid groups both sums are at least 0. Participated ≤ total when that holds per group. |
| AdminViews.OverallRateBounds | evaluations/admin_views.py:207-209 | The overall rate lies in [0, 100]. With students, overall × Σtotal = 100 × Σparticipated. |
| AdminViews.CountedTotals | evaluations/views.py:117-119 | A counted participant raises Σparticipated by one and leaves Σtotal. |
| AdminViews.CountingRaisesRate | evaluations/admin_views.py:193-195 | A counted participant strictly raises that group's rate when it has students, and leaves every other group unchanged. |
| AdminViews.RatingQuestions | evaluations/admin_views.py:867 | The report's questions are exactly the active rating questions. |
| AdminViews.TextQuestion | evaluations/admin_views.py:868 | The comment question is the first active text question in catalogue order. There is none exactly when no such question exists. |
| AdminViews.QuestionAverages | evaluations/admin_views.py:892-906 | There is one average per rating question. |
| AdminViews.QuestionAveragesShape | evaluations/admin_views.py:892-906 | The k-th average is the average of the k-th rating question. |
| AdminViews.QuestionAveragesRange | evaluations/admin_views.py:892-906 | Each per-question average is 0 exactly when nothing pools for that question, and otherwise lies in [1, 5]. |
| AdminViews.Comments | evaluations/admin_views.py:912-918 | The comments are exactly the non-empty texts of the professor's answers to the comment question. |
| AdminViews.CommentsAppend | evaluations/admin_views.py:912-918 | The comments keep answer-table order. Two tables one after the other give the comments of the first, then those of the second. |
| AdminViews.RateProfessor | evaluations/admin_views.py:889-909 | The question loop yields the per-question averages and the overall score. |
| AdminViews.ProfessorsRating | evaluations/admin_views.py:862-923 | The report is the rows of the professors with surveys, sorted by overall score. |
| AdminViews.PooledInRange | evaluations/admin_views.py:894-898 | Every pooled rating lies in 1..5. |
| AdminViews.QuestionAverageRange | evaluations/admin_views.py:900-906 | A question's average is 0 exactly when nothing pools for it. Otherwise it lies in [1, 5]. |
| AdminViews.AnsweredAveragesRange | evaluations/admin_views.py:900-904 | The answered averages lie in [1, 5]. There are none exactly when no question had answers. |
| AdminViews.OverallAverageRange | evaluations/admin_views.py:909 | The overall score is 0 exactly when no question had answers. Otherwise it lies in [1, 5]. |
| AdminViews.OverallIgnoresUnanswered | evaluations/admin_views.py:905-909 | A question without answers shows 0 and leaves the overall score unchanged. |
| AdminViews.RatingRowsMembers | evaluations/admin_views.py:875-920 | Rows are exactly the professors with at least one survey. |
| AdminViews.ProfessorsRatingReport | evaluations/admin_views.py:875-923 | The report is ascending by overall score and a permutation of the rows. It has exactly one row per professor with surveys, one average per question, the k-th being that professor's average for the k-th question and 0 or in [1, 5], and an overall score of 0 or in [1, 5]. |
| AdminViews.Filter | evaluations/admin_views.py:450 | A queryset delete keeps exactly the rows that do not match. |
| AdminViews.FilterAssignmentsUnique | evaluations/admin_views.py:450 | Deleting assignments keeps (group, professor) unique. |
| AdminViews.AnswersWithout | evaluations/admin_views.py:402 | Exactly the answers of other surveys remain. |
| AdminViews.GroupsOf | evaluations/admin_views.py:437-438 | The professor's group set is exactly the groups of their rows. |
| AdminViews.AppendUnique | evaluations/admin_views.py:447 | Creating a row that is not present keeps (group, professor) unique. |
| AdminViews.AssignmentAdd | evaluations/admin_views.py:421-453 | The outcome is a form error exactly when no professor is given, and then nothing changes. An unknown professor gives 404 and changes nothing. Other professors' rows and all other tables never change, and uniqueness is kept. On success the professor's groups are exactly the selection. A 404 on a missing group leaves the rows created before it and removes none. Each of those rows is for the professor and an existing selected group. |
| AdminViews.SchoolDelete | evaluations/admin_views.py:613-627 | The delete succeeds exactly for an existing school without departments or professors, on POST. A school with departments is never deleted. On success only that school goes. |
| AdminViews.GuardedQuestionDelete | evaluations/admin_views.py:692-706 | The delete succeeds exactly for an existing question without answers, on POST. On success only that question goes. |
| AdminViews.SurveyDelete | evaluations/admin_views.py:396-408 | On POST an existing survey and exactly its answers are removed. Nothing else changes. |
| AdminViews.InternshipSurveyDelete | evaluations/admin_views.py:845-857 | The same for an internship survey and its answers. |
| AdminViews.AnswersOfFiltered | evaluations/admin_views.py:402 | Deleting one survey's answers leaves every other survey's answers as they were. |
| AdminViews.AnswersOfRemoved | evaluations/admin_views.py:402 | No answer of the deleted survey remains. |
| AdminViews.SurveyDeleteEffect | evaluations/admin_views.py:400-404 | After a survey delete it has no answers, and every other survey's average is unchanged. |
| AdminViews.DeletesKeepValid | evaluations/admin_views.py:613-627 | School and question deletes keep the store valid. |
| AdminViews.SurveyDeletesKeepValid | evaluations/admin_views.py:396-408 | Survey and internship survey deletes keep the store valid. |
| AdminViews.AnsweredQuestionsStay | evaluations/admin_views.py:697-699 | A question that has answers is never deleted. |
| AdminViews.GroupAdd | evaluations/admin_views.py:129-147 | The group is created exactly when the department exists and the name is new (otherwise 404 or the unique constraint). It appends one group with 0 participants. |
| AdminViews.GroupAddEffect | evaluations/admin_views.py:139-145 | A new group has rate 0 and leaves Σparticipated unchanged. The store stays valid exactly when semester is in 1..8 and the student count ≥ 0, since nothing validates them. |
| AdminViews.AppendedGroupValid | evaluations/models.py:67-82 | An added group keeps the store valid exactly when its fields satisfy the validators. |
| AdminViews.RatingLabelsDistinct | evaluations/admin_views.py:363-375 | The six labels are distinct, and 'N/A' is shown exactly for a null or out-of-range value. |
| AdminViews.DetailRows | evaluations/admin_views.py:360-383 | There is one row per answer. |
| AdminViews.SurveyDetail | evaluations/admin_views.py:352-391 | The page is 404 exactly for an unknown survey. Otherwise it shows the rows of its answers ordered by question and the survey's average. |
| AdminViews.SurveyDetailRows | evaluations/admin_views.py:357-383 | The rows are a permutation of the survey's answers ordered by question order. A rating row carries the value and its label; a text row carries the text. |
| Admin.RateColourMonotone | evaluations/admin.py:27 | A higher participation rate never gets a worse colour. |
| Admin.ParticipationRate | evaluations/admin.py:24-32 | The column shows '0%' exactly without students. Otherwise it shows the same rate as the participation page, at least 0, green exactly from 70 and red exactly below 50. |
| Admin.RatingColourMonotone | evaluations/admin.py:66 | A lower average never gets a worse colour. |
| Admin.ProfessorAverageRating | evaluations/admin.py:51-71 | The column's loop shows the coloured mean of the positive survey averages, or 'N/A'. |
| Admin.ProfessorAverageRatingShown | evaluations/admin.py:52-71 | 'N/A' is shown exactly when no survey average is positive, in particular without surveys. Otherwise the value lies in [1, 5]. |
| Admin.AverageRatingDisplay | evaluations/admin.py:202-210 | 'N/A' is shown exactly when the survey's average is not positive. Otherwise the average is shown with the colour a professor's average of the same value gets. |
| Admin.AverageRatingDisplayShown | evaluations/admin.py:202-210 | 'N/A' is shown exactly when the survey has nothing eligible. Otherwise its average, in [1, 5]. |
| Admin.Preview | evaluations/admin.py:167-168 | A short text is shown unchanged. A long one is shown as its first n characters plus '...', so a preview is never longer than n + 3. |
| Admin.PreviewIdempotent | evaluations/admin.py:167-168 | Previewing a preview again, with room for the ellipsis, changes nothing. |
| Admin.TextEnPreview | evaluations/admin.py:167-168 | The English text is shown whole up to 80 characters. A longer one is shown as its first 80 characters and '...', never more than 83 in all. |
| Admin.QuestionPreview | evaluations/admin.py:221-222 | The answered question's English text is shown whole up to 50 characters. A longer one is shown as its first 50 characters and '...', never more than 53 in all. |
| Admin.RatingValueDisplay | evaluations/admin.py:227 | For a stored choice 1..6 the label equals the survey detail page's label. Any other value is shown as itself. |
| Admin.RatingDisplaysAgree | evaluations/admin.py:227 | A rating 1..6 is shown as one digit that the form reads back as the value. |
| Admin.RatingAnswerShown | evaluations/admin.py:226-227 | A rating answer is shown as its digit, ' - ' and its label. |
| Admin.GetAnswerValue | evaluations/admin.py:225-228 | A rating answer is shown as its value, ' - ' and its label. Any other answer is shown as exactly the first 50 characters of its text (all of it when shorter), or '' without text. |
| CustomAdmin.Candidates | evaluations/custom_admin.py:32 | The candidates are the first five professors in table order, or all of them when there are fewer. |
| CustomAdmin.IndexTopProfessors | evaluations/custom_admin.py:31-52 | The index loop, sort and cut run over the first five professors only. |
| CustomAdmin.IndexTopProfessorsListed | evaluations/custom_admin.py:32-52 | The list is ascending with at most five rows, and its rows are exactly the rated ones among the first five professors, each in [1, 5]. |

## Left out

- **HTTP, templates and messages.** A redirect or a rendered page is an outcome value. Login, logout and the `login_required` / `user_passes_test` decorators are not modelled. This includes their predicate `is_admin` (staff or superuser, `evaluations/admin_views.py:11-13`), since no modelled operation depends on the user. The question list and the progress percentage that the survey page renders are not modelled.
- **ORM mechanics.** Querysets are sequences. Meta `ordering` is taken to be the order of the sequences in the store. For example, professors are kept in `full_name` order, which `CustomAdmin.Candidates` relies on, and `GroupAdd` appends rather than re-sorting by `group_name`.
- AdminViews.AssignmentAdd: new `GroupProfessor` rows are appended to the assignment table. The source lists a group's professors through the Meta ordering `['group', 'professor']` (`evaluations/models.py:138`), which sorts them by the professor's `full_name`. `Views.ProfessorsOf` keeps table order, so after an `assignment_add` the model's wizard visits the new professor last, where the source places them in name order. Which professor sits at a given session index can therefore differ.
- **Primary keys.** A single counter `nextId` hands out new primary keys for all tables.
- **`Valid` does not cover answer–question references.** It does not require that an answer refer to an existing question.
- **`round(..., 1/2)`, `format_html` and f-string formatting.** Averages and rates are exact `real` numbers, and a coloured cell is the pair of colour and number.
- **`transaction.atomic`** around the participation increment, and concurrent submissions. The increment is a sequential +1.
- **Parsing of POST values.** `int(...)` parsing of POST values is not modelled. A `ValueError` on a non-numeric id or count is out of scope, and ids arrive as numbers.
- **Both `professor_analytics` implementations.** They read per-question fields that the Survey model no longer has.
- **`department_delete`.** It relies on a `department.professors` relation that does not exist.
- **`edit_survey`.** It uses a form the module never imports.
- **`internship_survey_detail`** and the plain list, add and edit views. This covers schools, departments, groups, professors and questions, plus `group_edit`, `group_delete` and `assignment_delete`. They are single-row ORM writes without logic of their own.
- **Custom admin statistics.** The `Count('participated_students')` aggregates, the seven-day survey counts and the recent-activity lists of the custom admin index are not modelled.
- **GET of `assignment_add`.** The pre-selection of a professor's groups on a GET of `assignment_add` is not modelled.
- Aggregation.SortBy: this is a stable insertion sort, but stability is not stated. For professors with equal ratings, the order proved is only "ascending", not Python's stable order.
- AdminViews.TopProfessors: the source sorts on ratings rounded to two places. The model sorts on the exact ratings, so two professors whose ratings round equal may be listed in a different order.
- Models.EligibleRatings: the function's contract states only the length bound. `Models.EligibleRatingsMembers` states which ratings it holds, and `Models.EligibleRatingsAppend` states its order.
- Models.SurveyAverage: every modelled caller of `Survey.get_average_rating` uses this corrected average (`Models.RatingAverage`) instead of the code as written. On the input of the Findings row below, a null `rating_value` on a rating question, each of those pages raises TypeError (a server error) in the source, while the model shows a value. The callers are listed below.
- AdminViews.SurveyDetail (`evaluations/admin_views.py:388`): shows the detail page with the corrected average.
- Aggregation.SurveyAverages (`evaluations/admin_views.py:68-69`): lists the corrected averages.
- Aggregation.AccumulatePositive (`evaluations/admin_views.py:68-69`): adds up the corrected averages.
- AdminViews.TopProfessors (`evaluations/admin_views.py:68-69`): ranks professors on the corrected averages.
- Admin.ProfessorAverageRating (`evaluations/admin.py:59`): computes its column from the corrected averages.
- Admin.AverageRatingDisplay (`evaluations/admin.py:203`): shows the corrected average, or 'N/A' when it is 0.
- CustomAdmin.IndexTopProfessors (`evaluations/custom_admin.py:38`): ranks its candidates on the corrected averages.
- Views.LastProfessor: skipping the last professor moves the index past the end (`evaluations/views.py:71-74`). The next request then leads to thank-you (`evaluations/views.py:49-50`), with neither the internship step nor a participation increment.
- AdminViews.SchoolDelete: the code checks only for departments. A school still referenced by professors (a PROTECT foreign key) ends in a `ProtectedError` outcome, not in the message the department check gives.

## Findings

| source | as written | input that shows it | evidently intended | confidence | as-written member | corrected member |
|---|---|---|---|---|---|---|
| evaluations/models.py:224-233 | `Survey.get_average_rating` filters rating-type answers and excludes 6, but not null ratings. `sum()` then meets `None`. | A rating question (for example, one whose type was changed after text answers were stored) with an answer whose `rating_value` is null | Skip null ratings as `InternshipSurvey.get_average_rating` does. The average is then 0 or lies in [1, 5]. | not executed | Models.AsWrittenRaisesOnNullRating | Models.RatingAverage |
