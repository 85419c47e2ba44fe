/**
 * The survey forms (evaluations/forms.py): the group-and-language selection form and the
 * dynamic evaluation forms, which hold one field `question_<id>` per active question: a
 * required choice over the six rating values for a rating question, an optional free-text
 * field otherwise.  `Clean` is the validation Django runs on a submission (`is_valid` and
 * `cleaned_data`).
 */
module Forms {
  import opened Wrappers
  import opened Models

  /** GroupSelectionForm.language: the offered language codes, and the initial one. */
  const LanguageChoices: seq<string> := ["en", "uz", "ru"]
  const InitialLanguage: string := "en"

  /** The values of Answer.RATING_CHOICES and InternshipAnswer.RATING_CHOICES. */
  const RatingChoices: seq<int> := [1, 2, 3, 4, 5, 6]

  /** The form field named `question_<question>`. */
  datatype FieldName = QuestionField(question: nat)

  /** A ChoiceField over the given values, or a CharField. */
  datatype FieldKind = RatingChoice(choices: seq<int>) | FreeText

  datatype FormField = FormField(name: FieldName, kind: FieldKind, labelText: string, required: bool)

  /** The submitted POST data: the value of every field the browser sent. */
  type PostData = map<FieldName, string>

  /** One entry of `cleaned_data`: the field of question `question` and its cleaned value. */
  datatype Cleaned = Cleaned(question: nat, value: string)

  // ---------------------------------------------------------------------------
  // Rating values as they travel through the form
  // ---------------------------------------------------------------------------

  /** `int(value)` of a one-digit string; other strings never reach it (see `CleanedRatingIsChoice`). */
  function RatingOf(s: string): int
  {
    if |s| == 1 && '0' <= s[0] <= '9' then (s[0] as int) - ('0' as int) else 0
  }

  /** `str(v)` of a one-digit choice value: the string the browser sends back. */
  function ChoiceString(v: int): (s: string)
    requires 0 <= v <= 9
    ensures |s| == 1 && RatingOf(s) == v
  {
    [(('0' as int) + v) as char]
  }

  /** ChoiceField.valid_value: the submitted string is `str(c)` of one of the choices. */
  predicate IsChoice(v: string, choices: seq<int>)
  {
    exists c :: c in choices && 0 <= c <= 9 && v == ChoiceString(c)
  }

  // ---------------------------------------------------------------------------
  // Building the dynamic form
  // ---------------------------------------------------------------------------

  /** The field DynamicSurveyForm (or DynamicInternshipSurveyForm) adds for one question. */
  function FieldFor(q: Question, language: string): (f: FormField)
    ensures f.name == QuestionField(q.id) && f.labelText == GetText(q, language)
    ensures f.required <==> q.kind == Rating
    ensures f.kind.RatingChoice? <==> q.kind == Rating
    ensures f.kind.RatingChoice? ==> f.kind.choices == RatingChoices
  {
    match q.kind
    case Rating => FormField(QuestionField(q.id), RatingChoice(RatingChoices), GetText(q, language), true)
    case Text => FormField(QuestionField(q.id), FreeText, GetText(q, language), false)
  }

  /** `filter(is_active=True)`: the active questions, in catalogue order. */
  function ActiveQuestions(qs: seq<Question>): (act: seq<Question>)
    ensures forall q :: q in act ==> q in qs && q.isActive
    ensures forall q :: q in qs && q.isActive ==> q in act
  {
    if qs == [] then []
    else (if qs[0].isActive then [qs[0]] else []) + ActiveQuestions(qs[1..])
  }

  /** The fields of a form built over `qs`, in insertion order. */
  function Fields(qs: seq<Question>, language: string): seq<FormField>
  {
    if qs == [] then [] else Fields(qs[..|qs| - 1], language) + [FieldFor(qs[|qs| - 1], language)]
  }

  /** The fields of the dynamic form over a question catalogue. */
  function FormFields(questions: seq<Question>, language: string): seq<FormField>
  {
    Fields(ActiveQuestions(questions), language)
  }

  /** DynamicSurveyForm and DynamicInternshipSurveyForm: the same code over two catalogues. */
  class DynamicForm {
    var language: string
    /** `self.fields`; field names are primary keys, so inserting into the dict appends. */
    var fields: seq<FormField>

    constructor (questions: seq<Question>, language: string)
      ensures this.language == language
      ensures fields == FormFields(questions, language)
    {
      var active := ActiveQuestions(questions);
      var built: seq<FormField> := [];
      for i := 0 to |active|
        invariant built == Fields(active[..i], language)
      {
        FieldsStep(active, language, i);
        built := built + [FieldFor(active[i], language)];
      }
      assert active[..|active|] == active;
      this.language := language;
      fields := built;
    }
  }

  lemma FieldsStep(qs: seq<Question>, language: string, i: nat)
    requires i < |qs|
    ensures Fields(qs[..i + 1], language) == Fields(qs[..i], language) + [FieldFor(qs[i], language)]
  {
    assert qs[..i + 1][..i] == qs[..i];
  }

  lemma {:induction false} FieldsShape(qs: seq<Question>, language: string)
    ensures |Fields(qs, language)| == |qs|
    ensures forall k :: 0 <= k < |qs| ==> Fields(qs, language)[k] == FieldFor(qs[k], language)
  {
    if qs != [] {
      FieldsShape(qs[..|qs| - 1], language);
    }
  }

  lemma {:induction false} ActiveQuestionsDistinct(qs: seq<Question>)
    requires QuestionIdsDistinct(qs)
    ensures QuestionIdsDistinct(ActiveQuestions(qs))
  {
    if qs != [] {
      var rest := ActiveQuestions(qs[1..]);
      ActiveQuestionsDistinct(qs[1..]);
      if qs[0].isActive {
        forall j | 0 <= j < |rest|
          ensures rest[j].id != qs[0].id
        {
          assert rest[j] in qs[1..];
        }
        assert ActiveQuestions(qs) == [qs[0]] + rest;
      }
    }
  }

  /** A question of the catalogue has a field exactly when it is active. */
  lemma FieldsCoverActive(questions: seq<Question>, language: string)
    requires QuestionIdsDistinct(questions)
    ensures var fields := FormFields(questions, language);
            forall q :: q in questions ==>
              (q.isActive <==> exists k :: 0 <= k < |fields| && fields[k].name == QuestionField(q.id))
  {
    var fields := FormFields(questions, language);
    var active := ActiveQuestions(questions);
    FieldsShape(active, language);
    forall q | q in questions
      ensures q.isActive <==> exists k :: 0 <= k < |fields| && fields[k].name == QuestionField(q.id)
    {
      if q.isActive {
        var k :| 0 <= k < |active| && active[k] == q;
        assert fields[k].name == QuestionField(q.id);
      }
      if k :| 0 <= k < |fields| && fields[k].name == QuestionField(q.id) {
        assert active[k] in questions && active[k].isActive;
        var i :| 0 <= i < |questions| && questions[i] == q;
        var j :| 0 <= j < |questions| && questions[j] == active[k];
        assert questions[i].id == questions[j].id;
        assert i == j;
      }
    }
  }

  /**
   * The dynamic form has exactly one field per active question, named `question_<id>`, with
   * distinct names; a rating question's field is required with choices exactly 1..6, a text
   * question's field is optional, and every label is the question's text in the form's language.
   */
  lemma FormFieldsOnePerActiveQuestion(questions: seq<Question>, language: string)
    requires QuestionIdsDistinct(questions)
    ensures var fields := FormFields(questions, language);
            var active := ActiveQuestions(questions);
            && |fields| == |active|
            && (forall k :: 0 <= k < |fields| ==>
                 && fields[k].name == QuestionField(active[k].id)
                 && fields[k].labelText == GetText(active[k], language)
                 && (fields[k].required <==> active[k].kind == Rating)
                 && (fields[k].kind.RatingChoice? <==> active[k].kind == Rating)
                 && (fields[k].kind.RatingChoice? ==> fields[k].kind.choices == RatingChoices))
            && (forall i, j :: 0 <= i < j < |fields| ==> fields[i].name != fields[j].name)
            && (forall q :: q in questions ==>
                 (q.isActive <==> exists k :: 0 <= k < |fields| && fields[k].name == QuestionField(q.id)))
  {
    FieldsShape(ActiveQuestions(questions), language);
    ActiveQuestionsDistinct(questions);
    FieldsCoverActive(questions, language);
  }

  // ---------------------------------------------------------------------------
  // Validation
  // ---------------------------------------------------------------------------

  /** `str.isspace()` of one character: the characters Python's `str.strip()` removes. */
  predicate IsSpace(c: char)
  {
    || c == ' ' || '\t' <= c <= '\r' || '\U{001C}' <= c <= '\U{001F}'
    || c == '\U{0085}' || c == '\U{00A0}' || c == '\U{1680}' || '\U{2000}' <= c <= '\U{200A}'
    || c == '\U{2028}' || c == '\U{2029}' || c == '\U{202F}' || c == '\U{205F}' || c == '\U{3000}'
  }

  /** `s.lstrip()`: the text after its leading whitespace. */
  function StripStart(s: string): (r: string)
    ensures |r| <= |s|
    ensures r == [] || !IsSpace(r[0])
  {
    if s != [] && IsSpace(s[0]) then StripStart(s[1..]) else s
  }

  /** `lstrip` keeps a suffix and removes only whitespace. */
  lemma {:induction false} StripStartShape(s: string)
    ensures StripStart(s) == s[|s| - |StripStart(s)|..]
    ensures forall i :: 0 <= i < |s| - |StripStart(s)| ==> IsSpace(s[i])
  {
    if s != [] && IsSpace(s[0]) {
      StripStartShape(s[1..]);
      assert s[1..][|s| - 1 - |StripStart(s)|..] == s[|s| - |StripStart(s)|..];
      forall i | 1 <= i < |s| - |StripStart(s)|
        ensures IsSpace(s[i])
      {
        assert s[i] == s[1..][i - 1];
      }
    }
  }

  /** `s.rstrip()`: the text before its trailing whitespace. */
  function StripEnd(s: string): (r: string)
    ensures |r| <= |s|
    ensures r == [] || !IsSpace(r[|r| - 1])
  {
    if s != [] && IsSpace(s[|s| - 1]) then StripEnd(s[..|s| - 1]) else s
  }

  /** `rstrip` keeps a prefix and removes only whitespace. */
  lemma {:induction false} StripEndShape(s: string)
    ensures StripEnd(s) == s[..|StripEnd(s)|]
    ensures forall i :: |StripEnd(s)| <= i < |s| ==> IsSpace(s[i])
  {
    if s != [] && IsSpace(s[|s| - 1]) {
      StripEndShape(s[..|s| - 1]);
      assert s[..|s| - 1][..|StripEnd(s)|] == s[..|StripEnd(s)|];
      forall i | |StripEnd(s)| <= i < |s| - 1
        ensures IsSpace(s[i])
      {
        assert s[i] == s[..|s| - 1][i];
      }
    }
  }

  /** `s.strip()`, which CharField applies to a submitted text (its default `strip=True`). */
  function Strip(s: string): string
  {
    StripEnd(StripStart(s))
  }

  /** A text with no whitespace at either end. */
  predicate Stripped(t: string)
  {
    t == [] || (!IsSpace(t[0]) && !IsSpace(t[|t| - 1]))
  }

  /** The number of leading whitespace characters `lstrip` removes. */
  function LeadingSpaces(s: string): nat
  {
    |s| - |StripStart(s)|
  }

  /**
   * The stripped text is the piece of the original after its leading whitespace, and
   * everything cut off at either end is whitespace.
   */
  lemma StripIsInfix(s: string)
    ensures LeadingSpaces(s) + |Strip(s)| <= |s|
    ensures Strip(s) == s[LeadingSpaces(s)..LeadingSpaces(s) + |Strip(s)|]
    ensures forall k :: 0 <= k < LeadingSpaces(s) ==> IsSpace(s[k])
    ensures forall k :: LeadingSpaces(s) + |Strip(s)| <= k < |s| ==> IsSpace(s[k])
  {
    var a := StripStart(s);
    var i := LeadingSpaces(s);
    StripStartShape(s);
    StripEndShape(a);
    assert a == s[i..];
    forall k | i + |Strip(s)| <= k < |s|
      ensures IsSpace(s[k])
    {
      assert s[k] == a[k - i];
    }
  }

  /** A stripped text has no whitespace at either end. */
  lemma StripIsStripped(s: string)
    ensures Stripped(Strip(s))
  {
    var a := StripStart(s);
    var r := StripEnd(a);
    StripEndShape(a);
    if r != [] {
      assert r[0] == a[0];
    }
  }

  /** Stripping leaves nothing exactly when the text is all whitespace. */
  lemma StripEmpty(s: string)
    ensures Strip(s) == [] <==> forall k :: 0 <= k < |s| ==> IsSpace(s[k])
  {
    StripIsInfix(s);
    StripIsStripped(s);
    if Strip(s) != [] {
      assert s[LeadingSpaces(s)] == Strip(s)[0];
    }
  }

  /** Stripping twice changes nothing more. */
  lemma StripIdempotent(s: string)
    ensures Strip(Strip(s)) == Strip(s)
  {
    StripIsStripped(s);
    StripStable(Strip(s));
  }

  /** A text already without whitespace at its ends is left as it is. */
  lemma StripStable(t: string)
    requires Stripped(t)
    ensures Strip(t) == t
  {
  }

  /** ProhibitNullCharactersValidator, which every CharField runs: no NUL character. */
  predicate NulFree(t: string)
  {
    '\0' !in t
  }

  /** NUL is not whitespace, so stripping neither removes nor adds one. */
  lemma StripKeepsNul(s: string)
    ensures NulFree(Strip(s)) <==> NulFree(s)
  {
    StripIsInfix(s);
    var i := LeadingSpaces(s);
    var t := Strip(s);
    if !NulFree(s) {
      var k :| 0 <= k < |s| && s[k] == '\0';
      assert !IsSpace(s[k]);
      assert t[k - i] == s[k];
    }
    if !NulFree(t) {
      var k :| 0 <= k < |t| && t[k] == '\0';
      assert s[i + k] == t[k];
    }
  }

  /** The value the browser sent for a field, '' when it sent none. */
  function Posted(post: PostData, name: FieldName): string
  {
    if name in post then post[name] else ""
  }

  /**
   * Field.clean of one field: a ChoiceField fails on a missing or empty value when required
   * and otherwise accepts only `str(c)` of a choice, unchanged; a CharField strips the text,
   * fails on an empty result when required, fails on a NUL character, and else returns it.
   */
  function CleanField(f: FormField, post: PostData): (r: Option<string>)
    ensures f.kind.RatingChoice? && f.required ==>
      (r.Some? <==> IsChoice(Posted(post, f.name), f.kind.choices))
    ensures f.kind.RatingChoice? && r.Some? && r.value != "" ==>
      r.value == Posted(post, f.name) && IsChoice(r.value, f.kind.choices)
    ensures f.kind.FreeText? && !f.required ==> (r.Some? <==> NulFree(Strip(Posted(post, f.name))))
    ensures f.kind.FreeText? && r.Some? ==> r.value == Strip(Posted(post, f.name)) && NulFree(r.value)
    ensures f.kind.FreeText? && r.Some? ==> Stripped(r.value)
  {
    var v := Posted(post, f.name);
    match f.kind
    case RatingChoice(choices) =>
      if v == "" then (if f.required then None else Some(""))
      else if IsChoice(v, choices) then Some(v) else None
    case FreeText =>
      var t := Strip(v);
      StripIsStripped(v);
      assert Stripped(t);
      if t == "" && f.required then None
      else if !NulFree(t) then None
      else Some(t)
  }

  /** `form.is_valid()` and `form.cleaned_data`: valid when every field cleans. */
  function Clean(fields: seq<FormField>, post: PostData): (r: Option<seq<Cleaned>>)
    ensures r.Some? <==> forall k :: 0 <= k < |fields| ==> CleanField(fields[k], post).Some?
    ensures r.Some? ==> |r.value| == |fields|
    ensures r.Some? ==> forall k :: 0 <= k < |fields| ==>
      r.value[k].question == fields[k].name.question && CleanField(fields[k], post) == Some(r.value[k].value)
  {
    if fields == [] then Some([])
    else
      match CleanField(fields[0], post)
      case None => None
      case Some(v) =>
        match Clean(fields[1..], post)
        case None =>
          assert exists k :: 0 <= k < |fields| - 1 && CleanField(fields[1..][k], post).None?;
          None
        case Some(rest) => Some([Cleaned(fields[0].name.question, v)] + rest)
  }

  /**
   * A question's field cleans exactly when, for a rating question, a choice string was sent,
   * and, for a text question, the text holds no NUL character.
   */
  predicate Answered(q: Question, post: PostData)
  {
    && (q.kind == Rating ==> QuestionField(q.id) in post && IsChoice(post[QuestionField(q.id)], RatingChoices))
    && (q.kind == Text ==> NulFree(Posted(post, QuestionField(q.id))))
  }

  lemma CleanFieldFor(q: Question, language: string, post: PostData)
    ensures CleanField(FieldFor(q, language), post).Some? <==> Answered(q, post)
    ensures CleanField(FieldFor(q, language), post).Some? && q.kind == Rating ==>
      1 <= RatingOf(CleanField(FieldFor(q, language), post).value) <= 6
    ensures q.kind == Text && Answered(q, post) ==>
      CleanField(FieldFor(q, language), post) == Some(Strip(Posted(post, QuestionField(q.id))))
  {
    var f := FieldFor(q, language);
    StripKeepsNul(Posted(post, QuestionField(q.id)));
    if q.kind == Rating && CleanField(f, post).Some? {
      var v := post[QuestionField(q.id)];
      var c :| c in RatingChoices && 0 <= c <= 9 && v == ChoiceString(c);
    }
  }

  /**
   * A comment field without NUL cleans to the submitted text without its surrounding
   * whitespace: a comment of nothing but whitespace is saved as ''.
   */
  lemma BlankCommentCleansEmpty(q: Question, language: string, post: PostData)
    requires q.kind == Text
    ensures var v := Posted(post, QuestionField(q.id));
            CleanField(FieldFor(q, language), post) == Some("") <==> forall k :: 0 <= k < |v| ==> IsSpace(v[k])
  {
    CleanFieldFor(q, language, post);
    StripEmpty(Posted(post, QuestionField(q.id)));
  }

  lemma FieldsClean(questions: seq<Question>, language: string, post: PostData)
    ensures var active := ActiveQuestions(questions);
            var fields := FormFields(questions, language);
            && |fields| == |active|
            && forall k :: 0 <= k < |active| ==>
                 && (CleanField(fields[k], post).Some? <==> Answered(active[k], post))
                 && (CleanField(fields[k], post).Some? && active[k].kind == Rating ==>
                       1 <= RatingOf(CleanField(fields[k], post).value) <= 6)
  {
    var active := ActiveQuestions(questions);
    var fields := FormFields(questions, language);
    FieldsShape(active, language);
    forall k | 0 <= k < |active|
      ensures CleanField(fields[k], post).Some? <==> Answered(active[k], post)
      ensures CleanField(fields[k], post).Some? && active[k].kind == Rating ==>
        1 <= RatingOf(CleanField(fields[k], post).value) <= 6
    {
      CleanFieldFor(active[k], language, post);
    }
  }

  /** The form is valid exactly when every active question is answered. */
  lemma CleanedWhenAnswered(questions: seq<Question>, language: string, post: PostData)
    ensures var active := ActiveQuestions(questions);
            Clean(FormFields(questions, language), post).Some? <==> forall q :: q in active ==> Answered(q, post)
  {
    var active := ActiveQuestions(questions);
    var fields := FormFields(questions, language);
    FieldsClean(questions, language, post);
    if forall q :: q in active ==> Answered(q, post) {
      forall k | 0 <= k < |fields|
        ensures CleanField(fields[k], post).Some?
      {
        assert active[k] in active;
      }
    }
    if Clean(fields, post).Some? {
      forall q | q in active
        ensures Answered(q, post)
      {
        var k :| 0 <= k < |active| && active[k] == q;
      }
    }
  }

  /**
   * A submission of the dynamic form is valid exactly when every active rating question has
   * one of the choice strings "1".."6"; its cleaned data then lists the active questions in
   * order, and the value of every rating question converts to a rating in 1..6.
   */
  lemma CleanedRatingIsChoice(questions: seq<Question>, language: string, post: PostData)
    ensures var active := ActiveQuestions(questions);
            Clean(FormFields(questions, language), post).Some? <==> forall q :: q in active ==> Answered(q, post)
    ensures var active := ActiveQuestions(questions);
            var r := Clean(FormFields(questions, language), post);
            r.Some? ==>
              && |r.value| == |active|
              && forall k :: 0 <= k < |active| ==>
                   && r.value[k].question == active[k].id
                   && (active[k].kind == Rating ==> 1 <= RatingOf(r.value[k].value) <= 6)
  {
    CleanedWhenAnswered(questions, language, post);
    FieldsClean(questions, language, post);
    FieldsShape(ActiveQuestions(questions), language);
  }

  /** The language codes of the selection form select the three translations; 'en' is the initial one. */
  lemma LanguageChoicesSelectTranslations(q: Question)
    ensures |LanguageChoices| == 3 && InitialLanguage in LanguageChoices
    ensures GetText(q, LanguageChoices[0]) == q.textEn
    ensures GetText(q, LanguageChoices[1]) == q.textUz
    ensures GetText(q, LanguageChoices[2]) == q.textRu
  {
  }
}
