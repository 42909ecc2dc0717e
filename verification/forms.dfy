/**
 * `NoteForm` of notes/forms.py: a model form over the fields `title` and `content`.
 * Each field is a Django `forms.CharField` (strip on, required, the title with the
 * model's `max_length`), followed by the form's own `clean_title` / `clean_content`.
 */
module Forms {
  import opened Wrappers
  import opened Text
  import opened Models

  /** The two inputs of the form; nothing else of a note can be submitted. */
  datatype Field = Title | Content

  datatype FieldError =
    | Required                          // "This field is required."
    | TooLong(limit: nat, actual: nat)  // "Ensure this value has at most {limit} characters (it has {actual})."
    | Blank                             // "Title/Content cannot be empty or just whitespace."

  /** `form.errors`: at most one error per field. */
  type Errors = map<Field, FieldError>

  /** The raw POST data: a field may be missing altogether. */
  datatype Submission = Submission(title: Option<string>, content: Option<string>)

  /** `form.cleaned_data` of a valid form. */
  datatype Cleaned = Cleaned(title: string, content: string)

  /** A missing field reads as the empty string. */
  function Raw(field: Option<string>): string
  {
    if field.Some? then field.value else ""
  }

  /**
   * `forms.CharField.clean`: strip, then reject an empty value as required, then
   * check the stripped value against the maximum length, if there is one.
   */
  function CleanCharField(field: Option<string>, maxLength: Option<nat>): (r: Result<string, FieldError>)
    // an accepted value is stripped, not empty and within the limit
    ensures r.Success? ==> IsStripped(r.value) && r.value != [] && |r.value| <= |Raw(field)|
    ensures r.Success? && maxLength.Some? ==> |r.value| <= maxLength.value
    // the field itself never reports the form's whitespace error
    ensures r.Failure? ==> r.error == Required || (maxLength.Some? && r.error.TooLong? && r.error.limit == maxLength.value < r.error.actual)
  {
    var v := Strip(Raw(field));
    if v == [] then Failure(Required)
    else if maxLength.Some? && |v| > maxLength.value then Failure(TooLong(maxLength.value, |v|))
    else Success(v)
  }

  /** `NoteForm.clean_title`, given the value the field has already cleaned. */
  function CleanTitle(title: string): (r: Result<string, FieldError>)
    // rejected exactly when the value is non-empty but all whitespace, and then as Blank
    ensures r.Failure? <==> title != [] && AllSpace(title)
    ensures r.Failure? ==> r.error == Blank
    // otherwise the value comes back stripped
    ensures r.Success? ==> r.value == Strip(title)
  {
    StripEmptyIff(title);
    assert Strip([]) == [];
    if title != [] && Strip(title) == [] then Failure(Blank)
    else Success(if title != [] then Strip(title) else title)
  }

  /** `NoteForm.clean_content`, given the value the field has already cleaned. */
  function CleanContent(content: string): (r: Result<string, FieldError>)
    // rejected exactly when the value is non-empty but all whitespace, and then as Blank
    ensures r.Failure? <==> content != [] && AllSpace(content)
    ensures r.Failure? ==> r.error == Blank
    // otherwise the value comes back stripped
    ensures r.Success? ==> r.value == Strip(content)
  {
    StripEmptyIff(content);
    assert Strip([]) == [];
    if content != [] && Strip(content) == [] then Failure(Blank)
    else Success(if content != [] then Strip(content) else content)
  }

  /** The title field: `clean_title` runs only once the field itself has accepted the value. */
  function TitleField(field: Option<string>): Result<string, FieldError>
  {
    match CleanCharField(field, Some(MaxTitleLength))
    case Failure(e) => Failure(e)
    case Success(v) => CleanTitle(v)
  }

  /** The content field (a `TextField`, so no maximum length). */
  function ContentField(field: Option<string>): Result<string, FieldError>
  {
    match CleanCharField(field, None)
    case Failure(e) => Failure(e)
    case Success(v) => CleanContent(v)
  }

  /**
   * The whitespace check of `clean_title` and `clean_content` never fires: the field
   * has already stripped the value and rejected it if it was empty, so the form's own
   * method always returns its input unchanged.
   */
  lemma CleanMethodsKeepFieldValue(field: Option<string>, maxLength: Option<nat>)
    ensures CleanCharField(field, maxLength).Success? ==>
              var v := CleanCharField(field, maxLength).value;
              CleanTitle(v) == Success(v) && CleanContent(v) == Success(v)
  {
    StripIdempotent(Raw(field));
  }

  /** What the title field yields, in terms of the submitted text. */
  lemma TitleFieldOutcome(field: Option<string>)
    ensures TitleField(field) ==
              if Strip(Raw(field)) == [] then Failure(Required)
              else if |Strip(Raw(field))| > MaxTitleLength then Failure(TooLong(MaxTitleLength, |Strip(Raw(field))|))
              else Success(Strip(Raw(field)))
  {
    CleanMethodsKeepFieldValue(field, Some(MaxTitleLength));
  }

  /** What the content field yields, in terms of the submitted text: no length is too long. */
  lemma ContentFieldOutcome(field: Option<string>)
    ensures ContentField(field) == if Strip(Raw(field)) == [] then Failure(Required) else Success(Strip(Raw(field)))
  {
    CleanMethodsKeepFieldValue(field, None);
  }

  /** A submitted text is blank when nothing is left of it once stripped. */
  predicate IsBlank(text: string)
  {
    Strip(text) == []
  }

  /**
   * `form.is_valid()` with `form.cleaned_data` or `form.errors`. Both fields are
   * checked independently and every failing field reports its error.
   */
  function Validate(form: Submission): (r: Result<Cleaned, Errors>)
    // accepted exactly when neither field is blank and the stripped title fits
    ensures r.Success? <==>
              !IsBlank(Raw(form.title)) && |Strip(Raw(form.title))| <= MaxTitleLength && !IsBlank(Raw(form.content))
    // what is accepted is the stripped input, and it meets the rules on stored fields
    ensures r.Success? ==> r.value == Cleaned(Strip(Raw(form.title)), Strip(Raw(form.content)))
    ensures r.Success? ==> CleanFields(r.value.title, r.value.content)
    // the errors, keyed by the field that caused them
    ensures r.Failure? ==>
              (Title in r.error <==> IsBlank(Raw(form.title)) || |Strip(Raw(form.title))| > MaxTitleLength)
    ensures r.Failure? ==> (Content in r.error <==> IsBlank(Raw(form.content)))
    ensures r.Failure? && Title in r.error ==>
              r.error[Title] == if IsBlank(Raw(form.title)) then Required
                                else TooLong(MaxTitleLength, |Strip(Raw(form.title))|)
    ensures r.Failure? && Content in r.error ==> r.error[Content] == Required
  {
    TitleFieldOutcome(form.title);
    ContentFieldOutcome(form.content);
    var t := TitleField(form.title);
    var c := ContentField(form.content);
    if t.Success? && c.Success? then
      Success(Cleaned(t.value, c.value))
    else
      Failure((if t.Failure? then map[Title := t.error] else map[]) + (if c.Failure? then map[Content := c.error] else map[]))
  }

  /**
   * A field that is empty, missing or whitespace only is rejected as required, on
   * that field, whatever the other field holds; text with a non-space character is never blank.
   */
  lemma WhitespaceOnlyIsRequired(form: Submission)
    ensures AllSpace(Raw(form.title)) <==> Validate(form).Failure? && Title in Validate(form).error && Validate(form).error[Title] == Required
    ensures AllSpace(Raw(form.content)) <==> Validate(form).Failure? && Content in Validate(form).error
  {
    StripEmptyIff(Raw(form.title));
    StripEmptyIff(Raw(form.content));
  }

  /**
   * Re-submitting what the form accepted is accepted unchanged: cleaning is a
   * normalisation, so an edit form prefilled from a stored note validates to that note's fields.
   */
  lemma {:induction false} ValidateIdempotent(form: Submission)
    requires Validate(form).Success?
    ensures var c := Validate(form).value; Validate(Submission(Some(c.title), Some(c.content))) == Success(c)
  {
    var c := Validate(form).value;
    CleanFieldsAreAccepted(c.title, c.content);
  }

  /** Any title and content already in stored form pass the form unchanged. */
  lemma {:induction false} CleanFieldsAreAccepted(title: string, content: string)
    requires CleanFields(title, content)
    ensures Validate(Submission(Some(title), Some(content))) == Success(Cleaned(title, content))
  {
    assert [] + title + [] == title;
    assert [] + content + [] == content;
    StripRemovesSurroundingSpace([], title, []);
    StripRemovesSurroundingSpace([], content, []);
  }
}
