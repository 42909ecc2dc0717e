# Sticky notes: a verified model of the notes app

The `notes` Django app keeps sticky notes. Each note has a title, a content, a
creation time and a modification time. Five views work on them: list, detail,
create, update and delete. This project models the app's core in Dafny:

- `text.dfy`: Python's `str.strip()` over Python's own set of whitespace characters.
- `models.dfy`: the `Note` record and the rules on stored fields. The title is stripped,
  non-empty and at most 200 characters. The content is stripped and non-empty. The
  default order is `-created_at`.
- `forms.dfy`: `NoteForm.is_valid()`. Each field runs Django's `CharField.clean`
  first, then the form's own `clean_title` or `clean_content`. `CharField.clean`
  strips the value, rejects an empty one as required, and checks the title's
  length on the stripped value. `Validate` returns either the cleaned data or
  the errors keyed by field.
- `views.dfy`: the notes table as a value, `Store`, with one step function per
  view, and the class `NoteStore` whose methods take those steps. `Invariant` is
  what every request keeps. Each note sits under its own key, keys are never
  reused, every stored note is well formed, and no two notes share a
  `created_at`.
- `scenarios.dfy`: the use cases of `notes/tests.py`, replayed on `NoteStore`
  with concrete inputs.

The database is explicit in the model:

- The primary key counter starts at 1 and is never reused, as with SQLite's
  `AUTOINCREMENT`.
- The clock is a natural number that advances by one on each save.
- `Note.objects.all()` is the loop in `NoteStore.List`. It collects every row
  and inserts it where its `created_at` belongs.

Two properties of the code that its docstrings and comments do not state:

- `clean_title` and `clean_content` reject a whitespace-only value with their
  own message, but that branch never runs. The field has already stripped the
  value and rejected an empty one as "This field is required." (see
  `CleanMethodsKeepFieldValue` and `WhitespaceOnlyIsRequired`).
- The ordering is `-created_at` only, with no tie-break such as insertion
  order. The model follows the code. In the model every save reads a later
  value of its clock, so no two modelled notes share a `created_at` and the
  modelled listing is unique (`ListingIsUnique`). The app's wall clock gives no
  such guarantee (see "## Left out").

## Model

| member | source | states |
|---|---|---|
| Text.Strip | notes/forms.py:40-42 | the result starts and ends with a non-space character (or is empty) and is no longer than the input |
| Text.StripDecomposes | notes/forms.py:40-42 | the stripped text is a contiguous piece of the input with only whitespace before and after it |
| Text.StripRemovesSurroundingSpace | notes/forms.py:40-42 | stripping whitespace-padded stripped text gives back exactly that text |
| Text.StripIdempotent | notes/forms.py:42 | stripping twice is stripping once |
| Text.StripEmptyIff | notes/forms.py:40 | a text strips to empty exactly when it is all whitespace |
| Models.Str | notes/models.py:27-29 | `__str__`: a note is shown by its title, so a well-formed note shows as a non-empty stripped text of at most 200 characters; that it is the submitted title stripped is stated by Views.CreateInsertsOneNote and Scenarios.NoteCreation |
| Forms.CleanCharField | notes/forms.py:13-15 | the field `CharField.clean` each form field runs: an accepted value is stripped, non-empty and within the limit; a rejection is Required, or TooLong naming the limit and a longer actual length, never the form's Blank error (its exact result is pinned by TitleFieldOutcome and ContentFieldOutcome) |
| Forms.CleanTitle | notes/forms.py:37-42 | `clean_title` as written: it rejects a value with the Blank error exactly when the value is non-empty and all whitespace, and otherwise returns the value stripped; CleanMethodsKeepFieldValue shows its Blank branch is never reached after the field's own cleaning |
| Forms.CleanContent | notes/forms.py:44-49 | `clean_content` as written: Blank exactly for non-empty all-whitespace content, otherwise the content stripped; CleanMethodsKeepFieldValue shows its Blank branch is never reached after the field's own cleaning |
| Forms.CleanMethodsKeepFieldValue | notes/forms.py:37-49 | once the field has accepted a value, `clean_title` and `clean_content` return it unchanged, so their whitespace error never fires |
| Forms.TitleFieldOutcome | notes/models.py:17 | the title field gives Required for blank input, TooLong(200, n) for a stripped length n over 200, and the stripped text otherwise |
| Forms.ContentFieldOutcome | notes/models.py:18 | the content field gives Required for blank input and the stripped text otherwise, with no length bound |
| Forms.Validate | notes/forms.py:13-15 | valid exactly when neither field is blank and the stripped title fits in 200. The cleaned data is the stripped input and meets the stored-field rules. On failure each field is in the errors exactly when it is at fault, with Required or TooLong(200, actual length) |
| Forms.WhitespaceOnlyIsRequired | notes/forms.py:37-49 | an empty, missing or whitespace-only field, and only such a field, is reported as Required on that field |
| Forms.ValidateIdempotent | notes/forms.py:42 | resubmitting the cleaned data is accepted unchanged |
| Forms.CleanFieldsAreAccepted | notes/models.py:17-18 | any title and content already in stored form pass the form as they are |
| Views.Fetch | notes/views.py:38 | `get_object_or_404` (also views.py:88 and 121): 404 exactly when the key is absent, otherwise the stored note, never a form error |
| Views.CreateStep | notes/views.py:58-63 | `note_create` on POST: never a 404; a rejected form leaves table, key counter and clock as they were; a saved note takes the next key, is stamped with the current clock for both timestamps, and the counter and clock advance (full behaviour in CreateInsertsOneNote) |
| Views.UpdateStep | notes/views.py:88-95 | `note_update` on POST: 404 exactly for a missing key; a failed request (404 or rejected form) leaves table, key counter and clock as they were; a saved edit keeps `created_at` and the key counter and stamps `updated_at` with the current clock (full behaviour in UpdateTouchesOnlyTarget) |
| Views.DeleteStep | notes/views.py:121-127 | `note_delete` on POST: 404 exactly for a missing key, never a form error; a 404 leaves table, key counter and clock as they were; a delete reports the stored title, removes the key and keeps counter and clock (full behaviour in DeleteRemovesOnlyTarget) |
| Views.InsertNewestFirst | notes/models.py:23 | inserting a note keeps a sequence newest first and adds exactly that note |
| Views.EmptyInvariant | notes/models.py:17-20 | an empty table satisfies the invariant |
| Views.InsertKeepsInvariant | notes/views.py:60-61 | saving a new cleaned note under the next key at the current clock keeps the invariant |
| Views.OverwriteKeepsInvariant | notes/views.py:92-93 | overwriting a stored note with cleaned fields at the current clock keeps the invariant |
| Views.CreatePreservesInvariant | notes/views.py:58-63 | `note_create` keeps the invariant |
| Views.UpdatePreservesInvariant | notes/views.py:88-95 | `note_update` keeps the invariant |
| Views.DeletePreservesInvariant | notes/views.py:121-127 | `note_delete` keeps the invariant |
| Views.NotFoundBeforeValidation | notes/views.py:88 | on a missing key update and delete answer 404 whatever the form holds; on a present key they never answer 404 |
| Views.InsertAddsOneNote | notes/views.py:61 | a save under the next key adds one key and keeps every other note, all of them older |
| Views.CreateInsertsOneNote | notes/views.py:58-63 | a create is rejected exactly when the form is, with the form's errors. On success it adds one note under a fresh key, with the stripped fields and equal timestamps, newer than every other note, and the rest are untouched |
| Views.OverwriteChangesOneNote | notes/views.py:93 | an overwrite keeps the key set, the id and `created_at`, moves `updated_at` forward and touches no other note |
| Views.UpdateTouchesOnlyTarget | notes/views.py:88-95 | an update is rejected exactly when the form is. On success it replaces title and content by the stripped input, keeps the id and `created_at`, advances `updated_at` and leaves every other note alone |
| Views.DeleteRemovesOnlyTarget | notes/views.py:121-127 | a delete reports the note's title, removes exactly that key (count minus one), keeps the others unchanged, and right after it a fetch of the key answers 404 |
| Views.DeletedNoteNotListed | notes/views.py:121-127 | right after a delete, no note in the listing carries the deleted key |
| Views.RemovedKeyStaysGone | notes/views.py:121-127 | a key below the counter that is no longer stored stays absent, and below the counter, after any create, update or delete, so a deleted note never comes back under its key |
| Views.NotesUnderAllKeys | notes/views.py:19 | collecting every key collects every stored note |
| Views.CollectOneMore | notes/views.py:19 | collecting one more key adds exactly the note under it, not collected before |
| Views.ListingHasNoRepeats | notes/views.py:19 | a listing holds no note twice |
| Views.ListingStrictlyNewestFirst | notes/models.py:23 | in a listing of a consistent table each note is strictly newer than those after it |
| Views.HeadIsNewest | notes/models.py:23 | the head of a strictly ordered sequence is newer than every other member |
| Views.SameNewest | notes/models.py:23 | two strictly newest-first orderings of the same non-empty collection of notes start with the same note |
| Views.StrictOrderIsUnique | notes/models.py:23 | two strictly newest-first orderings of the same notes are equal |
| Views.ListingIsUnique | notes/models.py:23 | a consistent table has exactly one listing |
| Views.StoreOneMoreValue | notes/views.py:61 | storing a new note under a free key adds exactly that note to the stored notes |
| Views.InsertAddsOneValue | notes/views.py:61 | a created note is not among the stored notes before, and is the only one added |
| Views.NewestComesFirst | notes/models.py:23 | a note newer than all others heads a newest-first sequence, followed by the others |
| Views.ListAfterInsert | notes/models.py:23 | after a save the listing is the new note followed by the previous listing |
| Views.CreateThenList | notes/views.py:19 | a note just created heads the list, and the previous list follows it |
| Views.CreateTwiceListsNewestFirst | notes/tests.py:28-40 | after two creates, the listing starts with the second note, then the first |
| Views.NoteStore.constructor | notes/models.py:17-20 | a new store is empty and valid |
| Views.NoteStore.List | notes/views.py:19-23 | returns every stored note once, newest first, and `total_notes` equal to the number of notes |
| Views.NoteStore.Detail | notes/views.py:38 | answers 404 exactly when the key is absent, otherwise the stored, well-formed note with that id |
| Views.NoteStore.Create | notes/views.py:58-63 | takes exactly the create step and keeps the invariant |
| Views.NoteStore.Update | notes/views.py:88-95 | fetches first, then takes exactly the update step and keeps the invariant |
| Views.NoteStore.Delete | notes/views.py:121-127 | takes exactly the delete step, reading the title before removing the row, and keeps the invariant |
| Scenarios.LongTitleIsTooLong | notes/tests.py:93-100 | 201 `x` characters give exactly the error "at most 200 characters (it has 201)" on the title |
| Scenarios.EmptyTitleIsRequired | notes/tests.py:59-66 | an empty title gives exactly a Required error on the title |
| Scenarios.EmptyContentIsRequired | notes/tests.py:68-75 | an empty content gives exactly a Required error on the content |
| Scenarios.WhitespaceTitleIsRequired | notes/tests.py:77-83 | a title of three spaces gives exactly a Required error on the title |
| Scenarios.NoteCreation | notes/tests.py:17-26 | a created note reads back with its title and content, and `str` shows its title |
| Scenarios.CreateStripsInput | notes/forms.py:37-49 | surrounding whitespace in both fields is gone from the saved note |
| Scenarios.ListTwo | notes/tests.py:28-40 | for any two notes whose fields are already in stored form, created one after the other in an empty store, the listing has total 2 and shows the second note's title first and the first note's second |
| Scenarios.ListingOrder | notes/tests.py:28-40 | starting from an empty store (the test also has its `setUp` note, which the general lemma CreateTwiceListsNewestFirst covers), "Second Note" is listed before "First Note", with total 2 |
| Scenarios.EmptyListing | notes/tests.py:110-116 | an empty database lists total 0 |
| Scenarios.MissingNoteIs404 | notes/tests.py:146-150 | key 9999 answers 404 to detail; the same method also replays the edit and delete cases of notes/tests.py:262-266 and 296-300, sent as POST rather than GET, which gives the same 404 because the fetch precedes the method check |
| Scenarios.CreateWithLongTitle | notes/tests.py:201-213 | a 201-character title is rejected with TooLong(200, 201), and no note is saved |
| Scenarios.EditWithValidData | notes/tests.py:236-249 | a valid edit replaces title and content |
| Scenarios.EditWithInvalidData | notes/tests.py:251-260 | an edit with an empty title reports Required and the stored title stays "Original Title" |
| Scenarios.DeleteNote | notes/tests.py:288-294 | a delete reports the title, the count goes from 1 to 0 and the key then answers 404 |

## Left out

- The GET branches of `note_create`, `note_update` and `note_delete` only render
  a form or a confirmation page. They change nothing and are not modelled.
- Rendering, templates, `messages.success` flash texts and redirects are
  presentation. Each view's outcome (`Ok`, `NotFound`, `Invalid`) stands in for
  its response.
- `Note.get_absolute_url` (notes/models.py:31-33) depends on URL routing.
  notes/urls.py is not part of this model.
- notes/admin.py (list display, filters, search) is not part of this model.
- Widget attributes, labels and help texts in `NoteForm.Meta` (the HTML
  `maxlength` and the placeholder) only affect the browser.
- Django's `CharField` also rejects text containing a NUL character
  (`ProhibitNullCharactersValidator`). That framework check is not modelled.
- Real `datetime` values and time zones are not modelled. A natural-number
  clock advances once per save, and a created note gets `created_at ==
  updated_at`. Django reads the clock once per field, so it may differ there
  by microseconds.
- Views.ListingStrictlyNewestFirst, Views.ListingIsUnique, Views.CreateThenList,
  Views.CreateTwiceListsNewestFirst, Views.CreateInsertsOneNote ("newer than every other
  note"), Views.InsertAddsOneNote ("all of them older"), Views.OverwriteChangesOneNote and
  Views.UpdateTouchesOnlyTarget ("moves `updated_at` forward"), with Scenarios.ListTwo and
  Scenarios.ListingOrder (and the `created_at` clause of `Invariant`) rely on
  the model's clock, which never repeats a value and never goes back. The app stamps
  notes with `timezone.now()`: two saves can read the same time and the wall clock can
  be set back, and then tied notes list in no defined order and a later note can list
  after an earlier one. The model does not capture that.
- Database transactions, concurrent requests and database errors are not
  modelled. Each request runs alone and completes.
- Models.Str: its own contract speaks only of what a well-formed note shows.
  That the text shown is the submitted title, stripped, is stated by
  `Views.CreateInsertsOneNote` and `Scenarios.NoteCreation`.
- Only the properties of `Note.objects.all()` that the views rely on are
  modelled: the set of notes, their order and their count. Which SQL runs and
  how the database sorts are not.
