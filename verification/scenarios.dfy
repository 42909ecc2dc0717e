/**
 * The use cases exercised in notes/tests.py, replayed against `NoteStore`: each
 * method starts from an empty database and its `ensures` states what the test
 * checks, for those concrete inputs.
 */
module Scenarios {
  import opened Wrappers
  import opened Text
  import opened Models
  import opened Forms
  import opened Views

  /** A form with both fields present. */
  function Post(title: string, content: string): Submission
  {
    Submission(Some(title), Some(content))
  }

  /** When the content is accepted, the title's error is the only one. */
  lemma TitleErrorOnly(form: Submission)
    requires Validate(form).Failure? && Title in Validate(form).error && !IsBlank(Raw(form.content))
    ensures Validate(form).error == map[Title := Validate(form).error[Title]]
  {
    var e := Validate(form).error;
    assert Content !in e;
    assert e.Keys == {Title};
  }

  /** When the title is accepted, the content's error is the only one. */
  lemma ContentErrorOnly(form: Submission)
    requires Validate(form).Failure? && Content in Validate(form).error
    requires !IsBlank(Raw(form.title)) && |Strip(Raw(form.title))| <= MaxTitleLength
    ensures Validate(form).error == map[Content := Required]
  {
    var e := Validate(form).error;
    assert Title !in e;
    assert e.Keys == {Content};
  }

  /** A title of 201 `x` characters, one more than the column holds. */
  lemma LongTitleIsTooLong(long: string)
    requires |long| == 201 && forall i :: 0 <= i < |long| ==> long[i] == 'x'
    ensures Validate(Post(long, "Valid content")) == Failure(map[Title := TooLong(200, 201)])
  {
    assert [] + long + [] == long;
    StripRemovesSurroundingSpace([], long, []);
    CleanFieldsAreAccepted("x", "Valid content");
    TitleErrorOnly(Post(long, "Valid content"));
  }

  /** An empty title is reported as required, on the title only. */
  lemma EmptyTitleIsRequired()
    ensures Validate(Post("", "Some content")) == Failure(map[Title := Required])
  {
    CleanFieldsAreAccepted("x", "Some content");
    TitleErrorOnly(Post("", "Some content"));
  }

  /** An empty content is reported as required, on the content only. */
  lemma EmptyContentIsRequired()
    ensures Validate(Post("Some title", "")) == Failure(map[Content := Required])
  {
    CleanFieldsAreAccepted("Some title", "x");
    assert Raw(Post("Some title", "x").title) == Raw(Post("Some title", "").title);
    ContentErrorOnly(Post("Some title", ""));
  }

  /** A title of three spaces is rejected as required. */
  lemma WhitespaceTitleIsRequired()
    ensures Validate(Post("   ", "Valid content")) == Failure(map[Title := Required])
  {
    assert "   " + [] + [] == "   ";
    StripRemovesSurroundingSpace("   ", [], []);
    CleanFieldsAreAccepted("x", "Valid content");
    TitleErrorOnly(Post("   ", "Valid content"));
  }

  /** A note is created with the submitted title and content, and shown by its title. */
  method NoteCreation() returns (title: string, content: string, shown: string)
    ensures title == "Test Note" && content == "This is test content." && shown == "Test Note"
  {
    var store := new NoteStore();
    CleanFieldsAreAccepted("Test Note", "This is test content.");
    var r := store.Create(Post("Test Note", "This is test content."));
    var d := store.Detail(r.value.id);
    title, content, shown := d.value.title, d.value.content, Str(d.value);
  }

  /** Surrounding whitespace is stripped from both fields before the note is saved. */
  method CreateStripsInput() returns (title: string, content: string)
    ensures title == "Hi" && content == "Body"
  {
    var store := new NoteStore();
    assert "  " + "Hi" + "\n" == "  Hi\n";
    assert "\t" + "Body" + " " == "\tBody ";
    StripRemovesSurroundingSpace("  ", "Hi", "\n");
    StripRemovesSurroundingSpace("\t", "Body", " ");
    var r := store.Create(Post("  Hi\n", "\tBody "));
    var d := store.Detail(r.value.id);
    title, content := d.value.title, d.value.content;
  }

  /** Any two notes created one after the other in an empty database are listed the later first. */
  method ListTwo(title1: string, content1: string, title2: string, content2: string)
    returns (first: string, second: string, total: nat)
    requires CleanFields(title1, content1) && CleanFields(title2, content2)
    ensures first == title2 && second == title1 && total == 2
  {
    var store := new NoteStore();
    var f1, f2 := Post(title1, content1), Post(title2, content2);
    CleanFieldsAreAccepted(title1, content1);
    CleanFieldsAreAccepted(title2, content2);
    ghost var s0 := store.State();
    var _ := store.Create(f1);
    ghost var s1 := store.State();
    var _ := store.Create(f2);
    CreateInsertsOneNote(s0, f1);
    CreateInsertsOneNote(s1, f2);
    var notes;
    notes, total := store.List();
    CreateTwiceListsNewestFirst(s0, f1, f2, notes);
    first, second := notes[0].title, notes[1].title;
  }

  /** Two notes created one after the other are listed newest first. */
  method ListingOrder() returns (first: string, second: string, total: nat)
    ensures first == "Second Note" && second == "First Note" && total == 2
  {
    first, second, total := ListTwo("First Note", "First content", "Second Note", "Second content");
  }

  /** An empty database lists no notes. */
  method EmptyListing() returns (total: nat)
    ensures total == 0
  {
    var store := new NoteStore();
    var notes;
    notes, total := store.List();
  }

  /** A key that was never handed out answers 404 to detail, edit and delete. */
  method MissingNoteIs404() returns (detail: Outcome<Note>, edit: Outcome<Note>, delete: Outcome<string>)
    ensures detail == NotFound && edit == NotFound && delete == NotFound
  {
    var store := new NoteStore();
    var _ := store.Create(Post("Note 1", "Content 1"));
    detail := store.Detail(9999);
    edit := store.Update(9999, Post("Updated Title", "Updated Content"));
    delete := store.Delete(9999);
  }

  /** A 201-character title is rejected with the length it has, and nothing is saved. */
  method CreateWithLongTitle() returns (r: Outcome<Note>, total: nat)
    ensures r == Invalid(map[Title := TooLong(200, 201)]) && total == 0
  {
    var store := new NoteStore();
    var long := seq(201, _ => 'x');
    LongTitleIsTooLong(long);
    r := store.Create(Post(long, "Valid content"));
    var notes;
    notes, total := store.List();
  }

  /** A valid edit replaces title and content of the note. */
  method EditWithValidData() returns (title: string, content: string)
    ensures title == "Updated Title" && content == "Updated Content"
  {
    var store := new NoteStore();
    CleanFieldsAreAccepted("Original Title", "Original Content");
    CleanFieldsAreAccepted("Updated Title", "Updated Content");
    var created := store.Create(Post("Original Title", "Original Content"));
    var _ := store.Update(created.value.id, Post("Updated Title", "Updated Content"));
    var d := store.Detail(created.value.id);
    title, content := d.value.title, d.value.content;
  }

  /** An edit with an empty title is redisplayed with the error and the stored title stays. */
  method EditWithInvalidData() returns (r: Outcome<Note>, title: string)
    ensures r == Invalid(map[Title := Required]) && title == "Original Title"
  {
    var store := new NoteStore();
    CleanFieldsAreAccepted("Original Title", "Original Content");
    assert Validate(Post("", "Updated content")) == Failure(map[Title := Required]) by {
      CleanFieldsAreAccepted("x", "Updated content");
      TitleErrorOnly(Post("", "Updated content"));
    }
    var created := store.Create(Post("Original Title", "Original Content"));
    r := store.Update(created.value.id, Post("", "Updated content"));
    var d := store.Detail(created.value.id);
    title := d.value.title;
  }

  /** Deleting a note reports its title, drops the count by one and makes the key answer 404. */
  method DeleteNote() returns (deleted: Outcome<string>, before: nat, after: nat, detail: Outcome<Note>)
    ensures deleted == Ok("Note to Delete") && before == 1 && after == 0 && detail == NotFound
  {
    var store := new NoteStore();
    CleanFieldsAreAccepted("Note to Delete", "This will be deleted");
    var created := store.Create(Post("Note to Delete", "This will be deleted"));
    var notes;
    notes, before := store.List();
    deleted := store.Delete(created.value.id);
    notes, after := store.List();
    detail := store.Detail(created.value.id);
  }
}
