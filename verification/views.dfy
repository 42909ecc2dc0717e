/**
 * The five views of notes/views.py as operations on the table of notes.
 *
 * `Store` is the table as a value, with one step function per view that says what
 * the view does to it; `NoteStore` is the table as the views update it, a class
 * whose methods are proved to take exactly those steps. Each view fetches the note
 * first (`get_object_or_404`), then validates the form, then writes, so a request
 * that fails changes nothing.
 */
module Views {
  import opened Wrappers
  import opened Text
  import opened Models
  import opened Forms

  /** What a view reports: its result, a 404, or the form redisplayed with its errors. */
  datatype Outcome<+T> = Ok(value: T) | NotFound | Invalid(errors: Errors)

  /**
   * The notes table keyed by primary key, the next key to hand out (keys are never
   * reused) and the clock that stamps `created_at` and `updated_at`.
   */
  datatype Store = Store(table: map<nat, Note>, nextId: nat, clock: nat)

  /**
   * What holds of the table between requests: each note sits under its own key,
   * keys are below `nextId`, every timestamp is in the past, every note is well
   * formed, and no two notes were created at the same instant.
   */
  ghost predicate Invariant(s: Store)
  {
    && KeyedById(s.table)
    && (forall id :: id in s.table ==> id < s.nextId && WellFormed(s.table[id]) && s.table[id].updatedAt < s.clock)
    && (forall i, j :: i in s.table && j in s.table && i != j ==> s.table[i].createdAt != s.table[j].createdAt)
  }

  /** Each note is stored under its own primary key. */
  ghost predicate KeyedById(table: map<nat, Note>)
  {
    forall id :: id in table ==> table[id].id == id
  }

  /** The table a fresh database starts with. */
  function Empty(): Store
  {
    Store(map[], 1, 0)
  }

  /** `get_object_or_404(Note, pk=id)`. */
  function Fetch(s: Store, id: nat): (r: Outcome<Note>)
    ensures r.NotFound? <==> id !in s.table
    ensures r.Ok? ==> r.value == s.table[id]
    ensures !r.Invalid?
  {
    if id in s.table then Ok(s.table[id]) else NotFound
  }

  /** `note_create` on POST: validate, then insert under a fresh key with both timestamps set. */
  function CreateStep(s: Store, form: Submission): (r: (Store, Outcome<Note>))
    // there is nothing to fetch, so never a 404; a rejected form writes nothing
    ensures !r.1.NotFound?
    ensures !r.1.Ok? ==> r.0 == s
    // the new row takes the next key and is stamped with the current clock twice
    ensures r.1.Ok? ==> r.1.value.id == s.nextId && r.1.value.createdAt == r.1.value.updatedAt == s.clock
    ensures r.1.Ok? ==> r.0.nextId == s.nextId + 1 && r.0.clock == s.clock + 1
  {
    match Validate(form)
    case Failure(e) => (s, Invalid(e))
    case Success(c) =>
      var note := NewNote(s, c);
      (Store(s.table[s.nextId := note], s.nextId + 1, s.clock + 1), Ok(note))
  }

  /**
   * `note_update` on POST: fetch or 404, validate, then overwrite title and content
   * and refresh `updated_at`; the key and `created_at` stay.
   */
  function UpdateStep(s: Store, id: nat, form: Submission): (r: (Store, Outcome<Note>))
    // 404 exactly for a missing key; a request that fails writes nothing
    ensures r.1.NotFound? <==> id !in s.table
    ensures !r.1.Ok? ==> r.0 == s
    // a saved edit keeps the key counter and `created_at` and stamps `updated_at` now
    ensures r.1.Ok? ==> id in s.table && r.1.value.createdAt == s.table[id].createdAt && r.1.value.updatedAt == s.clock
    ensures r.1.Ok? ==> r.0.nextId == s.nextId && r.0.clock == s.clock + 1
  {
    match Fetch(s, id)
    case Ok(_) =>
      (match Validate(form)
       case Failure(e) => (s, Invalid(e))
       case Success(c) =>
         var saved := EditedNote(s, id, c);
         (s.(table := s.table[id := saved], clock := s.clock + 1), Ok(saved)))
    case _ => (s, NotFound)
  }

  /** `note_delete` on POST: fetch or 404, then remove the row and report its title. */
  function DeleteStep(s: Store, id: nat): (r: (Store, Outcome<string>))
    // 404 exactly for a missing key, which writes nothing; a form is never involved
    ensures r.1.NotFound? <==> id !in s.table
    ensures !r.1.Invalid?
    ensures !r.1.Ok? ==> r.0 == s
    // a delete reports the stored title and the key is gone; keys are not handed out again
    ensures r.1.Ok? ==> id in s.table && r.1.value == s.table[id].title && id !in r.0.table
    ensures r.1.Ok? ==> r.0.nextId == s.nextId && r.0.clock == s.clock
  {
    match Fetch(s, id)
    case Ok(note) => (s.(table := s.table - {id}), Ok(note.title))
    case _ => (s, NotFound)
  }

  /** `Note.objects.all()`: every stored note exactly once, newest first. */
  ghost predicate IsListing(s: Store, notes: seq<Note>)
  {
    multiset(notes) == multiset(s.table.Values) && NewestFirst(notes)
  }

  /** The notes stored under the keys `ids`. */
  function NotesUnder(table: map<nat, Note>, ids: set<nat>): set<Note>
  {
    set id | id in ids && id in table :: table[id]
  }

  /** Puts `n` into a newest-first sequence where its `created_at` belongs. */
  function InsertNewestFirst(notes: seq<Note>, n: Note): (r: seq<Note>)
    requires NewestFirst(notes)
    ensures NewestFirst(r)
    ensures multiset(r) == multiset(notes) + multiset{n}
    ensures |r| == |notes| + 1
    ensures r[0] == n || (notes != [] && r[0] == notes[0])
  {
    if notes == [] || n.createdAt >= notes[0].createdAt then
      [n] + notes
    else
      var rest := InsertNewestFirst(notes[1..], n);
      assert notes == [notes[0]] + notes[1..];
      assert forall j :: 0 <= j < |rest| ==> rest[j].createdAt <= rest[0].createdAt <= notes[0].createdAt;
      [notes[0]] + rest
  }

  /** A fresh table satisfies the invariant. */
  lemma EmptyInvariant()
    ensures Invariant(Empty()) && Empty().table == map[]
  {
  }

  /** The row `note_create` writes for a cleaned form. */
  function NewNote(s: Store, c: Cleaned): Note
  {
    Note(s.nextId, c.title, c.content, s.clock, s.clock)
  }

  /** The row `note_update` writes for a cleaned form over the stored note `id`. */
  function EditedNote(s: Store, id: nat, c: Cleaned): Note
    requires id in s.table
  {
    s.table[id].(title := c.title, content := c.content, updatedAt := s.clock)
  }

  /** Inserting a cleaned note under the next key at the current clock keeps the invariant. */
  lemma InsertKeepsInvariant(s: Store, c: Cleaned)
    requires Invariant(s) && CleanFields(c.title, c.content)
    ensures Invariant(Store(s.table[s.nextId := NewNote(s, c)], s.nextId + 1, s.clock + 1))
  {
  }

  /** Overwriting a stored note with cleaned fields at the current clock keeps the invariant. */
  lemma OverwriteKeepsInvariant(s: Store, id: nat, c: Cleaned)
    requires Invariant(s) && id in s.table && CleanFields(c.title, c.content)
    ensures Invariant(Store(s.table[id := EditedNote(s, id, c)], s.nextId, s.clock + 1))
  {
  }

  /** Creating keeps the invariant: the new key is fresh and the new timestamp later than all others. */
  lemma CreatePreservesInvariant(s: Store, form: Submission)
    requires Invariant(s)
    ensures Invariant(CreateStep(s, form).0)
  {
    if Validate(form).Success? {
      InsertKeepsInvariant(s, Validate(form).value);
    }
  }

  /** Updating keeps the invariant: `created_at` is kept and `updated_at` becomes the current clock. */
  lemma UpdatePreservesInvariant(s: Store, id: nat, form: Submission)
    requires Invariant(s)
    ensures Invariant(UpdateStep(s, id, form).0)
  {
    if id in s.table && Validate(form).Success? {
      OverwriteKeepsInvariant(s, id, Validate(form).value);
    }
  }

  /** Deleting keeps the invariant: what remains is part of what was there. */
  lemma DeletePreservesInvariant(s: Store, id: nat)
    requires Invariant(s)
    ensures Invariant(DeleteStep(s, id).0)
  {
  }

  /**
   * The note is fetched before the form is looked at: on a missing key update and
   * delete answer 404 whatever was submitted, and on a present key they never do.
   */
  lemma NotFoundBeforeValidation(s: Store, id: nat, form: Submission)
    ensures id !in s.table ==> UpdateStep(s, id, form) == (s, NotFound) && DeleteStep(s, id) == (s, NotFound)
    ensures id in s.table ==> !UpdateStep(s, id, form).1.NotFound? && !DeleteStep(s, id).1.NotFound?
  {
  }

  /** What inserting a cleaned note does to the table. */
  lemma InsertAddsOneNote(s: Store, c: Cleaned)
    requires Invariant(s)
    ensures var n := NewNote(s, c);
            var t := s.table[s.nextId := n];
            && n.id !in s.table && t.Keys == s.table.Keys + {n.id} && |t| == |s.table| + 1
            && (forall k :: k in s.table ==> t[k] == s.table[k] && s.table[k].createdAt < n.createdAt)
  {
  }

  /**
   * `note_create`: an invalid form is redisplayed with the form's errors; a valid one
   * adds exactly one note, under a key not used before, carrying the cleaned fields,
   * stamped later than every note already there, and leaves the other notes alone.
   */
  lemma CreateInsertsOneNote(s: Store, form: Submission)
    requires Invariant(s)
    ensures var (s', r) := CreateStep(s, form);
            && !r.NotFound?
            && (r.Invalid? <==> Validate(form).Failure?)
            && (r.Invalid? ==> r.errors == Validate(form).error)
            && (r.Ok? ==>
                  var n := r.value;
                  && n.id !in s.table && s'.table.Keys == s.table.Keys + {n.id} && |s'.table| == |s.table| + 1
                  && Fetch(s', n.id) == Ok(n)
                  && Str(n) == Strip(Raw(form.title)) && n.content == Strip(Raw(form.content))
                  && n.createdAt == n.updatedAt
                  && (forall k :: k in s.table ==> s'.table[k] == s.table[k] && s.table[k].createdAt < n.createdAt))
  {
    if Validate(form).Success? {
      InsertAddsOneNote(s, Validate(form).value);
    }
  }

  /** What overwriting a stored note with cleaned fields does to the table. */
  lemma OverwriteChangesOneNote(s: Store, id: nat, c: Cleaned)
    requires Invariant(s) && id in s.table
    ensures var n := EditedNote(s, id, c);
            var t := s.table[id := n];
            && t.Keys == s.table.Keys
            && n.id == id && n.createdAt == s.table[id].createdAt && n.updatedAt > s.table[id].updatedAt
            && (forall k :: k in s.table && k != id ==> t[k] == s.table[k])
  {
  }

  /**
   * `note_update`: a valid form overwrites title and content of that note only; the
   * key and `created_at` stay, `updated_at` moves forward, and every other note is untouched.
   */
  lemma UpdateTouchesOnlyTarget(s: Store, id: nat, form: Submission)
    requires Invariant(s) && id in s.table
    ensures var (s', r) := UpdateStep(s, id, form);
            && (r.Invalid? <==> Validate(form).Failure?)
            && (r.Invalid? ==> r.errors == Validate(form).error)
            && (r.Ok? ==>
                  var n := r.value;
                  && s'.table.Keys == s.table.Keys
                  && Fetch(s', id) == Ok(n)
                  && n.id == id && n.createdAt == s.table[id].createdAt && n.updatedAt > s.table[id].updatedAt
                  && n.title == Strip(Raw(form.title)) && n.content == Strip(Raw(form.content))
                  && (forall k :: k in s.table && k != id ==> s'.table[k] == s.table[k]))
  {
    if Validate(form).Success? {
      OverwriteChangesOneNote(s, id, Validate(form).value);
    }
  }

  /**
   * `note_delete`: removes exactly that note, reports its title, and keeps the others;
   * right after it the note is absent from fetch (`RemovedKeyStaysGone` keeps it
   * absent through every later request).
   */
  lemma DeleteRemovesOnlyTarget(s: Store, id: nat)
    requires Invariant(s) && id in s.table
    ensures var (s', r) := DeleteStep(s, id);
            && r == Ok(s.table[id].title)
            && s'.table.Keys == s.table.Keys - {id} && |s'.table| == |s.table| - 1
            && Fetch(s', id) == NotFound
            && (forall k :: k in s'.table ==> s'.table[k] == s.table[k])
  {
  }

  /** Right after a delete, no note in the listing carries the deleted key. */
  lemma DeletedNoteNotListed(s: Store, id: nat, notes: seq<Note>)
    requires Invariant(s) && id in s.table
    requires IsListing(DeleteStep(s, id).0, notes)
    ensures forall i :: 0 <= i < |notes| ==> notes[i].id != id
  {
    var s' := DeleteStep(s, id).0;
    forall i | 0 <= i < |notes| ensures notes[i].id != id {
      assert notes[i] in multiset(s'.table.Values);
    }
  }

  /**
   * A key that was handed out and is no longer stored stays absent after any
   * request: keys are never handed out twice, so a deleted note never comes back.
   */
  lemma RemovedKeyStaysGone(s: Store, id: nat, other: nat, form: Submission)
    requires id < s.nextId && id !in s.table
    ensures var t := CreateStep(s, form).0; id < t.nextId && id !in t.table
    ensures var t := UpdateStep(s, other, form).0; id < t.nextId && id !in t.table
    ensures var t := DeleteStep(s, other).0; id < t.nextId && id !in t.table
  {
  }

  /** The notes stored under all keys are all the stored notes. */
  lemma NotesUnderAllKeys(table: map<nat, Note>)
    ensures NotesUnder(table, table.Keys) == table.Values
  {
  }

  /** Collecting one more key adds the note stored under it, which was not collected yet. */
  lemma CollectOneMore(table: map<nat, Note>, rest: set<nat>, id: nat, notes: seq<Note>)
    requires KeyedById(table) && rest <= table.Keys && id in rest
    requires multiset(notes) == multiset(NotesUnder(table, table.Keys - rest))
    ensures multiset(notes) + multiset{table[id]} == multiset(NotesUnder(table, table.Keys - (rest - {id})))
  {
    var done := table.Keys - rest;
    assert table.Keys - (rest - {id}) == done + {id};
    assert table[id] !in NotesUnder(table, done);
    assert NotesUnder(table, done + {id}) == NotesUnder(table, done) + {table[id]};
  }

  /** A listing holds each stored note once, so no note appears in it twice. */
  lemma ListingHasNoRepeats(s: Store, notes: seq<Note>, i: nat, j: nat)
    requires IsListing(s, notes)
    requires i < j < |notes|
    ensures notes[i] != notes[j]
  {
    var x := notes[i];
    assert notes == notes[..j] + notes[j..];
    assert notes[..j][i] == x;
    assert multiset(notes)[x] == multiset(notes[..j])[x] + multiset(notes[j..])[x];
    assert multiset(notes)[x] <= 1;
    assert notes[j..][0] == notes[j];
  }

  /** In a listing of a consistent table no two notes share a `created_at`, so the order is strict. */
  lemma ListingStrictlyNewestFirst(s: Store, notes: seq<Note>, i: nat, j: nat)
    requires Invariant(s) && IsListing(s, notes)
    requires i < j < |notes|
    ensures notes[i].createdAt > notes[j].createdAt
  {
    ListingHasNoRepeats(s, notes, i, j);
    assert notes[i] in multiset(notes) && notes[j] in multiset(notes);
    var ki :| ki in s.table && s.table[ki] == notes[i];
    var kj :| kj in s.table && s.table[kj] == notes[j];
  }

  /** Strictly newest first: what `NewestFirst` becomes once no two notes share a timestamp. */
  ghost predicate StrictlyNewestFirst(notes: seq<Note>)
  {
    forall i, j :: 0 <= i < j < |notes| ==> notes[i].createdAt > notes[j].createdAt
  }

  /** The head of a strictly ordered sequence is newer than every other note in it. */
  lemma HeadIsNewest(a: seq<Note>, x: Note)
    requires StrictlyNewestFirst(a) && x in a
    ensures x == a[0] || x.createdAt < a[0].createdAt
  {
    var i :| 0 <= i < |a| && a[i] == x;
    assert i == 0 || a[0].createdAt > a[i].createdAt;
  }

  /** Two strictly ordered non-empty sequences of the same notes start with the same note. */
  lemma SameNewest(a: seq<Note>, b: seq<Note>)
    requires multiset(a) == multiset(b) && a != []
    requires StrictlyNewestFirst(a) && StrictlyNewestFirst(b)
    ensures b != [] && b[0] == a[0]
  {
    assert a[0] in multiset(b);
    assert b[0] in multiset(a);
    HeadIsNewest(b, a[0]);
    HeadIsNewest(a, b[0]);
  }

  /** Dropping the head of a sequence drops one copy of it from its multiset. */
  lemma TailMultiset(a: seq<Note>)
    requires a != []
    ensures multiset(a[1..]) == multiset(a) - multiset{a[0]}
  {
    assert a == [a[0]] + a[1..];
  }

  /** Two strictly ordered sequences of the same notes are the same sequence. */
  lemma {:induction false} StrictOrderIsUnique(a: seq<Note>, b: seq<Note>)
    requires multiset(a) == multiset(b)
    requires StrictlyNewestFirst(a) && StrictlyNewestFirst(b)
    ensures a == b
    decreases |a|
  {
    if a == [] {
      assert |multiset(b)| == 0;
    } else {
      SameNewest(a, b);
      TailMultiset(a);
      TailMultiset(b);
      StrictOrderIsUnique(a[1..], b[1..]);
      assert a == [a[0]] + a[1..] && b == [b[0]] + b[1..];
    }
  }

  /**
   * The order is fully determined: a consistent table has exactly one listing, so
   * no tie-break beyond `-created_at` is ever needed.
   */
  lemma ListingIsUnique(s: Store, a: seq<Note>, b: seq<Note>)
    requires Invariant(s) && IsListing(s, a) && IsListing(s, b)
    ensures a == b
  {
    forall i, j | 0 <= i < j < |a| ensures a[i].createdAt > a[j].createdAt {
      ListingStrictlyNewestFirst(s, a, i, j);
    }
    forall i, j | 0 <= i < j < |b| ensures b[i].createdAt > b[j].createdAt {
      ListingStrictlyNewestFirst(s, b, i, j);
    }
    StrictOrderIsUnique(a, b);
  }

  /** Storing a note that was not stored yet under a free key adds exactly that note to the stored ones. */
  lemma StoreOneMoreValue(m: map<nat, Note>, k: nat, n: Note)
    requires k !in m && n !in m.Values
    ensures multiset(m[k := n].Values) == multiset(m.Values) + multiset{n}
  {
    var t := m[k := n];
    assert t.Values == m.Values + {n} by {
      forall x | x in t.Values ensures x in m.Values + {n} {
        var j :| j in t && t[j] == x;
        if j != k { assert m[j] == x; }
      }
      forall x | x in m.Values ensures x in t.Values {
        var j :| j in m && m[j] == x;
        assert t[j] == x;
      }
      assert t[k] == n;
    }
  }

  /** After an insert the stored notes are the old ones plus the new one, which was not among them. */
  lemma InsertAddsOneValue(s: Store, c: Cleaned)
    requires Invariant(s)
    ensures NewNote(s, c) !in s.table.Values
    ensures multiset(s.table[s.nextId := NewNote(s, c)].Values) == multiset(s.table.Values) + multiset{NewNote(s, c)}
  {
    var n := NewNote(s, c);
    forall x | x in s.table.Values ensures x != n {
      var j :| j in s.table && s.table[j] == x;
      assert x.id == j < s.nextId;
    }
    StoreOneMoreValue(s.table, s.nextId, n);
  }

  /** In a newest-first sequence, a note newer than all the others comes first. */
  lemma NewestComesFirst(notes: seq<Note>, n: Note, older: multiset<Note>)
    requires NewestFirst(notes) && multiset(notes) == older + multiset{n}
    requires forall x :: x in older ==> x.createdAt < n.createdAt
    ensures notes != [] && notes[0] == n && multiset(notes[1..]) == older
  {
    assert n in multiset(notes);
    var i :| 0 <= i < |notes| && notes[i] == n;
    assert notes[0].createdAt >= n.createdAt;
    assert notes[0] in multiset(notes);
    assert notes[0] !in older;
    assert notes == [notes[0]] + notes[1..];
    assert multiset(notes[1..]) == multiset(notes) - multiset{n};
  }

  /** The listing after an insert is the new note followed by the listing before it. */
  lemma ListAfterInsert(s: Store, c: Cleaned, notes: seq<Note>)
    requires Invariant(s)
    requires IsListing(Store(s.table[s.nextId := NewNote(s, c)], s.nextId + 1, s.clock + 1), notes)
    ensures notes != [] && notes[0] == NewNote(s, c)
    ensures IsListing(s, notes[1..])
  {
    var n := NewNote(s, c);
    InsertAddsOneValue(s, c);
    forall x | x in multiset(s.table.Values) ensures x.createdAt < n.createdAt {
      var j :| j in s.table && s.table[j] == x;
    }
    NewestComesFirst(notes, n, multiset(s.table.Values));
  }

  /**
   * A note just created heads the list, and behind it comes the list as it was
   * before: creating A, then B, then listing gives B, A, and then the older notes.
   */
  lemma CreateThenList(s: Store, form: Submission, notes: seq<Note>)
    requires Invariant(s) && CreateStep(s, form).1.Ok?
    requires IsListing(CreateStep(s, form).0, notes)
    ensures notes != [] && notes[0] == CreateStep(s, form).1.value
    ensures IsListing(s, notes[1..])
  {
    ListAfterInsert(s, Validate(form).value, notes);
  }

  /**
   * Two notes created one after the other are listed the later first, then the
   * earlier, whatever the table held before.
   */
  lemma CreateTwiceListsNewestFirst(s: Store, first: Submission, second: Submission, notes: seq<Note>)
    requires Invariant(s)
    requires CreateStep(s, first).1.Ok? && CreateStep(CreateStep(s, first).0, second).1.Ok?
    requires IsListing(CreateStep(CreateStep(s, first).0, second).0, notes)
    ensures |notes| >= 2
    ensures notes[0] == CreateStep(CreateStep(s, first).0, second).1.value
    ensures notes[1] == CreateStep(s, first).1.value
  {
    var s1 := CreateStep(s, first).0;
    CreatePreservesInvariant(s, first);
    CreateThenList(s1, second, notes);
    CreateThenList(s, first, notes[1..]);
  }

  /**
   * The notes table as the views update it. Each method takes the step of the view
   * it is named after; `Valid()` is the invariant every request keeps.
   */
  class NoteStore {
    var table: map<nat, Note>
    var nextId: nat
    var clock: nat

    /** The table as a value. */
    function State(): Store
      reads this
    {
      Store(table, nextId, clock)
    }

    ghost predicate Valid()
      reads this
    {
      Invariant(State())
    }

    /** An empty database. */
    constructor ()
      ensures Valid() && State() == Empty()
    {
      table, nextId, clock := map[], 1, 0;
    }

    /** `note_list`: every note once, newest first, and `total_notes`, their number. */
    method List() returns (notes: seq<Note>, total: nat)
      requires Valid()
      ensures IsListing(State(), notes)
      ensures total == |notes| == |table|
    {
      var rows := table;
      notes := [];
      var rest := rows.Keys;
      while rest != {}
        invariant rest <= rows.Keys
        invariant NewestFirst(notes)
        invariant multiset(notes) == multiset(NotesUnder(rows, rows.Keys - rest))
        invariant |notes| + |rest| == |rows|
        decreases |rest|
      {
        var id :| id in rest;
        CollectOneMore(rows, rest, id, notes);
        notes := InsertNewestFirst(notes, rows[id]);
        rest := rest - {id};
      }
      NotesUnderAllKeys(rows);
      assert rows.Keys - rest == rows.Keys;
      total := |notes|;
    }

    /** `note_detail`: the note stored under `id`, or 404; nothing is written. */
    method Detail(id: nat) returns (r: Outcome<Note>)
      requires Valid()
      ensures r.NotFound? <==> id !in table
      ensures r.Ok? ==> r.value == table[id] && r.value.id == id && WellFormed(r.value)
      ensures !r.Invalid?
    {
      if id !in table {
        return NotFound;
      }
      r := Ok(table[id]);
    }

    /** `note_create` on POST. */
    method Create(form: Submission) returns (r: Outcome<Note>)
      requires Valid()
      modifies this
      ensures Valid()
      ensures (State(), r) == CreateStep(old(State()), form)
    {
      var v := Validate(form);
      if v.Failure? {
        assert CreateStep(State(), form) == (State(), Invalid(v.error));
        return Invalid(v.error);
      }
      InsertKeepsInvariant(State(), v.value);
      var note := Note(nextId, v.value.title, v.value.content, clock, clock);
      assert note == NewNote(State(), v.value);
      table := table[nextId := note];
      nextId := nextId + 1;
      clock := clock + 1;
      r := Ok(note);
    }

    /** `note_update` on POST: the fetch comes first, the write last. */
    method Update(id: nat, form: Submission) returns (r: Outcome<Note>)
      requires Valid()
      modifies this
      ensures Valid()
      ensures (State(), r) == UpdateStep(old(State()), id, form)
    {
      if id !in table {
        return NotFound;
      }
      var note := table[id];
      var v := Validate(form);
      if v.Failure? {
        assert UpdateStep(State(), id, form) == (State(), Invalid(v.error));
        return Invalid(v.error);
      }
      OverwriteKeepsInvariant(State(), id, v.value);
      note := note.(title := v.value.title, content := v.value.content, updatedAt := clock);
      assert note == EditedNote(State(), id, v.value);
      table := table[id := note];
      clock := clock + 1;
      r := Ok(note);
    }

    /** `note_delete` on POST: the title is read before the row goes. */
    method Delete(id: nat) returns (r: Outcome<string>)
      requires Valid()
      modifies this
      ensures Valid()
      ensures (State(), r) == DeleteStep(old(State()), id)
    {
      DeletePreservesInvariant(State(), id);
      if id !in table {
        return NotFound;
      }
      var title := table[id].title;
      table := table - {id};
      r := Ok(title);
    }
  }
}
