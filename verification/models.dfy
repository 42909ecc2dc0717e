/** The `Note` record of notes/models.py and the rules on its fields. */
module Models {
  import opened Text

  /** `max_length` of the title column. */
  const MaxTitleLength: nat := 200

  /**
   * One sticky note. `id` is the primary key; `createdAt` and `updatedAt` are
   * readings of the store's clock (`auto_now_add` and `auto_now`).
   */
  datatype Note = Note(id: nat, title: string, content: string, createdAt: nat, updatedAt: nat)

  /** `Note.__str__`: a note is shown by its title. */
  function Str(n: Note): (r: string)
    // a stored note always has something to show: its cleaned title
    ensures WellFormed(n) ==> r != [] && IsStripped(r) && |r| <= MaxTitleLength
  {
    n.title
  }

  /**
   * What a title and a content look like once they have passed the form:
   * stripped, not empty, and the title within its column width. Content has no bound.
   */
  predicate CleanFields(title: string, content: string)
  {
    && IsStripped(title) && title != [] && |title| <= MaxTitleLength
    && IsStripped(content) && content != []
  }

  /** A stored note: clean fields, and it was not modified before it was created. */
  predicate WellFormed(n: Note)
  {
    CleanFields(n.title, n.content) && n.createdAt <= n.updatedAt
  }

  /** `Meta.ordering = ['-created_at']`: newest first; equal timestamps may come in any order. */
  predicate NewestFirst(notes: seq<Note>)
  {
    forall i, j :: 0 <= i < j < |notes| ==> notes[i].createdAt >= notes[j].createdAt
  }
}
