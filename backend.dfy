/** The Go side of the application (app.go): an App object that owns the
    note slice, applies the operations of package notes to it and hands every
    new list to the file store. */
module Backend {
  import N = Notes

  class App {
    var Notes: N.Slice
    /** Every list passed to SaveNotesToFile, oldest first. The file itself is
        not modelled, only the calls made to it. */
    ghost var Saved: seq<seq<N.Note>>

    ghost predicate Valid()
      reads this
    {
      Notes.Valid()
    }

    /** The notes the App currently holds. */
    function Contents(): seq<N.Note>
      reads this, Notes.data
      requires Valid()
    {
      Notes.Elems()
    }

    /** NewApp: an empty, allocated (non-nil) note slice, nothing saved yet. */
    constructor ()
      ensures Valid() && fresh(Notes.data)
      ensures Contents() == [] && Saved == []
    {
      var empty := new N.Note[0];
      Notes := N.Slice(empty, 0);
      Saved := [];
    }

    /** startup: the notes read by LoadNotesFromFile become the App's slice.
        The loaded slice is an input here, since the file is not modelled. */
    method Startup(loaded: N.Slice)
      requires loaded.Valid()
      modifies this
      ensures Valid() && Notes == loaded
      ensures Contents() == loaded.Elems() && Saved == old(Saved)
    {
      Notes := loaded;
    }

    /** CreateNote: append a note stamped `now`, then save the new list once. */
    method CreateNote(title: string, content: string, now: N.Timestamp)
      requires Valid()
      modifies this, Notes.data
      ensures Valid()
      ensures Contents() == N.Appended(old(Contents()), title, content, now)
      ensures old(Notes.len) < old(Notes.data.Length) ==> Notes.data == old(Notes.data)
      ensures old(Notes.len) == old(Notes.data.Length) ==> fresh(Notes.data)
      ensures Saved == old(Saved) + [Contents()]
    {
      Notes := N.CreateNote(Notes, title, content, now);
      Saved := Saved + [Contents()];
    }

    /** DeleteNote: drop the note at `index` (nothing for an index out of
        range), then save the resulting list once. */
    method DeleteNote(index: int)
      requires Valid()
      modifies this, Notes.data
      ensures Valid() && Notes.data == old(Notes.data)
      ensures Contents() == N.Removed(old(Contents()), index)
      ensures Saved == old(Saved) + [Contents()]
    {
      Notes := N.DeleteNote(Notes, index);
      Saved := Saved + [Contents()];
    }

    /** UpdateNoteTitle: retitle the note at `index` in place, then save once. */
    method UpdateNoteTitle(index: int, newTitle: string, now: N.Timestamp)
      requires Valid()
      modifies this, Notes.data
      ensures Valid() && Notes == old(Notes)
      ensures Contents() == N.WithTitle(old(Contents()), index, newTitle, now)
      ensures Saved == old(Saved) + [Contents()]
    {
      Notes := N.UpdateNoteTitle(Notes, index, newTitle, now);
      Saved := Saved + [Contents()];
    }

    /** UpdateNoteContent: rewrite the body of the note at `index` in place,
        then save once. */
    method UpdateNoteContent(index: int, newContent: string, now: N.Timestamp)
      requires Valid()
      modifies this, Notes.data
      ensures Valid() && Notes == old(Notes)
      ensures Contents() == N.WithContent(old(Contents()), index, newContent, now)
      ensures Saved == old(Saved) + [Contents()]
    {
      Notes := N.UpdateNoteContent(Notes, index, newContent, now);
      Saved := Saved + [Contents()];
    }

    /** GetNotes: the App's own slice, sharing its backing array; nothing
        changes. */
    method GetNotes() returns (r: N.Slice)
      requires Valid()
      ensures r.Valid() && r.data == Notes.data
      ensures r.Elems() == Contents()
    {
      r := Notes;
    }
  }
}
