/** The React component App of frontend/src/App.jsx: a local copy of the
    notes, the index of the selected note (held twice, as state and in a ref),
    the input that last had focus, and the handlers that edit the local copy
    and forward the same index to the Go App. */
module Frontend {
  import N = Notes
  import Backend

  datatype Option<T> = None | Some(value: T)

  /** The data-field-type of an editor input. */
  datatype Field = Title | Content

  /** The value of a state updater that may throw. */
  datatype Outcome<T> = Done(value: T) | TypeError

  // ---------------------------------------------------------------------------
  // The pure expressions of the handlers
  // ---------------------------------------------------------------------------

  /** prevNotes.filter((_, index) => index !== drop), written from the back so
      that every element keeps the index it has in the original array. */
  function FilterIndex(notes: seq<N.Note>, drop: int): (r: seq<N.Note>)
    ensures |r| == if N.InRange(notes, drop) then |notes| - 1 else |notes|
    ensures multiset(r) <= multiset(notes)
    decreases |notes|
  {
    if notes == [] then []
    else
      var last := |notes| - 1;
      assert notes == notes[..last] + [notes[last]];
      var kept := FilterIndex(notes[..last], drop);
      if last != drop then kept + [notes[last]] else kept
  }

  /** The local filter of handleDeleteNote and the backend's DeleteNote agree
      on every index, in range or not. */
  lemma {:induction false} FilterIndexIsRemoved(notes: seq<N.Note>, drop: int)
    ensures FilterIndex(notes, drop) == N.Removed(notes, drop)
    decreases |notes|
  {
    if notes != [] {
      var last := |notes| - 1;
      var prefix := notes[..last];
      FilterIndexIsRemoved(prefix, drop);
      if last != drop {
        if 0 <= drop < last {
          assert prefix[..drop] == notes[..drop];
          assert prefix[drop + 1..] + [notes[last]] == notes[drop + 1..];
          calc {
            FilterIndex(notes, drop);
            N.Removed(prefix, drop) + [notes[last]];
            prefix[..drop] + prefix[drop + 1..] + [notes[last]];
            notes[..drop] + notes[drop + 1..];
          }
        } else {
          assert prefix + [notes[last]] == notes;
        }
      }
    }
  }

  /** notes.map((note, index) => index === at ? {...note, title, last_updated} : note),
      the update of the title input's onChange. */
  function MapTitle(notes: seq<N.Note>, at: int, title: string, now: N.Timestamp): (r: seq<N.Note>)
    ensures |r| == |notes|
    ensures forall k :: 0 <= k < |notes| && k != at ==> r[k] == notes[k]
    ensures N.InRange(notes, at) ==>
      r[at].title == title && r[at].content == notes[at].content && r[at].lastUpdated == now
  {
    seq(|notes|, k requires 0 <= k < |notes| =>
      if k == at then notes[k].(title := title, lastUpdated := now) else notes[k])
  }

  /** The same map over content, the update of the content textarea's onChange. */
  function MapContent(notes: seq<N.Note>, at: int, content: string, now: N.Timestamp): (r: seq<N.Note>)
    ensures |r| == |notes|
    ensures forall k :: 0 <= k < |notes| && k != at ==> r[k] == notes[k]
    ensures N.InRange(notes, at) ==>
      r[at].title == notes[at].title && r[at].content == content && r[at].lastUpdated == now
  {
    seq(|notes|, k requires 0 <= k < |notes| =>
      if k == at then notes[k].(content := content, lastUpdated := now) else notes[k])
  }

  /** The title map and the backend's UpdateNoteTitle agree on every index. */
  lemma MapTitleIsUpdateTitle(notes: seq<N.Note>, at: int, title: string, now: N.Timestamp)
    ensures MapTitle(notes, at, title, now) == N.WithTitle(notes, at, title, now)
  {
  }

  /** The content map and the backend's UpdateNoteContent agree on every index. */
  lemma MapContentIsUpdateContent(notes: seq<N.Note>, at: int, content: string, now: N.Timestamp)
    ensures MapContent(notes, at, content, now) == N.WithContent(notes, at, content, now)
  {
  }

  /** The backend update that an edit of `field` forwards. */
  function BackendEdit(notes: seq<N.Note>, index: int, field: Field, text: string, now: N.Timestamp): seq<N.Note> {
    match field
    case Title => N.WithTitle(notes, index, text, now)
    case Content => N.WithContent(notes, index, text, now)
  }

  /** The value of `field` in `note`. */
  function FieldText(note: N.Note, field: Field): string {
    match field
    case Title => note.title
    case Content => note.content
  }

  /** The text an emoji click writes into `field`: its old value, then the emoji. */
  function WithEmoji(note: N.Note, field: Field, emoji: string): (r: string)
    ensures |r| == |FieldText(note, field)| + |emoji|
    ensures r[..|FieldText(note, field)|] == FieldText(note, field)
    ensures r[|FieldText(note, field)|..] == emoji
  {
    FieldText(note, field) + emoji
  }

  /** The setNotes updater of handleEmojiClick as written: it reads
      newNotes[index].title (or .content), which throws a TypeError whenever
      `index` lies outside the list. */
  function EmojiUpdateAsWritten(prev: seq<N.Note>, index: int, field: Field, emoji: string, now: N.Timestamp)
    : (r: Outcome<seq<N.Note>>)
    ensures r.TypeError? <==> !N.InRange(prev, index)
    ensures r.Done? ==> r.value == BackendEdit(prev, index, field, WithEmoji(prev[index], field, emoji), now)
  {
    if 0 <= index < |prev| then
      var updated := WithEmoji(prev[index], field, emoji);
      match field
      case Title => Done(prev[index := prev[index].(title := updated, lastUpdated := now)])
      case Content => Done(prev[index := prev[index].(content := updated, lastUpdated := now)])
    else
      TypeError
  }

  /** The updater with the guard its comment describes ("only proceed if we
      have a selected note"): an index outside the list leaves it unchanged,
      inside it the result is the backend's own update of that index. */
  function EmojiUpdate(prev: seq<N.Note>, index: int, field: Field, emoji: string, now: N.Timestamp)
    : (r: seq<N.Note>)
    ensures !N.InRange(prev, index) ==> r == prev
    ensures N.InRange(prev, index) ==> r == BackendEdit(prev, index, field, WithEmoji(prev[index], field, emoji), now)
  {
    match EmojiUpdateAsWritten(prev, index, field, emoji, now)
    case Done(updated) => updated
    case TypeError => prev
  }

  /** notes[selected] || null: the note the editor shows, or none. */
  function SelectedOf(notes: seq<N.Note>, selected: Option<int>): (r: Option<N.Note>)
    ensures r.Some? <==> selected.Some? && N.InRange(notes, selected.value)
    ensures r.Some? ==> r.value == notes[selected.value]
  {
    if selected.Some? && 0 <= selected.value < |notes| then Some(notes[selected.value]) else None
  }

  /** The selection handleDeleteNote sets, given the deleted index and the
      length of the list before the delete. */
  function ReselectAfterDelete(deleted: int, oldLength: nat): (r: Option<int>)
    // At or past the end of two or more notes: the last index of the shorter list.
    ensures deleted >= oldLength - 1 && oldLength >= 2 ==> r.Some? && r.value == (oldLength - 1) - 1 && r.value >= 0
    // At or past the end of at most one note: a negative index, which shows no note.
    ensures deleted >= oldLength - 1 && oldLength < 2 ==> r.Some? && r.value < 0
    // Before the last note: no selection.
    ensures deleted < oldLength - 1 ==> r.None?
  {
    if deleted >= oldLength - 1 then Some(oldLength - 2) else None
  }

  /** The selections the component can be in: none, an index into the list,
      or a negative index (-1 or -2) left behind after deleting down to an
      empty list. */
  predicate SelectionShape(notes: seq<N.Note>, selected: Option<int>) {
    selected.None? || (-2 <= selected.value < |notes| && (selected.value < 0 ==> notes == []))
  }

  /** The delete re-selection rule: deleting the last of several notes selects
      the new last note; any other delete leaves no note shown (deleting the
      only note leaves the index -1). The selection keeps its shape. */
  lemma DeleteReselects(notes: seq<N.Note>, deleted: int)
    requires SelectionShape(notes, Some(deleted))
    ensures SelectionShape(FilterIndex(notes, deleted), ReselectAfterDelete(deleted, |notes|))
    ensures |notes| >= 2 && deleted == |notes| - 1 ==>
      ReselectAfterDelete(deleted, |notes|) == Some(|notes| - 2) &&
      SelectedOf(FilterIndex(notes, deleted), ReselectAfterDelete(deleted, |notes|)) == Some(notes[|notes| - 2])
    ensures !(|notes| >= 2 && deleted == |notes| - 1) ==>
      SelectedOf(FilterIndex(notes, deleted), ReselectAfterDelete(deleted, |notes|)).None?
    ensures |notes| == 1 && deleted == 0 ==> ReselectAfterDelete(deleted, |notes|) == Some(-1)
  {
  }

  /** After the only note is deleted the selection is -1 on an empty list, so an
      emoji click that follows (the input that had focus is still referenced)
      runs the updater on index -1 of an empty list and throws. */
  lemma EmojiAfterDeletingOnlyNoteThrows(n: N.Note, field: Field, emoji: string, now: N.Timestamp)
    ensures FilterIndex([n], 0) == []
    ensures ReselectAfterDelete(0, 1) == Some(-1)
    ensures EmojiUpdateAsWritten(FilterIndex([n], 0), -1, field, emoji, now).TypeError?
  {
  }

  /** Two lists show the same notes up to their stamps: same length, same
      title and content at every index. The two sides stamp with two clocks. */
  predicate Mirrors(local: seq<N.Note>, remote: seq<N.Note>) {
    |local| == |remote| &&
    forall k :: 0 <= k < |local| ==> local[k].title == remote[k].title && local[k].content == remote[k].content
  }

  /** A delete of the same index on both sides keeps them mirrored. */
  lemma MirrorsAfterDelete(local: seq<N.Note>, remote: seq<N.Note>, index: int)
    requires Mirrors(local, remote)
    ensures Mirrors(FilterIndex(local, index), N.Removed(remote, index))
  {
    FilterIndexIsRemoved(local, index);
  }

  /** The same edit of the same index on both sides keeps them mirrored,
      whatever stamps the two clocks give. */
  lemma MirrorsAfterEdit(local: seq<N.Note>, remote: seq<N.Note>, index: int, field: Field, text: string,
                         localNow: N.Timestamp, remoteNow: N.Timestamp)
    requires Mirrors(local, remote)
    ensures Mirrors(BackendEdit(local, index, field, text, localNow), BackendEdit(remote, index, field, text, remoteNow))
  {
  }

  // ---------------------------------------------------------------------------
  // The component
  // ---------------------------------------------------------------------------

  class App {
    /** The Go App reached through the generated bindings. */
    const backend: Backend.App
    var notes: seq<N.Note>
    var selectedNoteIndex: Option<int>
    var selectedNoteIndexRef: Option<int>
    /** The input whose onFocus ran last; it is never cleared. */
    var activeInput: Option<Field>
    /** Whether the local list has been taken from the backend yet. */
    ghost var synced: bool

    ghost predicate Valid()
      reads this, backend, backend.Notes.data
    {
      && backend.Valid()
      && selectedNoteIndexRef == selectedNoteIndex
      && SelectionShape(notes, selectedNoteIndex)
      && (synced ==> Mirrors(notes, backend.Contents()))
      && (!synced ==> notes == [] && selectedNoteIndex.None?)
    }

    /** selectedNote: the note the editor shows, as characterised by SelectedOf. */
    function SelectedNote(): Option<N.Note>
      reads this
    {
      SelectedOf(notes, selectedNoteIndex)
    }

    /** The component's first render: no notes, nothing selected, no input focused. */
    constructor (backend: Backend.App)
      requires backend.Valid()
      ensures Valid() && this.backend == backend && !synced
      ensures notes == [] && selectedNoteIndex.None? && activeInput.None?
    {
      this.backend := backend;
      notes := [];
      selectedNoteIndex := None;
      selectedNoteIndexRef := None;
      activeInput := None;
      synced := false;
    }

    /** updateSelectedNoteIndex: the state and the ref get the same index. */
    method UpdateSelectedNoteIndex(index: Option<int>)
      modifies this`selectedNoteIndex, this`selectedNoteIndexRef
      ensures selectedNoteIndex == index && selectedNoteIndexRef == index
    {
      selectedNoteIndex := index;
      selectedNoteIndexRef := index;
    }

    /** fetchNotes, the mount effect: take the backend's list and, when it is
        not empty and nothing is selected, select the first note. */
    method FetchNotes()
      requires Valid() && !synced
      modifies this
      ensures Valid() && synced
      ensures backend.Contents() == old(backend.Contents())
      ensures notes == backend.Contents()
      ensures selectedNoteIndex == if |notes| > 0 then Some(0) else None
      ensures activeInput == old(activeInput)
    {
      var data := backend.GetNotes();
      notes := data.Elems();
      synced := true;
      if |notes| > 0 && selectedNoteIndex.None? {
        UpdateSelectedNoteIndex(Some(0));
      }
    }

    /** handleCreate: create an empty note on the backend, reload the list
        from it and select the new last note. */
    method HandleCreate(serverNow: N.Timestamp)
      requires Valid()
      modifies this, backend, backend.Notes.data
      ensures Valid() && synced
      ensures backend.Contents() == N.Appended(old(backend.Contents()), "", "", serverNow)
      ensures notes == backend.Contents()
      ensures selectedNoteIndex == Some(|notes| - 1)
      ensures SelectedNote() == Some(N.Note("", "", serverNow))
      ensures activeInput == old(activeInput)
      ensures backend.Notes.data == old(backend.Notes.data) || fresh(backend.Notes.data)
      ensures backend.Saved == old(backend.Saved) + [backend.Contents()]
    {
      backend.CreateNote("", "", serverNow);
      var updatedNotes := backend.GetNotes();
      notes := updatedNotes.Elems();
      synced := true;
      UpdateSelectedNoteIndex(Some(|notes| - 1));
    }

    /** handleDeleteNote: delete the selected index on the backend, filter it
        out locally and re-select by the delete rule. */
    method HandleDeleteNote()
      requires Valid() && selectedNoteIndex.Some?
      modifies this, backend, backend.Notes.data
      ensures Valid() && backend.Notes.data == old(backend.Notes.data)
      ensures notes == FilterIndex(old(notes), old(selectedNoteIndex).value)
      ensures notes == N.Removed(old(notes), old(selectedNoteIndex).value)
      ensures backend.Contents() == N.Removed(old(backend.Contents()), old(selectedNoteIndex).value)
      ensures selectedNoteIndex == ReselectAfterDelete(old(selectedNoteIndex).value, |old(notes)|)
      ensures activeInput == old(activeInput)
      ensures backend.Saved == old(backend.Saved) + [backend.Contents()]
    {
      var deleted := selectedNoteIndex.value;
      ghost var before, remoteBefore := notes, backend.Contents();
      FilterIndexIsRemoved(before, deleted);
      MirrorsAfterDelete(before, remoteBefore, deleted);
      DeleteReselects(before, deleted);
      backend.DeleteNote(deleted);
      assert backend.Contents() == N.Removed(remoteBefore, deleted);
      var oldLength := |notes|;
      notes := FilterIndex(notes, deleted);
      if deleted >= oldLength - 1 {
        UpdateSelectedNoteIndex(Some(oldLength - 2));
      } else {
        UpdateSelectedNoteIndex(None);
      }
      assert SelectionShape(notes, selectedNoteIndex);
      assert Mirrors(notes, backend.Contents());
    }

    /** handleDeleteClick: select the note whose delete button was pressed
        (the confirmation modal it opens is not modelled). */
    method HandleDeleteClick(index: int)
      requires Valid() && N.InRange(notes, index)
      modifies this`selectedNoteIndex, this`selectedNoteIndexRef
      ensures Valid() && selectedNoteIndex == Some(index)
      ensures SelectedNote() == Some(notes[index])
    {
      UpdateSelectedNoteIndex(Some(index));
    }

    /** A click on a list item (select it) or on the sidebar title (select nothing). */
    method Select(index: Option<int>)
      requires Valid() && (index.None? || N.InRange(notes, index.value))
      modifies this`selectedNoteIndex, this`selectedNoteIndexRef
      ensures Valid() && selectedNoteIndex == index
    {
      UpdateSelectedNoteIndex(index);
    }

    /** onFocus of the title input or the content textarea. */
    method OnFocus(field: Field)
      requires Valid()
      modifies this`activeInput
      ensures Valid() && activeInput == Some(field)
    {
      activeInput := Some(field);
    }

    /** onChange of the title input, which is shown only while a note is
        selected: forward the title, then map it into the local copy. */
    method OnTitleChange(value: string, now: N.Timestamp, serverNow: N.Timestamp)
      requires Valid() && SelectedNote().Some?
      modifies this, backend, backend.Notes.data
      ensures Valid() && backend.Notes.data == old(backend.Notes.data)
      ensures selectedNoteIndex == old(selectedNoteIndex) && activeInput == old(activeInput)
      ensures notes == MapTitle(old(notes), selectedNoteIndex.value, value, now)
      ensures notes == N.WithTitle(old(notes), selectedNoteIndex.value, value, now)
      ensures backend.Contents() == N.WithTitle(old(backend.Contents()), selectedNoteIndex.value, value, serverNow)
      ensures backend.Saved == old(backend.Saved) + [backend.Contents()]
    {
      var index := selectedNoteIndex.value;
      ghost var before, remoteBefore := notes, backend.Contents();
      backend.UpdateNoteTitle(index, value, serverNow);
      notes := MapTitle(notes, index, value, now);
      MapTitleIsUpdateTitle(before, index, value, now);
      MirrorsAfterEdit(before, remoteBefore, index, Title, value, now, serverNow);
    }

    /** onChange of the content textarea: forward the content, then map it
        into the local copy. */
    method OnContentChange(value: string, now: N.Timestamp, serverNow: N.Timestamp)
      requires Valid() && SelectedNote().Some?
      modifies this, backend, backend.Notes.data
      ensures Valid() && backend.Notes.data == old(backend.Notes.data)
      ensures selectedNoteIndex == old(selectedNoteIndex) && activeInput == old(activeInput)
      ensures notes == MapContent(old(notes), selectedNoteIndex.value, value, now)
      ensures notes == N.WithContent(old(notes), selectedNoteIndex.value, value, now)
      ensures backend.Contents() == N.WithContent(old(backend.Contents()), selectedNoteIndex.value, value, serverNow)
      ensures backend.Saved == old(backend.Saved) + [backend.Contents()]
    {
      var index := selectedNoteIndex.value;
      ghost var before, remoteBefore := notes, backend.Contents();
      backend.UpdateNoteContent(index, value, serverNow);
      notes := MapContent(notes, index, value, now);
      MapContentIsUpdateContent(before, index, value, now);
      MirrorsAfterEdit(before, remoteBefore, index, Content, value, now, serverNow);
    }

    /** handleEmojiClick: with a selected note and a focused input, append the
        emoji to that input's field in a copy of the list, forward the new
        text to the backend and keep the copy. An index outside the list is
        treated as no selection (see EmojiUpdateAsWritten for the code as
        written). */
    method HandleEmojiClick(emoji: string, now: N.Timestamp, serverNow: N.Timestamp)
      requires Valid()
      modifies this, backend, backend.Notes.data
      ensures Valid() && backend.Notes.data == old(backend.Notes.data)
      ensures selectedNoteIndex == old(selectedNoteIndex) && activeInput == old(activeInput)
      ensures selectedNoteIndexRef.None? || activeInput.None? ==>
        notes == old(notes) && backend.Contents() == old(backend.Contents()) && backend.Saved == old(backend.Saved)
      ensures selectedNoteIndexRef.Some? && activeInput.Some? ==>
        notes == EmojiUpdate(old(notes), selectedNoteIndexRef.value, activeInput.value, emoji, now)
      ensures selectedNoteIndexRef.Some? && activeInput.Some? && N.InRange(old(notes), selectedNoteIndexRef.value) ==>
        backend.Contents() == BackendEdit(old(backend.Contents()), selectedNoteIndexRef.value, activeInput.value,
                                          WithEmoji(old(notes)[selectedNoteIndexRef.value], activeInput.value, emoji),
                                          serverNow)
      ensures selectedNoteIndexRef.Some? && activeInput.Some? && !N.InRange(old(notes), selectedNoteIndexRef.value) ==>
        backend.Contents() == old(backend.Contents()) && backend.Saved == old(backend.Saved)
      ensures selectedNoteIndexRef.Some? && activeInput.Some? && N.InRange(old(notes), selectedNoteIndexRef.value) ==>
        backend.Saved == old(backend.Saved) + [backend.Contents()]
    {
      var current := selectedNoteIndexRef;
      if current.None? || activeInput.None? || current.value < 0 || current.value >= |notes| {
        return;
      }
      var index := current.value;
      ghost var before, remoteBefore := notes, backend.Contents();
      var newNotes := notes;
      var updated := WithEmoji(newNotes[index], activeInput.value, emoji);
      match activeInput.value {
        case Title =>
          newNotes := newNotes[index := newNotes[index].(title := updated, lastUpdated := now)];
          backend.UpdateNoteTitle(index, updated, serverNow);
        case Content =>
          newNotes := newNotes[index := newNotes[index].(content := updated, lastUpdated := now)];
          backend.UpdateNoteContent(index, updated, serverNow);
      }
      notes := newNotes;
      MirrorsAfterEdit(before, remoteBefore, index, activeInput.value, updated, now, serverNow);
    }
  }
}
