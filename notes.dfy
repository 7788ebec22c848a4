/** Package notes (notes/model.go, notes/logic.go): the note record and the
    index-guarded edits on a Go slice of notes. A note has no identity of its
    own; it is known only by its position in the slice. */
module Notes {

  /** The instant stored in LastUpdated. The clock (time.Now) is an input of
      every operation that stamps a note. */
  type Timestamp = int

  datatype Note = Note(title: string, content: string, lastUpdated: Timestamp)

  /** A Go slice []Note that starts at the beginning of its backing array:
      `data` is the backing array, `len` the slice's length and `data.Length`
      its capacity. Two slices with the same `data` share their elements. */
  datatype Slice = Slice(data: array<Note>, len: nat) {
    ghost predicate Valid() {
      len <= data.Length
    }

    /** The notes the slice currently shows. */
    function Elems(): seq<Note>
      reads data
      requires Valid()
    {
      data[..len]
    }
  }

  /** The guard shared by DeleteNote, UpdateNoteContent and UpdateNoteTitle:
      an index outside [0, len) leaves the list as it is. */
  predicate InRange(notes: seq<Note>, index: int) {
    0 <= index < |notes|
  }

  // ---------------------------------------------------------------------------
  // What each operation yields, as a sequence of notes
  // ---------------------------------------------------------------------------

  /** The list after CreateNote: one new note at the end, all others kept. */
  function Appended(notes: seq<Note>, title: string, body: string, now: Timestamp): (r: seq<Note>)
    ensures |r| == |notes| + 1
    ensures forall k :: 0 <= k < |notes| ==> r[k] == notes[k]
    ensures r[|notes|].title == title && r[|notes|].content == body && r[|notes|].lastUpdated == now
  {
    notes + [Note(title, body, now)]
  }

  /** The list after DeleteNote: the note at `index` is gone and the
      survivors keep their order; an out-of-range index changes nothing. */
  function Removed(notes: seq<Note>, index: int): (r: seq<Note>)
    ensures !InRange(notes, index) ==> r == notes
    ensures InRange(notes, index) ==> |r| == |notes| - 1
    ensures InRange(notes, index) ==>
      forall k :: 0 <= k < |r| ==> r[k] == notes[if k < index then k else k + 1]
  {
    if InRange(notes, index) then notes[..index] + notes[index + 1..] else notes
  }

  /** The list after UpdateNoteContent: only the content and the stamp of the
      note at `index` change. */
  function WithContent(notes: seq<Note>, index: int, body: string, now: Timestamp): (r: seq<Note>)
    ensures |r| == |notes|
    ensures !InRange(notes, index) ==> r == notes
    ensures forall k :: 0 <= k < |notes| && k != index ==> r[k] == notes[k]
    ensures InRange(notes, index) ==>
      r[index].title == notes[index].title && r[index].content == body && r[index].lastUpdated == now
  {
    if InRange(notes, index) then notes[index := notes[index].(content := body, lastUpdated := now)]
    else notes
  }

  /** The list after UpdateNoteTitle: only the title and the stamp of the note
      at `index` change. */
  function WithTitle(notes: seq<Note>, index: int, title: string, now: Timestamp): (r: seq<Note>)
    ensures |r| == |notes|
    ensures !InRange(notes, index) ==> r == notes
    ensures forall k :: 0 <= k < |notes| && k != index ==> r[k] == notes[k]
    ensures InRange(notes, index) ==>
      r[index].title == title && r[index].content == notes[index].content && r[index].lastUpdated == now
  {
    if InRange(notes, index) then notes[index := notes[index].(title := title, lastUpdated := now)]
    else notes
  }

  // ---------------------------------------------------------------------------
  // Properties relating the operations
  // ---------------------------------------------------------------------------

  /** Deleting the note that CreateNote just appended gives back the list. */
  lemma DeleteUndoesCreate(notes: seq<Note>, title: string, body: string, now: Timestamp)
    ensures Removed(Appended(notes, title, body, now), |notes|) == notes
  {
  }

  /** DeleteNote removes exactly one occurrence of the note at `index`: the
      survivors plus that note are the old list as a multiset. */
  lemma RemovedIsPermutationMinusOne(notes: seq<Note>, index: int)
    requires InRange(notes, index)
    ensures multiset(Removed(notes, index)) + multiset{notes[index]} == multiset(notes)
  {
    assert notes == notes[..index] + [notes[index]] + notes[index + 1..];
    calc {
      multiset(notes);
      multiset(notes[..index] + [notes[index]] + notes[index + 1..]);
      multiset(notes[..index]) + multiset{notes[index]} + multiset(notes[index + 1..]);
      multiset(notes[..index] + notes[index + 1..]) + multiset{notes[index]};
    }
  }

  /** Editing the title twice keeps only the second title and stamp. */
  lemma TitleLastWriteWins(notes: seq<Note>, index: int, first: string, second: string, t1: Timestamp, t2: Timestamp)
    ensures WithTitle(WithTitle(notes, index, first, t1), index, second, t2) == WithTitle(notes, index, second, t2)
  {
  }

  /** A title edit stamped `first` and a content edit stamped `second` of one
      note give the same list as the two edits in the other order with the same
      stamps: the texts agree and the note carries the later edit's stamp. */
  lemma TitleAndContentEditsCommute(notes: seq<Note>, index: int, title: string, body: string,
                                    first: Timestamp, second: Timestamp)
    ensures WithContent(WithTitle(notes, index, title, first), index, body, second)
         == WithTitle(WithContent(notes, index, body, first), index, title, second)
    ensures InRange(notes, index) ==>
      WithContent(WithTitle(notes, index, title, first), index, body, second)[index] == Note(title, body, second)
  {
  }

  // ---------------------------------------------------------------------------
  // The operations of notes/logic.go, on the slice in place
  // ---------------------------------------------------------------------------

  /** The capacity Go's runtime gives a full slice that append grows by one
      element: double while small, then about a quarter more. */
  function GrownCapacity(oldCap: nat): (c: nat)
    ensures c > oldCap
  {
    if oldCap == 0 then 1
    else if oldCap < 256 then 2 * oldCap
    else oldCap + (oldCap + 3 * 256) / 4
  }

  /** CreateNote: append(notes, newNote). With spare capacity the note is
      written into the shared backing array; otherwise the elements are copied
      into a new, larger array and the old one is left alone. */
  method CreateNote(notes: Slice, title: string, body: string, now: Timestamp) returns (r: Slice)
    requires notes.Valid()
    modifies notes.data
    ensures r.Valid()
    ensures r.Elems() == Appended(old(notes.Elems()), title, body, now)
    ensures notes.len < notes.data.Length ==>
      r.data == notes.data &&
      forall k :: 0 <= k < notes.data.Length && k != notes.len ==> notes.data[k] == old(notes.data[k])
    ensures notes.len == notes.data.Length ==>
      fresh(r.data) && r.data.Length == GrownCapacity(notes.data.Length) && unchanged(notes.data)
  {
    var newNote := Note(title, body, now);
    if notes.len < notes.data.Length {
      notes.data[notes.len] := newNote;
      r := Slice(notes.data, notes.len + 1);
      assert r.Elems() == old(notes.Elems()) + [newNote];
    } else {
      var grown := new Note[GrownCapacity(notes.data.Length)];
      for i := 0 to notes.len
        modifies grown
        invariant grown[..i] == notes.data[..i]
      {
        grown[i] := notes.data[i];
      }
      grown[notes.len] := newNote;
      r := Slice(grown, notes.len + 1);
      assert r.Elems() == old(notes.Elems()) + [newNote];
    }
  }

  /** DeleteNote: append(notes[:index], notes[index+1:]...) for an index in
      range, which shifts the tail one place down inside the shared backing
      array; any other index returns the slice untouched. */
  method DeleteNote(notes: Slice, index: int) returns (r: Slice)
    requires notes.Valid()
    modifies notes.data
    ensures r.Valid() && r.data == notes.data
    ensures r.Elems() == Removed(old(notes.Elems()), index)
    ensures !InRange(old(notes.Elems()), index) ==> r == notes && unchanged(notes.data)
    // The caller's own slice now reads the survivors followed by a second
    // copy of the old last note.
    ensures InRange(old(notes.Elems()), index) ==>
      notes.Elems() == r.Elems() + [old(notes.Elems())[notes.len - 1]]
    ensures forall k :: notes.len <= k < notes.data.Length ==> notes.data[k] == old(notes.data[k])
  {
    if index < 0 || index >= notes.len {
      return notes;
    }
    var i := index;
    while i < notes.len - 1
      invariant index <= i <= notes.len - 1
      invariant forall k :: 0 <= k < index ==> notes.data[k] == old(notes.data[k])
      invariant forall k :: index <= k < i ==> notes.data[k] == old(notes.data[k + 1])
      invariant forall k :: i <= k < notes.data.Length ==> notes.data[k] == old(notes.data[k])
    {
      notes.data[i] := notes.data[i + 1];
      i := i + 1;
    }
    r := Slice(notes.data, notes.len - 1);
    ghost var was := old(notes.Elems());
    assert |r.Elems()| == |Removed(was, index)|;
    forall k | 0 <= k < |r.Elems()|
      ensures r.Elems()[k] == Removed(was, index)[k]
    {
    }
  }

  /** UpdateNoteContent: writes Content and LastUpdated of the note at `index`
      into the caller's slice and returns that same slice. */
  method UpdateNoteContent(notes: Slice, index: int, newBody: string, now: Timestamp) returns (r: Slice)
    requires notes.Valid()
    modifies notes.data
    ensures r == notes
    ensures notes.Elems() == WithContent(old(notes.Elems()), index, newBody, now)
    ensures forall k :: notes.len <= k < notes.data.Length ==> notes.data[k] == old(notes.data[k])
  {
    if index < 0 || index >= notes.len {
      return notes;
    }
    notes.data[index] := notes.data[index].(content := newBody);
    notes.data[index] := notes.data[index].(lastUpdated := now);
    r := notes;
  }

  /** UpdateNoteTitle: writes Title and LastUpdated of the note at `index`
      into the caller's slice and returns that same slice. */
  method UpdateNoteTitle(notes: Slice, index: int, newTitle: string, now: Timestamp) returns (r: Slice)
    requires notes.Valid()
    modifies notes.data
    ensures r == notes
    ensures notes.Elems() == WithTitle(old(notes.Elems()), index, newTitle, now)
    ensures forall k :: notes.len <= k < notes.data.Length ==> notes.data[k] == old(notes.data[k])
  {
    if index < 0 || index >= notes.len {
      return notes;
    }
    notes.data[index] := notes.data[index].(title := newTitle);
    notes.data[index] := notes.data[index].(lastUpdated := now);
    r := notes;
  }
}
