/**
 * The note registry: `onCreateNote`, `onUpdateNote`, `onDeleteNote`, each a
 * functional update of the whole note collection. Tag records handed in by
 * the forms are flattened to their ids; the tag registry is never consulted.
 */
module NoteRegistry {
  import Seqs
  import opened Types

  /** The raw note stored for form data under a given id. */
  function Flatten(id: string, data: NoteData): (n: RawNote)
    ensures n.id == id && n.title == data.title && n.markdown == data.markdown
    ensures |n.tagIds| == |data.tags|
    ensures forall i :: 0 <= i < |data.tags| ==> n.tagIds[i] == data.tags[i].id
  {
    RawNote(id, data.title, data.markdown, TagIds(data.tags))
  }

  /**
   * `onCreateNote`, with the `uuidV4()` result passed in as `id`: one note
   * is appended; earlier notes are untouched.
   */
  function CreateNote(notes: seq<RawNote>, id: string, data: NoteData): (r: seq<RawNote>)
    ensures |r| == |notes| + 1
    ensures r[..|notes|] == notes
    ensures r[|notes|] == Flatten(id, data)
    ensures NoteIds(r) == NoteIds(notes) + [id]
  {
    notes + [Flatten(id, data)]
  }

  /** The edit `onUpdateNote` maps over the collection. */
  function Rewrite(id: string, data: NoteData): RawNote -> RawNote
  {
    (n: RawNote) =>
      if n.id == id then n.(title := data.title, markdown := data.markdown, tagIds := TagIds(data.tags))
      else n
  }

  /**
   * `onUpdateNote`: every note with the id is replaced by the form data
   * under the same id; every other note, the ids and the order are kept;
   * an absent id changes nothing.
   */
  function UpdateNote(notes: seq<RawNote>, id: string, data: NoteData): (r: seq<RawNote>)
    ensures |r| == |notes|
    ensures NoteIds(r) == NoteIds(notes)
    ensures forall i :: 0 <= i < |notes| && notes[i].id == id ==> r[i] == Flatten(id, data)
    ensures forall i :: 0 <= i < |notes| && notes[i].id != id ==> r[i] == notes[i]
    ensures id !in NoteIds(notes) ==> r == notes
  {
    Seqs.Map(Rewrite(id, data), notes)
  }

  /** The predicate the note deletions filter with. */
  function OtherThan(id: string): RawNote -> bool
  {
    (n: RawNote) => n.id != id
  }

  /**
   * The filter shared by `onDeleteNote` and `handleConfirmDeleteClick`:
   * exactly the notes with another id survive, in their original order; an
   * absent id changes nothing.
   */
  function DeleteNote(notes: seq<RawNote>, id: string): (r: seq<RawNote>)
    ensures forall n :: n in r <==> n in notes && n.id != id
    ensures Seqs.IsSubsequence(r, notes)
    ensures id !in NoteIds(notes) ==> r == notes
    ensures forall n :: multiset(r)[n] == if n.id != id then multiset(notes)[n] else 0
  {
    Seqs.FilterAllKept(OtherThan(id), notes);
    Seqs.FilterCounts(OtherThan(id), notes);
    Seqs.Filter(OtherThan(id), notes)
  }

  /**
   * `onDeleteNote`, with the answer of `window.confirm` passed in: the
   * deletion happens only when it was confirmed.
   */
  function OnDeleteNote(notes: seq<RawNote>, id: string, confirmed: bool): (r: seq<RawNote>)
    ensures !confirmed ==> r == notes
    ensures forall n :: n in r <==> n in notes && (n.id != id || !confirmed)
    ensures Seqs.IsSubsequence(r, notes)
    ensures forall n :: multiset(r)[n] == if confirmed && n.id == id then 0 else multiset(notes)[n]
  {
    if confirmed then DeleteNote(notes, id)
    else
      Seqs.SubsequenceReflexive(notes);
      notes
  }

  /** The first note with the given id, if any. */
  function FindNote(notes: seq<RawNote>, id: string): (r: Option<RawNote>)
    ensures r.None? <==> id !in NoteIds(notes)
    ensures r.Some? ==> r.value in notes && r.value.id == id
    ensures r.Some? ==> r.value == notes[IndexOf(NoteIds(notes), id)]
  {
    if |notes| == 0 then None
    else if notes[0].id == id then Some(notes[0])
    else
      assert NoteIds(notes) == [notes[0].id] + NoteIds(notes[1..]);
      assert id in NoteIds(notes) ==>
        IndexOf(NoteIds(notes), id) == 1 + IndexOf(NoteIds(notes[1..]), id);
      FindNote(notes[1..], id)
  }

  /** With unique ids, the note found under an id is the only note with it. */
  lemma FindNoteUnique(notes: seq<RawNote>, n: RawNote)
    requires UniqueNoteIds(notes)
    requires n in notes
    ensures FindNote(notes, n.id) == Some(n)
  {
    var f := FindNote(notes, n.id).value;
    var i :| 0 <= i < |notes| && notes[i] == f;
    var j :| 0 <= j < |notes| && notes[j] == n;
    assert NoteId(notes[i]) == NoteId(notes[j]);
  }

  /** Appending keeps the ids unique exactly when the new id is fresh. */
  lemma CreateNoteUnique(notes: seq<RawNote>, id: string, data: NoteData)
    requires UniqueNoteIds(notes)
    ensures UniqueNoteIds(CreateNote(notes, id, data)) <==> id !in NoteIds(notes)
  {
    var r := CreateNote(notes, id, data);
    if id in NoteIds(notes) {
      var i := IndexOf(NoteIds(notes), id);
      assert r[i].id == r[|notes|].id;
    }
  }

  /**
   * Looking up a freshly created note finds it, with the ids of the tags it
   * was created with, in their order.
   */
  lemma {:induction false} CreateThenFind(notes: seq<RawNote>, id: string, data: NoteData)
    requires id !in NoteIds(notes)
    ensures FindNote(CreateNote(notes, id, data), id) == Some(Flatten(id, data))
    ensures FindNote(CreateNote(notes, id, data), id).value.tagIds == TagIds(data.tags)
  {
    var n := Flatten(id, data);
    if |notes| > 0 {
      var c := notes + [n];
      assert NoteIds(notes)[0] == notes[0].id;
      assert c[0] == notes[0] && c[1..] == notes[1..] + [n];
      assert NoteIds(notes[1..]) == NoteIds(notes)[1..];
      CreateThenFind(notes[1..], id, data);
    }
  }

  /** Editing keeps the ids unique. */
  lemma UpdateNoteUnique(notes: seq<RawNote>, id: string, data: NoteData)
    requires UniqueNoteIds(notes)
    ensures UniqueNoteIds(UpdateNote(notes, id, data))
  {
    Seqs.MapKeepsKeysDistinct(Rewrite(id, data), NoteId, notes);
  }

  /**
   * With unique ids, an edit of a stored note's id replaces exactly that
   * note and leaves every other position as it was.
   */
  lemma UpdateNoteTouchesOne(notes: seq<RawNote>, k: nat, data: NoteData)
    requires UniqueNoteIds(notes) && k < |notes|
    ensures UpdateNote(notes, notes[k].id, data) == notes[k := Flatten(notes[k].id, data)]
  {
    forall i | 0 <= i < |notes| && i != k
      ensures notes[i].id != notes[k].id
    {
      assert NoteId(notes[i]) != NoteId(notes[k]);
    }
  }

  /** Submitting the same edit twice is the same as submitting it once. */
  lemma UpdateNoteIdempotent(notes: seq<RawNote>, id: string, data: NoteData)
    ensures UpdateNote(UpdateNote(notes, id, data), id, data) == UpdateNote(notes, id, data)
  {
    var once := UpdateNote(notes, id, data);
    var twice := UpdateNote(once, id, data);
    forall i | 0 <= i < |notes|
      ensures twice[i] == once[i]
    {
      assert NoteIds(once)[i] == NoteIds(notes)[i];
    }
  }

  /** After an edit of a present note, looking it up gives the edited note. */
  lemma {:induction false} UpdateThenFind(notes: seq<RawNote>, id: string, data: NoteData)
    requires id in NoteIds(notes)
    ensures FindNote(UpdateNote(notes, id, data), id) == Some(Flatten(id, data))
  {
    var r := UpdateNote(notes, id, data);
    if notes[0].id != id {
      assert NoteIds(notes) == [notes[0].id] + NoteIds(notes[1..]);
      UpdateThenFind(notes[1..], id, data);
      assert r[1..] == UpdateNote(notes[1..], id, data);
    }
  }

  /** Deleting keeps the ids unique. */
  lemma DeleteNoteUnique(notes: seq<RawNote>, id: string)
    requires UniqueNoteIds(notes)
    ensures UniqueNoteIds(DeleteNote(notes, id))
  {
    Seqs.FilterKeepsKeysDistinct(OtherThan(id), NoteId, notes);
  }

  /** Deleting the same id twice is the same as deleting it once. */
  lemma DeleteNoteIdempotent(notes: seq<RawNote>, id: string)
    ensures DeleteNote(DeleteNote(notes, id), id) == DeleteNote(notes, id)
  {
    Seqs.FilterIdempotent(OtherThan(id), notes);
  }

  /** With unique ids, deleting a present id removes exactly one note. */
  lemma DeleteNoteRemovesOne(notes: seq<RawNote>, id: string)
    requires UniqueNoteIds(notes)
    requires id in NoteIds(notes)
    ensures |DeleteNote(notes, id)| == |notes| - 1
  {
    Seqs.FilterDropsOneKey(OtherThan(id), NoteId, notes, id);
  }

  /** Deleting a freshly created note gives back the collection before it. */
  lemma CreateThenDelete(notes: seq<RawNote>, id: string, data: NoteData)
    requires id !in NoteIds(notes)
    ensures DeleteNote(CreateNote(notes, id, data), id) == notes
  {
    var n := Flatten(id, data);
    Seqs.FilterAppend(OtherThan(id), notes, [n]);
    Seqs.FilterKeepsAll(OtherThan(id), notes);
    assert [n][1..] == [];
    assert Seqs.Filter(OtherThan(id), [n]) == [];
  }

  /** After a deletion no note is found under the id. */
  lemma DeleteThenFind(notes: seq<RawNote>, id: string)
    ensures FindNote(DeleteNote(notes, id), id) == None
  {
  }
}
