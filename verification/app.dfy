/**
 * The `App` component's state as a whole: the two persisted collections and
 * the delete-confirmation dialog, and every handler the component hands to
 * its views, as transitions of that state.
 */
module App {
  import Seqs
  import opened Types
  import TagRegistry
  import NoteRegistry
  import Join

  /** The dialog state: `showConfirm` and `noteIdToDelete`. */
  datatype Dialog = Dialog(showConfirm: bool, noteIdToDelete: string)

  /** The dialog as the component starts and as confirmation and cancellation leave it. */
  const Closed := Dialog(false, "")

  datatype State = State(notes: seq<RawNote>, tags: seq<Tag>, dialog: Dialog)

  /** Both collections fall back to empty; the dialog starts closed. */
  const Initial := State([], [], Closed)

  /** `handleDeleteNoteClick`: remembers the note and opens the dialog. */
  function HandleDeleteNoteClick(s: State, id: string): (s': State)
    ensures s'.dialog.showConfirm && s'.dialog.noteIdToDelete == id
    ensures s'.notes == s.notes && s'.tags == s.tags
  {
    s.(dialog := Dialog(true, id))
  }

  /**
   * `handleConfirmDeleteClick`: deletes the pending note and closes the
   * dialog; the tags are not touched.
   */
  function HandleConfirmDeleteClick(s: State): (s': State)
    ensures s'.dialog == Closed
    ensures forall n :: n in s'.notes <==> n in s.notes && n.id != s.dialog.noteIdToDelete
    ensures Seqs.IsSubsequence(s'.notes, s.notes)
    ensures forall n :: multiset(s'.notes)[n] == if n.id != s.dialog.noteIdToDelete then multiset(s.notes)[n] else 0
    ensures s'.tags == s.tags
  {
    State(NoteRegistry.DeleteNote(s.notes, s.dialog.noteIdToDelete), s.tags, Closed)
  }

  /** `handleCancelDeleteClick`: closes the dialog and forgets the note. */
  function HandleCancelDeleteClick(s: State): (s': State)
    ensures s'.dialog == Closed
    ensures s'.notes == s.notes && s'.tags == s.tags
  {
    s.(dialog := Closed)
  }

  /**
   * The raw `setShowConfirm` setter the note view receives: it shows or
   * hides the dialog but leaves the pending note, the notes and the tags
   * alone.
   */
  function SetShowConfirm(s: State, show: bool): (s': State)
    ensures s'.dialog.showConfirm == show
    ensures s'.dialog.noteIdToDelete == s.dialog.noteIdToDelete
    ensures s'.notes == s.notes && s'.tags == s.tags
  {
    s.(dialog := s.dialog.(showConfirm := show))
  }

  /**
   * Everything the views can ask of the component. `uuidV4()` and
   * `window.confirm` are resolved by the caller and arrive as arguments;
   * `ShowConfirmSet` is the raw `setShowConfirm` the note view receives.
   */
  datatype Event =
    | NoteCreated(newId: string, data: NoteData)
    | NoteUpdated(id: string, data: NoteData)
    | NoteDeleted(id: string, confirmed: bool)
    | TagAdded(tag: Tag)
    | TagUpdated(id: string, name: string)
    | TagDeleted(id: string)
    | DeleteNoteClicked(id: string)
    | ConfirmDeleteClicked
    | CancelDeleteClicked
    | ShowConfirmSet(show: bool)
  {
    predicate IsTagEvent()
    {
      TagAdded? || TagUpdated? || TagDeleted?
    }

    predicate IsDialogEvent()
    {
      DeleteNoteClicked? || ConfirmDeleteClicked? || CancelDeleteClicked? || ShowConfirmSet?
    }
  }

  /**
   * One handler call. Only tag handlers change the tags; only the note
   * handlers and confirmation change the notes; only the dialog handlers
   * change the dialog.
   */
  function Step(s: State, e: Event): (s': State)
    ensures s'.tags == s.tags || e.IsTagEvent()
    ensures s'.notes == s.notes || e.NoteCreated? || e.NoteUpdated? || e.NoteDeleted? || e.ConfirmDeleteClicked?
    ensures s'.dialog == s.dialog || e.IsDialogEvent()
  {
    match e
    case NoteCreated(id, data) => s.(notes := NoteRegistry.CreateNote(s.notes, id, data))
    case NoteUpdated(id, data) => s.(notes := NoteRegistry.UpdateNote(s.notes, id, data))
    case NoteDeleted(id, confirmed) => s.(notes := NoteRegistry.OnDeleteNote(s.notes, id, confirmed))
    case TagAdded(tag) => s.(tags := TagRegistry.AddTag(s.tags, tag))
    case TagUpdated(id, name) => s.(tags := TagRegistry.UpdateTag(s.tags, id, name))
    case TagDeleted(id) => s.(tags := TagRegistry.DeleteTag(s.tags, id))
    case DeleteNoteClicked(id) => HandleDeleteNoteClick(s, id)
    case ConfirmDeleteClicked => HandleConfirmDeleteClick(s)
    case CancelDeleteClicked => HandleCancelDeleteClick(s)
    case ShowConfirmSet(show) => SetShowConfirm(s, show)
  }

  function Run(s: State, events: seq<Event>): State
    decreases |events|
  {
    if |events| == 0 then s else Run(Step(s, events[0]), events[1..])
  }

  /** What the list and note views are given: `notesWithTags`. */
  function View(s: State): seq<Note>
  {
    Join.NotesWithTags(s.notes, s.tags)
  }

  /** Tag handlers change neither the notes nor the dialog (a corollary of `Step`'s frame contract). */
  lemma TagEventsKeepNotes(s: State, e: Event)
    requires e.IsTagEvent()
    ensures Step(s, e).notes == s.notes
    ensures Step(s, e).dialog == s.dialog
  {
  }

  /** Only tag handlers change the tags (a corollary of `Step`'s frame contract). */
  lemma OtherEventsKeepTags(s: State, e: Event)
    requires !e.IsTagEvent()
    ensures Step(s, e).tags == s.tags
  {
  }

  /**
   * Of the dialog handlers only confirmation touches the notes, and none of
   * the note or tag handlers touches the dialog (a corollary of `Step`'s
   * frame contract).
   */
  lemma DialogEventsKeepNotes(s: State, e: Event)
    ensures e.IsDialogEvent() && !e.ConfirmDeleteClicked? ==> Step(s, e).notes == s.notes
    ensures !e.IsDialogEvent() ==> Step(s, e).dialog == s.dialog
  {
  }

  /** Request then confirm deletes exactly that note and closes the dialog. */
  lemma RequestThenConfirm(s: State, id: string)
    ensures HandleConfirmDeleteClick(HandleDeleteNoteClick(s, id))
         == State(NoteRegistry.DeleteNote(s.notes, id), s.tags, Closed)
  {
  }

  /**
   * Hiding the dialog does not forget the pending note: a confirmation
   * after request and hide still deletes exactly the requested note.
   */
  lemma HideThenConfirm(s: State, id: string)
    ensures HandleConfirmDeleteClick(SetShowConfirm(HandleDeleteNoteClick(s, id), false))
         == State(NoteRegistry.DeleteNote(s.notes, id), s.tags, Closed)
  {
  }

  /** Request then cancel changes nothing but closing the dialog. */
  lemma RequestThenCancel(s: State, id: string)
    ensures HandleCancelDeleteClick(HandleDeleteNoteClick(s, id)) == s.(dialog := Closed)
  {
  }

  /** The uniqueness invariant of both registries. */
  predicate Valid(s: State)
  {
    UniqueNoteIds(s.notes) && UniqueTagIds(s.tags)
  }

  /** The ids the caller must supply fresh: the new note's and the new tag's. */
  predicate FreshFor(s: State, e: Event)
  {
    match e
    case NoteCreated(id, _) => id !in NoteIds(s.notes)
    case TagAdded(tag) => tag.id !in TagIds(s.tags)
    case _ => true
  }

  /** A step keeps the ids unique exactly when the ids it brings are fresh. */
  lemma StepValid(s: State, e: Event)
    requires Valid(s)
    ensures Valid(Step(s, e)) <==> FreshFor(s, e)
  {
    match e
    case NoteCreated(id, data) => NoteRegistry.CreateNoteUnique(s.notes, id, data);
    case NoteUpdated(id, data) => NoteRegistry.UpdateNoteUnique(s.notes, id, data);
    case NoteDeleted(id, confirmed) => NoteRegistry.DeleteNoteUnique(s.notes, id);
    case TagAdded(tag) => TagRegistry.AddTagUnique(s.tags, tag);
    case TagUpdated(id, name) => TagRegistry.UpdateTagUnique(s.tags, id, name);
    case TagDeleted(id) => TagRegistry.DeleteTagUnique(s.tags, id);
    case DeleteNoteClicked(id) =>
    case ConfirmDeleteClicked => NoteRegistry.DeleteNoteUnique(s.notes, s.dialog.noteIdToDelete);
    case CancelDeleteClicked =>
    case ShowConfirmSet(show) =>
  }

  /** Every event of the run brings fresh ids for the state it meets. */
  predicate FreshRun(s: State, events: seq<Event>)
    decreases |events|
  {
    |events| == 0 || (FreshFor(s, events[0]) && FreshRun(Step(s, events[0]), events[1..]))
  }

  /** Ids stay unique along any run whose new ids are fresh. */
  lemma {:induction false} RunValid(s: State, events: seq<Event>)
    requires Valid(s)
    requires FreshRun(s, events)
    ensures Valid(Run(s, events))
    decreases |events|
  {
    if |events| > 0 {
      StepValid(s, events[0]);
      RunValid(Step(s, events[0]), events[1..]);
    }
  }

  /** The initial state satisfies the invariant. */
  lemma InitialValid()
    ensures Valid(Initial)
    ensures View(Initial) == []
  {
  }

  /** However the tags change, the raw notes stay exactly as they were. */
  lemma {:induction false} TagRunKeepsNotes(s: State, events: seq<Event>)
    requires forall k :: 0 <= k < |events| ==> events[k].IsTagEvent()
    ensures Run(s, events).notes == s.notes
    decreases |events|
  {
    if |events| > 0 {
      TagRunKeepsNotes(Step(s, events[0]), events[1..]);
    }
  }

  /**
   * A note with a tag, then the tag deleted: the tag registry empties, the
   * raw note keeps the stale id, and the hydrated note shows no tags.
   */
  lemma ScenarioDeleteTag()
    ensures var s1 := Step(State([], [Tag("t1", "work")], Closed),
                           NoteCreated("n1", NoteData("A", "hi", [Tag("t1", "work")])));
            var s2 := Step(s1, TagDeleted("t1"));
            && s1.notes == [RawNote("n1", "A", "hi", ["t1"])]
            && s2.tags == []
            && s2.notes == s1.notes
            && View(s2) == [Note("n1", "A", "hi", ["t1"], [])]
  {
    var s0 := State([], [Tag("t1", "work")], Closed);
    var s1 := Step(s0, NoteCreated("n1", NoteData("A", "hi", [Tag("t1", "work")])));
    assert TagIds([Tag("t1", "work")]) == ["t1"];
    var s2 := Step(s1, TagDeleted("t1"));
    assert s2.tags == [];
  }

  /**
   * Relabelling a tag changes no note, and the notes referencing it show
   * the new label.
   */
  lemma ScenarioRelabel()
    ensures var s0 := State([RawNote("n1", "A", "hi", ["t1"])], [Tag("t1", "work")], Closed);
            var s1 := Step(s0, TagUpdated("t1", "personal"));
            && s1.notes == s0.notes
            && s1.tags == [Tag("t1", "personal")]
            && View(s1) == [Note("n1", "A", "hi", ["t1"], [Tag("t1", "personal")])]
  {
    var s0 := State([RawNote("n1", "A", "hi", ["t1"])], [Tag("t1", "work")], Closed);
    var s1 := Step(s0, TagUpdated("t1", "personal"));
    assert s1.tags == [Tag("t1", "personal")];
    assert Join.ResolveTags(["t1"], s1.tags) == s1.tags;
  }
}
