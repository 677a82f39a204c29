# Note/tag store of notes-app, in Dafny

This project models the in-memory store behind the `App` component of
notes-app, a personal note-taking web app. The store holds two collections:

- raw notes, each with an id, a title, a markdown body and a list of tag ids;
- a tag registry, each tag with an id and a label.

Every note and tag handler replaces a whole collection with a new one
computed from the old one (`onDeleteNote` only when confirmed); the dialog
handlers set only `showConfirm` and `noteIdToDelete`, except
`handleConfirmDeleteClick`, which also filters the notes by the pending id.
The notes the views receive are "hydrated": each raw note is joined with the
registry tags its ids resolve to.

The model is purely functional:

- `seqs.dfy` (module `Seqs`) holds generic `Filter` and `Map`. They model
  the array methods `filter` and `map`, which the join, `updateTag`,
  `deleteTag`, `onUpdateNote`, both note deletions and the flattening of
  tags to ids are written with. It also holds facts about them:
  subsequence, occurrence counts, idempotence, commutation, distributing
  over concatenation, and keeping keys distinct.
- `types.dfy` (module `Types`) holds the records `Tag`, `RawNote`, `NoteData`
  and `Note`, and the uniqueness invariant of both registries. The tag's
  `label` field is called `name`, because `label` is a keyword of Dafny.
- `tags.dfy` (module `TagRegistry`) holds `addTag`, `updateTag` and `deleteTag`.
- `notes.dfy` (module `NoteRegistry`) holds `onCreateNote`, `onUpdateNote`,
  `onDeleteNote`, and the delete filter that `handleConfirmDeleteClick` shares.
- `join.dfy` (module `Join`) holds `notesWithTags`, and what tag changes do
  to the hydrated view.
- `app.dfy` (module `App`) holds the component state: both collections plus
  the delete-confirmation dialog (`showConfirm`, `noteIdToDelete`). Every
  handler is an event of one `Step` function. Around it are the invariant
  preserved along runs, and two worked scenarios: deleting and relabelling
  a tag that a note uses.

The join at `src/App.tsx:72` filters the tag registry; it does not map over
the note's `tagIds`. So:

- resolved tags come out in registry order, not in `tagIds` order;
- a repeated id in `tagIds` resolves once;
- an id with no live tag is dropped.

The contract of `Join.ResolveTags` states this in general: the resolved tags
are a subsequence of the registry, holding every occurrence of a referenced
tag and nothing else. `Join.ResolveTagsSetwise` adds that the order and
repeats of `tagIds` do not matter. `Join.RegistryOrderWins` is a concrete
instance.

`onDeleteNote` deletes only when `window.confirm` returns true
(`NoteRegistry.OnDeleteNote`). The dialog path (`handleConfirmDeleteClick`)
deletes whatever note is pending, without asking again.

Inputs taken as parameters:

- the `uuidV4()` result is the `id` argument of `CreateNote` and the `newId` field of `NoteCreated`;
- the `window.confirm` answer is the `confirmed` argument of `OnDeleteNote` / `NoteDeleted`.

Nothing is persisted: both collections are plain state that starts empty
(`App.Initial`).

## Model

| member | source | states |
|---|---|---|
| Types.TagIds | src/App.tsx:79 | one id per tag handed in, in the same order, and every handed-in tag's id is among them |
| NoteRegistry.Flatten | src/App.tsx:79 | the stored note carries the given id, the form's title and body, and exactly the ids of the form's tags in order |
| TagRegistry.AddTag | src/App.tsx:108-110 | the new tag is the last element; every earlier tag is unchanged; the id list grows by exactly the new id |
| TagRegistry.UpdateTag | src/App.tsx:112-122 | length, order and every id are kept; tags with the id get the new label; all other tags are identical; an absent id is a no-op |
| TagRegistry.DeleteTag | src/App.tsx:124-128 | no tag with the id remains; a tag survives iff it was there with another id; every occurrence of such a tag survives and none of the others; survivors keep their order; an absent id is a no-op |
| TagRegistry.AddTagUnique | src/App.tsx:108-110 | on a registry with unique ids, appending keeps ids unique iff the new id was not yet used |
| TagRegistry.UpdateTagUnique | src/App.tsx:112-122 | relabelling keeps the ids unique |
| TagRegistry.UpdateTagIdempotent | src/App.tsx:112-122 | the same relabel applied twice equals it applied once |
| TagRegistry.DeleteTagUnique | src/App.tsx:124-128 | deletion keeps the ids unique |
| TagRegistry.DeleteTagIdempotent | src/App.tsx:124-128 | deleting an id twice equals deleting it once |
| TagRegistry.DeleteTagRemovesOne | src/App.tsx:124-128 | with unique ids, deleting a present id shortens the registry by exactly one |
| TagRegistry.AddThenDelete | src/App.tsx:108-128 | deleting a freshly added tag restores the registry exactly |
| NoteRegistry.CreateNote | src/App.tsx:77-82 | exactly one note is appended, carrying the supplied id, the form fields and the form's tag ids; earlier notes are unchanged |
| NoteRegistry.UpdateNote | src/App.tsx:85-95 | length, order and ids are kept; every note with the id becomes the form data under that id; every other note is identical; an absent id is a no-op |
| NoteRegistry.DeleteNote | src/App.tsx:100-102 | no note with the id remains; a note survives iff it was there with another id; every occurrence of such a note survives and none of the others; survivors keep their order; an absent id is a no-op |
| NoteRegistry.OnDeleteNote | src/App.tsx:97-104 | unconfirmed, the notes are unchanged; confirmed, no note with the id remains; in both cases the survivors are exactly the unaffected notes, every occurrence of each, in order |
| NoteRegistry.CreateNoteUnique | src/App.tsx:77-82 | on unique ids, creating keeps ids unique iff the supplied id is fresh |
| NoteRegistry.CreateThenFind | src/App.tsx:77-82 | for any collection not yet using the id, looking up the freshly created note by its id finds it, with tag ids equal to the ids of the tags passed in, order kept |
| NoteRegistry.UpdateNoteUnique | src/App.tsx:85-95 | editing keeps the ids unique |
| NoteRegistry.UpdateNoteIdempotent | src/App.tsx:85-95 | submitting the same edit twice equals submitting it once |
| NoteRegistry.UpdateThenFind | src/App.tsx:85-95 | for any collection holding the id, looking it up after the edit gives the edited note under that id |
| NoteRegistry.FindNoteUnique | src/App.tsx:85-95 | with unique ids, the note looked up under a stored note's id is that very note |
| NoteRegistry.UpdateNoteTouchesOne | src/App.tsx:85-95 | with unique ids, editing a stored note's id replaces exactly that position by the form data and leaves every other note as it was |
| NoteRegistry.DeleteNoteUnique | src/App.tsx:97-104 | deletion keeps the ids unique |
| NoteRegistry.DeleteNoteIdempotent | src/App.tsx:97-104 | deleting an id twice equals deleting it once |
| NoteRegistry.DeleteNoteRemovesOne | src/App.tsx:97-104 | with unique ids, deleting a present id shortens the collection by exactly one |
| NoteRegistry.CreateThenDelete | src/App.tsx:77-104 | deleting a freshly created note restores the collection exactly |
| NoteRegistry.DeleteThenFind | src/App.tsx:97-104 | after a deletion, no note is found under the id |
| Join.ResolveTags | src/App.tsx:72 | a tag is resolved iff it is in the registry and its id is listed by the note; every occurrence of such a tag in the registry is kept and no other; resolved tags are a subsequence of the registry |
| Join.NotesWithTags | src/App.tsx:70-74 | one hydrated note per raw note, in order, with id, title, markdown and tagIds unchanged; its tags are exactly the referenced registry tags, every occurrence of each, in registry order |
| Join.DehydrateInverse | src/App.tsx:71-72 | dropping the resolved tags from the hydrated notes gives back the raw notes exactly |
| Join.NoDanglingTags | src/App.tsx:72 | every tag id in a hydrated note is present in the registry and listed by that note |
| Join.ResolveTagsSetwise | src/App.tsx:72 | two id lists with the same members resolve to the same tags, so order and repeats of tagIds do not matter |
| Join.ResolveTagsUnique | src/App.tsx:72 | over a registry with unique ids, the resolved tags have unique ids even if tagIds repeats an id |
| Join.RegistryOrderWins | src/App.tsx:72 | a note listing "b" before "a" resolves to the registry's order, a before b |
| Join.HydrateAfterDeleteTag | src/App.tsx:124-128 | after deleteTag, each hydrated note's tags are its previous tags minus the deleted id, and none carries that id |
| Join.HydrateAfterUpdateTag | src/App.tsx:112-122 | after updateTag, each hydrated note's tags are its previous tags relabelled, so the id shows the new label |
| Join.HydrateAfterAddTag | src/App.tsx:108-110 | after addTag, a note already listing the new id shows the new tag last; other notes keep their tags |
| App.HandleDeleteNoteClick | src/App.tsx:50-53 | the dialog opens with the clicked note pending; notes and tags are unchanged |
| App.HandleConfirmDeleteClick | src/App.tsx:55-61 | the dialog closes with no note pending; survivors are exactly the notes without the pending id, every occurrence of each, in their original order; tags are unchanged |
| App.HandleCancelDeleteClick | src/App.tsx:63-66 | the dialog closes with no note pending; notes and tags are unchanged |
| App.SetShowConfirm | src/App.tsx:47 | the raw setter shows or hides the dialog and keeps the pending note, the notes and the tags |
| App.Step | src/App.tsx:47-128 | one handler call: only tag handlers change the tags, only note handlers and confirmation change the notes, only dialog handlers change the dialog |
| App.TagEventsKeepNotes | src/App.tsx:108-128 | tag handlers change neither the raw notes nor the dialog (no cascade into notes) |
| App.OtherEventsKeepTags | src/App.tsx:50-104 | no note or dialog handler changes the tags |
| App.DialogEventsKeepNotes | src/App.tsx:47-66 | of the dialog handlers only confirmation changes the notes; note and tag handlers leave the dialog alone |
| App.RequestThenConfirm | src/App.tsx:50-61 | request then confirm deletes exactly the requested note and closes the dialog |
| App.HideThenConfirm | src/App.tsx:47-61 | hiding the dialog keeps the pending note, so request, hide, confirm still deletes exactly the requested note |
| App.RequestThenCancel | src/App.tsx:50-66 | request then cancel only closes the dialog |
| App.StepValid | src/App.tsx:77-128 | from unique ids, a step keeps ids unique iff the new note id or tag id it brings is fresh |
| App.RunValid | src/App.tsx:41-128 | ids stay unique along every run of handlers whose new ids are fresh |
| App.InitialValid | src/App.tsx:43-48 | the empty start satisfies the invariant and shows no notes |
| App.TagRunKeepsNotes | src/App.tsx:108-128 | any run of tag handlers leaves the raw notes exactly as they were |
| App.ScenarioDeleteTag | src/App.tsx:77-128 | create a note tagged t1, then delete t1: the registry is empty, the raw note still lists t1, the hydrated note shows no tags |
| App.ScenarioRelabel | src/App.tsx:112-122 | relabel t1 to "personal": no raw note changes, and the hydrated note shows the new label |

## Left out

- Persistence through `useLocalStorage` (src/App.tsx:43-45). Its source is not part of this model and it is a JSON/browser-storage wrapper. The two collections are plain state whose initial value is the empty fallback.
- `uuidV4` (src/App.tsx:79). It is a random generator, so the new id is a parameter. Freshness is an explicit precondition only where a property needs it (`App.FreshFor`).
- `window.confirm` (src/App.tsx:98). It is a browser dialog, so its answer is the boolean `confirmed`.
- `useMemo` caching (src/App.tsx:70). The join is a plain function of both collections.
- React scheduling: each setter is modelled as taking effect immediately, in handler order. Handlers therefore read the state of the last completed event, which is what the functional updates in the source see. `handleConfirmDeleteClick` (src/App.tsx:57) is the exception: it reads `noteIdToDelete` from the closure of the last render, not through a functional update. The model agrees with it because a render always separates the click that requests a deletion from the click that confirms it.
- Routing and JSX (src/App.tsx:130-148), Bootstrap styling, and all of src/Note.tsx (badges, modal, markdown rendering). The raw `setShowConfirm` the note view receives is modelled as `App.SetShowConfirm` (event `ShowConfirmSet`). When the modal calls it is not modelled.
- The lookup of "the current note" by id lives in NoteLayout, which is not part of this model. `NoteRegistry.FindNote` is a stand-in that returns the first note with the id, used only to state the lookup properties after create, update and delete (`CreateThenFind`, `UpdateThenFind`, `DeleteThenFind`) and, with unique ids, that the note found is the only one (`FindNoteUnique`).
