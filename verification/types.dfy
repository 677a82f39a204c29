/**
 * The records of the note store: tags, raw notes as they are stored, the
 * form data a note is created or edited from, and hydrated notes as the
 * views receive them.
 */
module Types {
  import Seqs

  datatype Option<T> = None | Some(value: T)

  /**
   * A tag: identity is `id`; its label (`name` here, since `label` is a
   * keyword of Dafny) may change and need not be unique.
   */
  datatype Tag = Tag(id: string, name: string)

  /**
   * A note as stored: its tags are referenced by id only, and nothing keeps
   * those ids pointing at live tags.
   */
  datatype RawNote = RawNote(id: string, title: string, markdown: string, tagIds: seq<string>)

  /** What the new/edit forms submit: full tag records, no id. */
  datatype NoteData = NoteData(title: string, markdown: string, tags: seq<Tag>)

  /**
   * A hydrated note: the raw note's fields (the spread copies `tagIds` too)
   * plus the tag records its ids resolve to.
   */
  datatype Note = Note(id: string, title: string, markdown: string, tagIds: seq<string>, tags: seq<Tag>)

  function TagId(t: Tag): string { t.id }

  function NoteId(n: RawNote): string { n.id }

  /** The ids of `tags`, one per tag and in the same order. */
  function TagIds(tags: seq<Tag>): (ids: seq<string>)
    ensures |ids| == |tags|
    ensures forall i :: 0 <= i < |tags| ==> ids[i] == tags[i].id
    ensures forall t :: t in tags ==> t.id in ids
  {
    Seqs.Map(TagId, tags)
  }

  /** The ids of `notes`, in order. */
  function NoteIds(notes: seq<RawNote>): (ids: seq<string>)
    ensures |ids| == |notes|
    ensures forall i :: 0 <= i < |notes| ==> ids[i] == notes[i].id
    ensures forall n :: n in notes ==> n.id in ids
  {
    Seqs.Map(NoteId, notes)
  }

  /** Position of the first occurrence of `x` in `s`. */
  function IndexOf(s: seq<string>, x: string): (i: nat)
    requires x in s
    ensures i < |s| && s[i] == x
    ensures forall j :: 0 <= j < i ==> s[j] != x
  {
    if s[0] == x then 0 else 1 + IndexOf(s[1..], x)
  }

  /** Registry invariant: no two tags share an id. */
  predicate UniqueTagIds(tags: seq<Tag>)
  {
    Seqs.DistinctKeys(TagId, tags)
  }

  /** Registry invariant: no two notes share an id. */
  predicate UniqueNoteIds(notes: seq<RawNote>)
  {
    Seqs.DistinctKeys(NoteId, notes)
  }
}
