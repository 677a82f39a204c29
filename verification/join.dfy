/**
 * The relational join behind `notesWithTags`: every raw note is paired with
 * the tag records its ids currently resolve to. The join filters the tag
 * registry (it does not map over `tagIds`), so resolved tags come out in
 * registry order, repeated ids resolve once, and ids with no live tag are
 * dropped.
 */
module Join {
  import Seqs
  import opened Types
  import TagRegistry

  /** The predicate the registry is filtered with for one note. */
  function Referenced(tagIds: seq<string>): Tag -> bool
  {
    (t: Tag) => t.id in tagIds
  }

  /**
   * The tags of one note: the registry entries whose id the note lists,
   * in registry order.
   */
  function ResolveTags(tagIds: seq<string>, registry: seq<Tag>): (r: seq<Tag>)
    ensures forall t :: t in r <==> t in registry && t.id in tagIds
    ensures Seqs.IsSubsequence(r, registry)
    ensures forall t :: multiset(r)[t] == if t.id in tagIds then multiset(registry)[t] else 0
  {
    Seqs.FilterCounts(Referenced(tagIds), registry);
    Seqs.Filter(Referenced(tagIds), registry)
  }

  /** One note with its tags resolved; the raw fields are copied as they are. */
  function Hydrate(registry: seq<Tag>): RawNote -> Note
  {
    (n: RawNote) => Note(n.id, n.title, n.markdown, n.tagIds, ResolveTags(n.tagIds, registry))
  }

  /** The raw note a hydrated note was made from. */
  function Dehydrate(n: Note): RawNote
  {
    RawNote(n.id, n.title, n.markdown, n.tagIds)
  }

  /**
   * `notesWithTags`: one hydrated note per raw note, in order, carrying the
   * raw note's fields unchanged; each note's tags are exactly the registry
   * tags it references, in registry order.
   */
  function NotesWithTags(notes: seq<RawNote>, registry: seq<Tag>): (r: seq<Note>)
    ensures |r| == |notes|
    ensures forall i :: 0 <= i < |notes| ==> Dehydrate(r[i]) == notes[i]
    ensures forall i, t :: 0 <= i < |notes| ==> (t in r[i].tags <==> t in registry && t.id in notes[i].tagIds)
    ensures forall i :: 0 <= i < |notes| ==> Seqs.IsSubsequence(r[i].tags, registry)
    ensures forall i, t :: 0 <= i < |notes| ==>
      multiset(r[i].tags)[t] == if t.id in notes[i].tagIds then multiset(registry)[t] else 0
  {
    Seqs.Map(Hydrate(registry), notes)
  }

  /** Forgetting the resolved tags gives back exactly the raw notes. */
  lemma DehydrateInverse(notes: seq<RawNote>, registry: seq<Tag>)
    ensures Seqs.Map(Dehydrate, NotesWithTags(notes, registry)) == notes
  {
  }

  /** No hydrated note carries a tag id that is missing from the registry. */
  lemma NoDanglingTags(notes: seq<RawNote>, registry: seq<Tag>)
    ensures forall i, x :: 0 <= i < |notes| && x in TagIds(NotesWithTags(notes, registry)[i].tags) ==>
      x in TagIds(registry) && x in notes[i].tagIds
  {
    var r := NotesWithTags(notes, registry);
    forall i, x | 0 <= i < |notes| && x in TagIds(r[i].tags)
      ensures x in TagIds(registry) && x in notes[i].tagIds
    {
      var t := r[i].tags[IndexOf(TagIds(r[i].tags), x)];
      assert t in r[i].tags;
    }
  }

  /**
   * Only which ids a note lists matters: neither their order nor repeats
   * change the resolved tags.
   */
  lemma ResolveTagsSetwise(ids1: seq<string>, ids2: seq<string>, registry: seq<Tag>)
    requires forall x :: x in ids1 <==> x in ids2
    ensures ResolveTags(ids1, registry) == ResolveTags(ids2, registry)
  {
    Seqs.FilterCongruent(Referenced(ids1), Referenced(ids2), registry);
  }

  /** A registry with unique ids resolves to tags with unique ids. */
  lemma ResolveTagsUnique(tagIds: seq<string>, registry: seq<Tag>)
    requires UniqueTagIds(registry)
    ensures UniqueTagIds(ResolveTags(tagIds, registry))
  {
    Seqs.FilterKeepsKeysDistinct(Referenced(tagIds), TagId, registry);
  }

  /**
   * The resolved tags follow the registry, not the note: a note listing
   * `b` before `a` still gets `a` before `b` when the registry has them
   * that way round.
   */
  lemma RegistryOrderWins()
    ensures ResolveTags(["b", "a"], [Tag("a", "work"), Tag("b", "home")])
         == [Tag("a", "work"), Tag("b", "home")]
  {
    var registry := [Tag("a", "work"), Tag("b", "home")];
    Seqs.FilterKeepsAll(Referenced(["b", "a"]), registry);
  }

  /**
   * `deleteTag` leaves the raw notes alone, yet after it no hydrated note
   * shows a tag with that id: each note's tags are its old tags minus that
   * one.
   */
  lemma HydrateAfterDeleteTag(notes: seq<RawNote>, registry: seq<Tag>, id: string)
    ensures forall i :: 0 <= i < |notes| ==>
      NotesWithTags(notes, TagRegistry.DeleteTag(registry, id))[i].tags
        == TagRegistry.DeleteTag(NotesWithTags(notes, registry)[i].tags, id)
    ensures forall i :: 0 <= i < |notes| ==>
      forall t :: t in NotesWithTags(notes, TagRegistry.DeleteTag(registry, id))[i].tags ==> t.id != id
  {
    forall i | 0 <= i < |notes|
      ensures NotesWithTags(notes, TagRegistry.DeleteTag(registry, id))[i].tags
        == TagRegistry.DeleteTag(NotesWithTags(notes, registry)[i].tags, id)
    {
      Seqs.FilterCommutes(Referenced(notes[i].tagIds), TagRegistry.OtherThan(id), registry);
    }
  }

  /**
   * `updateTag` leaves the raw notes alone, yet every hydrated note shows
   * the new label: each note's tags are its old tags relabelled.
   */
  lemma HydrateAfterUpdateTag(notes: seq<RawNote>, registry: seq<Tag>, id: string, name: string)
    ensures forall i :: 0 <= i < |notes| ==>
      NotesWithTags(notes, TagRegistry.UpdateTag(registry, id, name))[i].tags
        == TagRegistry.UpdateTag(NotesWithTags(notes, registry)[i].tags, id, name)
    ensures forall i, t :: 0 <= i < |notes| && t in NotesWithTags(notes, TagRegistry.UpdateTag(registry, id, name))[i].tags ==>
      t.id == id ==> t.name == name
  {
    forall i | 0 <= i < |notes|
      ensures NotesWithTags(notes, TagRegistry.UpdateTag(registry, id, name))[i].tags
        == TagRegistry.UpdateTag(NotesWithTags(notes, registry)[i].tags, id, name)
    {
      var keep := Referenced(notes[i].tagIds);
      var f := TagRegistry.Relabel(id, name);
      assert forall x :: keep(f(x)) == keep(x);
      Seqs.FilterMapCommute(keep, f, registry);
    }
  }

  /**
   * `addTag` resolves any id the notes already list: a note referencing the
   * new tag's id now shows it last, every other note is unchanged.
   */
  lemma HydrateAfterAddTag(notes: seq<RawNote>, registry: seq<Tag>, tag: Tag)
    ensures forall i :: 0 <= i < |notes| ==>
      NotesWithTags(notes, TagRegistry.AddTag(registry, tag))[i].tags
        == NotesWithTags(notes, registry)[i].tags + (if tag.id in notes[i].tagIds then [tag] else [])
  {
    forall i | 0 <= i < |notes|
      ensures NotesWithTags(notes, TagRegistry.AddTag(registry, tag))[i].tags
        == NotesWithTags(notes, registry)[i].tags + (if tag.id in notes[i].tagIds then [tag] else [])
    {
      var keep := Referenced(notes[i].tagIds);
      assert NotesWithTags(notes, registry + [tag])[i].tags == Seqs.Filter(keep, registry + [tag]);
      assert NotesWithTags(notes, registry)[i].tags == Seqs.Filter(keep, registry);
      Seqs.FilterAppend(keep, registry, [tag]);
      assert Seqs.Filter(keep, [tag]) == if tag.id in notes[i].tagIds then [tag] else [];
    }
  }
}
