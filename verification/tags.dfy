/**
 * The tag registry: `addTag`, `updateTag` and `deleteTag`, each a functional
 * update of the whole tag collection. None of them looks at the notes.
 */
module TagRegistry {
  import Seqs
  import opened Types

  /** `addTag`: the new tag goes at the end; earlier tags are untouched. */
  function AddTag(tags: seq<Tag>, tag: Tag): (r: seq<Tag>)
    ensures |r| == |tags| + 1
    ensures r[..|tags|] == tags
    ensures r[|tags|] == tag
    ensures TagIds(r) == TagIds(tags) + [tag.id]
  {
    tags + [tag]
  }

  /** The label change `updateTag` maps over the registry. */
  function Relabel(id: string, name: string): Tag -> Tag
  {
    (t: Tag) => if t.id == id then t.(name := name) else t
  }

  /**
   * `updateTag`: every tag whose id matches gets the new label; ids, order
   * and all other tags stay as they were, and an absent id changes nothing.
   */
  function UpdateTag(tags: seq<Tag>, id: string, name: string): (r: seq<Tag>)
    ensures |r| == |tags|
    ensures TagIds(r) == TagIds(tags)
    ensures forall i :: 0 <= i < |tags| && tags[i].id == id ==> r[i].name == name
    ensures forall i :: 0 <= i < |tags| && tags[i].id != id ==> r[i] == tags[i]
    ensures id !in TagIds(tags) ==> r == tags
  {
    Seqs.Map(Relabel(id, name), tags)
  }

  /** The predicate `deleteTag` filters with. */
  function OtherThan(id: string): Tag -> bool
  {
    (t: Tag) => t.id != id
  }

  /**
   * `deleteTag`: exactly the tags with another id survive, in their
   * original order; an absent id changes nothing.
   */
  function DeleteTag(tags: seq<Tag>, id: string): (r: seq<Tag>)
    ensures forall t :: t in r <==> t in tags && t.id != id
    ensures Seqs.IsSubsequence(r, tags)
    ensures id !in TagIds(tags) ==> r == tags
    ensures forall t :: multiset(r)[t] == if t.id != id then multiset(tags)[t] else 0
  {
    Seqs.FilterAllKept(OtherThan(id), tags);
    Seqs.FilterCounts(OtherThan(id), tags);
    Seqs.Filter(OtherThan(id), tags)
  }

  /** Appending keeps the ids unique exactly when the new id is fresh. */
  lemma AddTagUnique(tags: seq<Tag>, tag: Tag)
    requires UniqueTagIds(tags)
    ensures UniqueTagIds(AddTag(tags, tag)) <==> tag.id !in TagIds(tags)
  {
    var r := AddTag(tags, tag);
    if tag.id in TagIds(tags) {
      var i := IndexOf(TagIds(tags), tag.id);
      assert r[i].id == r[|tags|].id;
    }
  }

  /** Relabelling keeps the ids unique. */
  lemma UpdateTagUnique(tags: seq<Tag>, id: string, name: string)
    requires UniqueTagIds(tags)
    ensures UniqueTagIds(UpdateTag(tags, id, name))
  {
    Seqs.MapKeepsKeysDistinct(Relabel(id, name), TagId, tags);
  }

  /** Applying the same relabelling twice is the same as once. */
  lemma UpdateTagIdempotent(tags: seq<Tag>, id: string, name: string)
    ensures UpdateTag(UpdateTag(tags, id, name), id, name) == UpdateTag(tags, id, name)
  {
    var once := UpdateTag(tags, id, name);
    var twice := UpdateTag(once, id, name);
    forall i | 0 <= i < |tags|
      ensures twice[i] == once[i]
    {
      assert TagIds(once)[i] == TagIds(tags)[i];
    }
  }

  /** Deleting keeps the ids unique. */
  lemma DeleteTagUnique(tags: seq<Tag>, id: string)
    requires UniqueTagIds(tags)
    ensures UniqueTagIds(DeleteTag(tags, id))
  {
    Seqs.FilterKeepsKeysDistinct(OtherThan(id), TagId, tags);
  }

  /** Deleting the same id twice is the same as deleting it once. */
  lemma DeleteTagIdempotent(tags: seq<Tag>, id: string)
    ensures DeleteTag(DeleteTag(tags, id), id) == DeleteTag(tags, id)
  {
    Seqs.FilterIdempotent(OtherThan(id), tags);
  }

  /** With unique ids, deleting a present id removes exactly one tag. */
  lemma DeleteTagRemovesOne(tags: seq<Tag>, id: string)
    requires UniqueTagIds(tags)
    requires id in TagIds(tags)
    ensures |DeleteTag(tags, id)| == |tags| - 1
  {
    Seqs.FilterDropsOneKey(OtherThan(id), TagId, tags, id);
  }

  /** Deleting a freshly added tag gives back the registry before it. */
  lemma AddThenDelete(tags: seq<Tag>, tag: Tag)
    requires tag.id !in TagIds(tags)
    ensures DeleteTag(AddTag(tags, tag), tag.id) == tags
  {
    Seqs.FilterAppend(OtherThan(tag.id), tags, [tag]);
    Seqs.FilterKeepsAll(OtherThan(tag.id), tags);
    assert [tag][1..] == [];
    assert Seqs.Filter(OtherThan(tag.id), [tag]) == [];
  }
}
