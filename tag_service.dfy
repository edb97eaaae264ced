/**
 * The tag service: creation and update with unique names, and deletion
 * guarded by the links that use a tag.
 */
module TagService {
  import opened Wrappers
  import opened Seqs
  import opened Text
  import opened Entities
  import opened Store
  import opened TagRepository

  /**
   * `CreateTagAsync`: a blank name or a name another tag already has refuses
   * the tag; otherwise it is stored under the id the caller chose, and a save
   * that fails (id taken, too long) returns false.
   */
  method CreateTag(store: Store, tag: Tag) returns (ok: bool)
    requires store.Valid()
    modifies store
    ensures store.Valid()
    ensures ok <==> && !IsNullOrWhiteSpace(tag.name)
                    && !IsTagNameExists(old(store.tags), tag.name.value, None)
                    && tag.id !in TagIds(old(store.tags))
                    && TagFits(tag)
    ensures store.tags == if ok then old(store.tags) + [tag] else old(store.tags)
    ensures store.articles == old(store.articles) && store.categories == old(store.categories)
    ensures store.accounts == old(store.accounts) && store.links == old(store.links)
    ensures store.nextCategoryId == old(store.nextCategoryId)
  {
    if IsNullOrWhiteSpace(tag.name) || IsTagNameExists(store.tags, tag.name.value, None) {
      return false;
    }
    ok := store.AddTag(tag);
  }

  /**
   * `UpdateTagAsync`: a blank name or a name used by another tag refuses the
   * update; otherwise the row with that id is overwritten, and a save that
   * fails (no such row, too long) returns false.
   */
  method UpdateTag(store: Store, tag: Tag) returns (ok: bool)
    requires store.Valid()
    modifies store
    ensures store.Valid()
    ensures ok <==> && !IsNullOrWhiteSpace(tag.name)
                    && !IsTagNameExists(old(store.tags), tag.name.value, Some(tag.id))
                    && tag.id in TagIds(old(store.tags))
                    && TagFits(tag)
    ensures ok ==> store.tags == ReplaceAt(old(store.tags), IndexOf(old(store.tags), TagKey, tag.id).value, tag)
    ensures !ok ==> store.tags == old(store.tags)
    ensures store.articles == old(store.articles) && store.categories == old(store.categories)
    ensures store.accounts == old(store.accounts) && store.links == old(store.links)
    ensures store.nextCategoryId == old(store.nextCategoryId)
  {
    if IsNullOrWhiteSpace(tag.name) || IsTagNameExists(store.tags, tag.name.value, Some(tag.id)) {
      return false;
    }
    ok := store.UpdateTag(tag);
  }

  /** Names that no two tags share. */
  predicate TagNamesUnique(tags: seq<Tag>) {
    forall i, j | 0 <= i < j < |tags| && tags[i].name.Some? :: tags[i].name != tags[j].name
  }

  /** A successful create keeps the names of the tag table unique. */
  lemma CreateKeepsNamesUnique(tags: seq<Tag>, tag: Tag)
    requires TagNamesUnique(tags)
    requires tag.name.Some? && !IsTagNameExists(tags, tag.name.value, None)
    ensures TagNamesUnique(tags + [tag])
  {
    var t := tags + [tag];
    forall i, j | 0 <= i < j < |t| && t[i].name.Some? ensures t[i].name != t[j].name {
      if j == |tags| {
        assert t[i] in tags;
      }
    }
  }

  /** A successful update keeps the names of the tag table unique. */
  lemma UpdateKeepsNamesUnique(tags: seq<Tag>, k: nat, tag: Tag)
    requires TagNamesUnique(tags) && UniqueBy(tags, TagKey) && k < |tags| && tags[k].id == tag.id
    requires tag.name.Some? && !IsTagNameExists(tags, tag.name.value, Some(tag.id))
    ensures TagNamesUnique(ReplaceAt(tags, k, tag))
  {
    var t := ReplaceAt(tags, k, tag);
    forall i, j | 0 <= i < j < |t| && t[i].name.Some? ensures t[i].name != t[j].name {
      if i == k {
        assert t[j] == tags[j] && tags[j] in tags && tags[j].id != tags[k].id;
      } else if j == k {
        assert t[i] == tags[i] && tags[i] in tags && tags[i].id != tags[k].id;
      }
    }
  }

  /** `CanDeleteTagAsync`: no link names the tag. */
  predicate CanDeleteTag(links: set<NewsTag>, id: int) {
    !IsTagUsed(links, id)
  }

  /**
   * `DeleteTagAsync`: a tag that is linked to an article or does not exist is
   * kept; otherwise it is removed.
   */
  method DeleteTag(store: Store, id: int) returns (ok: bool)
    requires store.Valid()
    modifies store
    ensures store.Valid()
    ensures ok <==> CanDeleteTag(old(store.links), id) && id in TagIds(old(store.tags))
    ensures ok ==> store.tags == RemoveAt(old(store.tags), IndexOf(old(store.tags), TagKey, id).value)
    ensures ok ==> id !in TagIds(store.tags)
    ensures ok ==> forall t | t in old(store.tags) && t.id != id :: t in store.tags
    ensures !ok ==> store.tags == old(store.tags)
    ensures store.articles == old(store.articles) && store.categories == old(store.categories)
    ensures store.accounts == old(store.accounts) && store.links == old(store.links)
    ensures store.nextCategoryId == old(store.nextCategoryId)
  {
    if IsTagUsed(store.links, id) {
      return false;
    }
    if Find(store.tags, TagKey, id).None? {
      return false;
    }
    ok := store.RemoveTag(id);
  }
}
