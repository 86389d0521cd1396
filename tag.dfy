/**
 * The tag controller over a standalone Tags table and its ContentTags join table:
 * search and sort, get-or-create by exact name, and delete.  Names are compared
 * ordinally, character by character.
 */
module Tags {
  import opened Common
  import opened Seqs
  import opened Sorting
  import opened Slugs

  datatype Tag = Tag(id: Guid, name: string, slug: Option<string>, createdAt: Time)
  datatype ContentTag = ContentTag(contentId: Guid, tagId: Guid, taggedAt: Time)

  function TagId(t: Tag): Guid { t.id }
  function TagName(t: Tag): string { t.name }
  function LinkTag(l: ContentTag): Guid { l.tagId }

  datatype TagView = TagView(id: Guid, name: string, slug: Option<string>, usageCount: nat)
  datatype TagRef = TagRef(id: Guid, name: string, slug: Option<string>)

  /** Ordinal string order: `a` is a prefix of `b` or is smaller at the first difference. */
  predicate LexLe(a: string, b: string) {
    a == [] || (b != [] && (a[0] < b[0] || (a[0] == b[0] && LexLe(a[1..], b[1..]))))
  }

  lemma {:induction false} LexLeTotal(a: string, b: string)
    ensures LexLe(a, b) || LexLe(b, a)
  {
    if a != [] && b != [] && a[0] == b[0] {
      LexLeTotal(a[1..], b[1..]);
    }
  }

  lemma {:induction false} LexLeTransitive(a: string, b: string, c: string)
    requires LexLe(a, b) && LexLe(b, c)
    ensures LexLe(a, c)
  {
    if a != [] && b != [] && c != [] && a[0] == b[0] == c[0] {
      LexLeTransitive(a[1..], b[1..], c[1..]);
    }
  }

  /**
   * Ascending by name.  The listing is ordered on the projected entries, which carry
   * `Name` unchanged, so this is the order `OrderBy(t => t.Name)` gives the rows.
   */
  predicate NameLe(a: TagView, b: TagView) { LexLe(a.name, b.name) }

  lemma NameLeTotal()
    ensures Total(NameLe)
  {
    forall a: TagView, b: TagView ensures NameLe(a, b) || NameLe(b, a) {
      LexLeTotal(a.name, b.name);
    }
    forall a: TagView, b: TagView, c: TagView | NameLe(a, b) && NameLe(b, c) ensures NameLe(a, c) {
      LexLeTransitive(a.name, b.name, c.name);
    }
  }

  /** The `search` filter: `Name.Contains(search)` when the search is non-empty, all tags otherwise. */
  function Matching(tags: seq<Tag>, search: Option<string>): (r: seq<Tag>)
    ensures forall t :: t in r <==> t in tags && (search.None? || search.value == [] || Contains(t.name, search.value))
  {
    if search.Some? && search.value != [] then Filter(tags, (t: Tag) => Contains(t.name, search.value))
    else tags
  }

  /** How many content links name the tag; zero exactly when none does. */
  function UsageCount(links: seq<ContentTag>, id: Guid): (n: nat)
    ensures n <= |links|
    ensures n > 0 <==> exists l :: l in links && l.tagId == id
  {
    var w := Where(links, LinkTag, id);
    assert w != [] ==> w[0] in w;
    |w|
  }

  function ViewOf(links: seq<ContentTag>): Tag -> TagView {
    (t: Tag) => TagView(t.id, t.name, t.slug, UsageCount(links, t.id))
  }

  /** Reordering views that carry their usage counts gives views that still carry them. */
  lemma CountsSurviveReorder(views: seq<TagView>, r: seq<TagView>, links: seq<ContentTag>)
    requires multiset(r) == multiset(views)
    requires forall k :: 0 <= k < |views| ==> views[k].usageCount == UsageCount(links, views[k].id)
    ensures forall k :: 0 <= k < |r| ==> r[k].usageCount == UsageCount(links, r[k].id)
  {
    forall k | 0 <= k < |r| ensures r[k].usageCount == UsageCount(links, r[k].id) {
      assert r[k] in multiset(views);
      var j :| 0 <= j < |views| && views[j] == r[k];
    }
  }

  class TagController {
    var tags: seq<Tag>
    var links: seq<ContentTag>

    /**
     * Ids are keys.  Names need not be unique: nothing in the schema forbids two rows of
     * one name, though Create never adds a second one.
     */
    ghost predicate Valid()
      reads this
    {
      UniqueBy(tags, TagId)
    }

    constructor (tags: seq<Tag>, links: seq<ContentTag>)
      requires UniqueBy(tags, TagId)
      ensures Valid()
      ensures this.tags == tags && this.links == links
    {
      this.tags := tags;
      this.links := links;
    }

    /** `GetAll`: the matching tags, each once, in ascending name order, with their usage counts. */
    function GetAll(search: Option<string>): (r: seq<TagView>)
      reads this
      ensures multiset(r) == multiset(Map(Matching(tags, search), ViewOf(links)))
      ensures forall k, j :: 0 <= k < j < |r| ==> LexLe(r[k].name, r[j].name)
      ensures forall k :: 0 <= k < |r| ==> r[k].usageCount == UsageCount(links, r[k].id)
    {
      NameLeTotal();
      var views := Map(Matching(tags, search), ViewOf(links));
      var r := Sort(views, NameLe);
      CountsSurviveReorder(views, r, links);
      r
    }

    /**
     * Get-or-create by exact name: the first tag of that name comes back unchanged and
     * nothing is inserted; otherwise a tag with Slug = GenerateSlug(Name) is added.
     */
    method Create(name: string, newId: Guid, now: Time) returns (r: Response<TagRef>)
      requires Valid() && newId !in Keys(tags, TagId)
      modifies this`tags
      ensures Valid()
      ensures r.Ok? <==> name in Keys(old(tags), TagName)
      ensures r.Ok? || r.Created?
      ensures UniqueBy(old(tags), TagName) ==> UniqueBy(tags, TagName)
      ensures match FindKey(old(tags), TagName, name)
              case Some(i) =>
                r == Ok(TagRef(old(tags)[i].id, name, old(tags)[i].slug)) && tags == old(tags)
              case None =>
                && r == Created(TagRef(newId, name, Some(GenerateSlug(name))))
                && tags == old(tags) + [Tag(newId, name, Some(GenerateSlug(name)), now)]
    {
      var slug := GenerateSlug(name);
      var existing := FindKey(tags, TagName, name);
      if existing.Some? {
        var t := tags[existing.value];
        return Ok(TagRef(t.id, t.name, t.slug));
      }
      var tag := Tag(newId, name, Some(slug), now);
      AppendKeepsUnique(tags, TagId, tag);
      if UniqueBy(tags, TagName) {
        AppendKeepsUnique(tags, TagName, tag);
      }
      tags := tags + [tag];
      r := Created(TagRef(tag.id, tag.name, tag.slug));
    }

    /** NotFound for a missing id; otherwise exactly that tag is removed. */
    method Delete(id: Guid) returns (r: Response<TagRef>)
      requires Valid()
      modifies this`tags
      ensures Valid()
      ensures r.NotFound? <==> id !in Keys(old(tags), TagId)
      ensures r.NotFound? || r.NoContent?
      ensures r.NotFound? ==> tags == old(tags)
      ensures r.NoContent? ==> tags == Without(old(tags), TagId, id)
      ensures match FindKey(old(tags), TagId, id)
              case None => true
              case Some(i) => tags == old(tags)[..i] + old(tags)[i + 1..]
    {
      var i := FindKey(tags, TagId, id);
      if i.None? {
        return NotFound;
      }
      WithoutUniqueKey(tags, TagId, i.value);
      WithoutKeepsUnique(tags, TagId, id, TagId);
      tags := Without(tags, TagId, id);
      r := NoContent;
    }
  }
}
