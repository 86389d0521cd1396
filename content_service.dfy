/**
 * The content service: the Contents and ContentVersions tables, version numbering,
 * status changes and deletion with the version cascade.
 */
module Contents {
  import opened Common
  import opened Seqs
  import opened Sorting

  const Draft: string := "draft"
  const Published: string := "published"

  datatype Content = Content(
    id: Guid,
    title: string,
    body: string,
    status: string,
    authorId: Guid,
    createdAt: Time,
    updatedAt: Time,
    publishedAt: Option<Time>)

  datatype ContentVersion = ContentVersion(
    id: Guid,
    contentId: Guid,
    versionNumber: int,
    body: string,
    createdById: Guid,
    createdAt: Time,
    changeDescription: Option<string>)

  function ContentId(c: Content): Guid { c.id }
  function VersionId(v: ContentVersion): Guid { v.id }
  function VersionContent(v: ContentVersion): Guid { v.contentId }

  /** The unique index on `(ContentId, VersionNumber)`. */
  function VersionKey(v: ContentVersion): (Guid, int) { (v.contentId, v.versionNumber) }

  /** `new Content { Title, Body, AuthorId }`: every other field keeps its default. */
  function NewContent(title: string, body: string, authorId: Guid): (c: Content)
    ensures c.title == title && c.body == body && c.authorId == authorId
    ensures c.status == Draft && c.publishedAt.None?
  {
    Content(Guid(0), title, body, Draft, authorId, 0, 0, None)
  }

  /** A row as publishing leaves it: status "published", published and updated at `now`. */
  function PublishedRow(c: Content, now: Time): (p: Content)
    ensures p.status == Published && p.publishedAt == Some(now) && p.updatedAt == now
    ensures p.id == c.id && p.title == c.title && p.body == c.body && p.authorId == c.authorId
    ensures p.createdAt == c.createdAt
  {
    c.(status := Published, publishedAt := Some(now), updatedAt := now)
  }

  /** Publishing twice at the same time is publishing once. */
  lemma PublishIdempotent(c: Content, now: Time)
    ensures PublishedRow(PublishedRow(c, now), now) == PublishedRow(c, now)
  {
  }

  /**
   * The highest version number among `vs`, or None when there is none: the number of
   * `OrderByDescending(v => v.VersionNumber).FirstOrDefault()`.
   */
  function LatestNumber(vs: seq<ContentVersion>): (r: Option<int>)
    ensures r.None? <==> vs == []
    ensures r.Some? ==> exists k :: 0 <= k < |vs| && vs[k].versionNumber == r.value
    ensures r.Some? ==> forall k :: 0 <= k < |vs| ==> vs[k].versionNumber <= r.value
  {
    if vs == [] then None
    else match LatestNumber(vs[1..])
      case None => Some(vs[0].versionNumber)
      case Some(m) =>
        assert forall k :: 1 <= k < |vs| ==> vs[k] == vs[1..][k - 1];
        Some(if vs[0].versionNumber >= m then vs[0].versionNumber else m)
  }

  /** Each content's versions, in table order, are numbered 1, 2, 3, ... */
  ghost predicate Numbered(vs: seq<ContentVersion>) {
    forall c: Guid, k :: 0 <= k < |Where(vs, VersionContent, c)| ==>
      Where(vs, VersionContent, c)[k].versionNumber == k + 1
  }

  /** With numbering 1..n, "the latest number, or 0" is the number of versions. */
  lemma LatestIsCount(vs: seq<ContentVersion>, c: Guid)
    requires Numbered(vs)
    ensures LatestNumber(Where(vs, VersionContent, c)).GetOr(0) == |Where(vs, VersionContent, c)|
  {
    var w := Where(vs, VersionContent, c);
    if w != [] {
      assert w[|w| - 1].versionNumber == |w|;
    }
  }

  /** Appending version `count + 1` of a content keeps the numbering. */
  lemma AppendKeepsNumbered(vs: seq<ContentVersion>, v: ContentVersion)
    requires Numbered(vs) && v.versionNumber == |Where(vs, VersionContent, v.contentId)| + 1
    ensures Numbered(vs + [v])
  {
    forall c: Guid, k | 0 <= k < |Where(vs + [v], VersionContent, c)|
      ensures Where(vs + [v], VersionContent, c)[k].versionNumber == k + 1
    {
      WhereAppend(vs, [v], VersionContent, c);
      if c == v.contentId {
        assert Where([v], VersionContent, c) == [v];
      } else {
        assert Where([v], VersionContent, c) == [];
      }
    }
  }

  /** Removing every version of one content keeps the numbering of the others. */
  lemma WithoutKeepsNumbered(vs: seq<ContentVersion>, d: Guid)
    requires Numbered(vs)
    ensures Numbered(Without(vs, VersionContent, d))
  {
    forall c: Guid, k | 0 <= k < |Where(Without(vs, VersionContent, d), VersionContent, c)|
      ensures Where(Without(vs, VersionContent, d), VersionContent, c)[k].versionNumber == k + 1
    {
      WhereWithout(vs, VersionContent, d, c);
    }
  }

  /** The number the next version takes is not yet used by that content. */
  lemma NextNumberFree(vs: seq<ContentVersion>, c: Guid)
    requires Numbered(vs)
    ensures (c, |Where(vs, VersionContent, c)| + 1) !in Keys(vs, VersionKey)
  {
    var w := Where(vs, VersionContent, c);
    forall i | 0 <= i < |vs| && vs[i].contentId == c ensures vs[i].versionNumber <= |w| {
      assert vs[i] in w;
      var k :| 0 <= k < |w| && w[k] == vs[i];
    }
  }

  /**
   * In table order, the versions of one content have strictly increasing numbers, so no
   * two of them share a number.
   */
  lemma {:induction false} NumberedIncreasing(vs: seq<ContentVersion>, i: nat, j: nat)
    requires Numbered(vs) && i < j < |vs| && vs[i].contentId == vs[j].contentId
    ensures vs[i].versionNumber < vs[j].versionNumber
  {
    var c := vs[i].contentId;
    var a, b := vs[..j], vs[j..];
    assert vs == a + b;
    WhereAppend(a, b, VersionContent, c);
    var wa := Where(a, VersionContent, c);
    assert b[0] == vs[j];
    assert Where(b, VersionContent, c)[0] == vs[j];
    assert Where(vs, VersionContent, c)[|wa|] == vs[j];
    assert vs[i] in a;
    assert vs[i] in wa;
    var k :| 0 <= k < |wa| && wa[k] == vs[i];
    assert Where(vs, VersionContent, c)[k] == vs[i];
  }

  /** "Comes no later than" for versions: higher number first. */
  predicate NumberDesc(a: ContentVersion, b: ContentVersion) { a.versionNumber >= b.versionNumber }

  /** "Comes no later than" for contents: most recently updated first. */
  predicate UpdatedDesc(a: Content, b: Content) { a.updatedAt >= b.updatedAt }

  lemma NumberDescTotal()
    ensures Total(NumberDesc)
  {
  }

  lemma UpdatedDescTotal()
    ensures Total(UpdatedDesc)
  {
  }

  class ContentService {
    var contents: seq<Content>
    var versions: seq<ContentVersion>

    /**
     * The primary keys, the unique `(ContentId, VersionNumber)` index, the version
     * foreign key, and the 1..n numbering the service maintains.
     */
    ghost predicate Valid()
      reads this
    {
      && UniqueBy(contents, ContentId)
      && UniqueBy(versions, VersionId)
      && UniqueBy(versions, VersionKey)
      && Numbered(versions)
      && (forall v :: v in versions ==> v.contentId in Keys(contents, ContentId))
    }

    constructor (contents: seq<Content>, versions: seq<ContentVersion>)
      requires UniqueBy(contents, ContentId) && UniqueBy(versions, VersionId)
      requires UniqueBy(versions, VersionKey) && Numbered(versions)
      requires forall v :: v in versions ==> v.contentId in Keys(contents, ContentId)
      ensures Valid() && this.contents == contents && this.versions == versions
    {
      this.contents := contents;
      this.versions := versions;
    }

    /** `GetAllContentAsync`: every content, most recently updated first. */
    function AllContent(): (r: seq<Content>)
      reads this
      ensures multiset(r) == multiset(contents) && |r| == |contents|
      ensures forall c :: c in r <==> c in contents
      ensures SortedBy(r, UpdatedDesc)
    {
      UpdatedDescTotal();
      SortSameRows(contents, UpdatedDesc);
      Sort(contents, UpdatedDesc)
    }

    /** `GetContentByIdAsync`. */
    function ContentById(id: Guid): (r: Option<Content>)
      reads this
      ensures r.None? <==> id !in Keys(contents, ContentId)
      ensures r.Some? ==> r.value in contents && r.value.id == id
      ensures r.Some? ==> r.value == contents[FindKey(contents, ContentId, id).value]
    {
      match FindKey(contents, ContentId, id)
      case None => None
      case Some(i) => Some(contents[i])
    }

    /** `GetContentVersionsAsync`: exactly that content's versions, highest number first. */
    function VersionsOf(contentId: Guid): (r: seq<ContentVersion>)
      reads this
      ensures multiset(r) == multiset(Where(versions, VersionContent, contentId))
      ensures forall v :: v in r <==> v in versions && v.contentId == contentId
      ensures SortedBy(r, NumberDesc)
    {
      NumberDescTotal();
      var w := Where(versions, VersionContent, contentId);
      SortSameRows(w, NumberDesc);
      Sort(w, NumberDesc)
    }

    /**
     * Appends version (latest number or 0) + 1 of the content.  For a content that does
     * not exist the foreign key rejects the insert: nothing is added.
     */
    method CreateVersion(contentId: Guid, body: string, userId: Guid, changeDescription: Option<string>,
                         versionId: Guid, now: Time)
      returns (r: Option<ContentVersion>)
      requires Valid() && versionId !in Keys(versions, VersionId)
      modifies this`versions
      ensures Valid()
      ensures contentId !in Keys(contents, ContentId) ==> r.None? && versions == old(versions)
      ensures contentId in Keys(contents, ContentId) ==>
                && r == Some(ContentVersion(versionId, contentId,
                                            |Where(old(versions), VersionContent, contentId)| + 1,
                                            body, userId, now, changeDescription))
                && versions == old(versions) + [r.value]
    {
      if FindKey(contents, ContentId, contentId).None? {
        return None;
      }
      var number := LatestNumber(Where(versions, VersionContent, contentId)).GetOr(0) + 1;
      LatestIsCount(versions, contentId);
      var version := ContentVersion(versionId, contentId, number, body, userId, now, changeDescription);
      AppendKeepsUnique(versions, VersionId, version);
      NextNumberFree(versions, contentId);
      AppendKeepsUnique(versions, VersionKey, version);
      AppendKeepsNumbered(versions, version);
      versions := versions + [version];
      r := Some(version);
    }

    /**
     * Stores a new draft and its "Initial version", numbered 1, authored by the content's
     * author.  Both timestamps come from the one clock reading `now`.
     */
    method CreateContent(content: Content, newId: Guid, versionId: Guid, now: Time) returns (r: Content)
      requires Valid() && newId !in Keys(contents, ContentId) && versionId !in Keys(versions, VersionId)
      modifies this
      ensures Valid()
      ensures r == content.(id := newId, createdAt := now, updatedAt := now, status := Draft)
      ensures contents == old(contents) + [r]
      ensures versions == old(versions)
                + [ContentVersion(versionId, newId, 1, content.body, content.authorId, now,
                                  Some("Initial version"))]
    {
      r := content.(id := newId, createdAt := now, updatedAt := now, status := Draft);
      AppendKeepsUnique(contents, ContentId, r);
      AppendKeys(contents, ContentId, r);
      contents := contents + [r];
      WhereNoMatch(versions, VersionContent, newId);
      var v := CreateVersion(newId, content.body, content.authorId, Some("Initial version"), versionId, now);
    }

    /**
     * For a missing id: None and no change.  Otherwise overwrites Title, Body and
     * UpdatedAt from `content` and appends the next "Content updated" version, authored by
     * `content.authorId`; every other field of the row is kept.
     */
    method UpdateContent(id: Guid, content: Content, versionId: Guid, now: Time) returns (r: Option<Content>)
      requires Valid() && versionId !in Keys(versions, VersionId)
      modifies this
      ensures Valid()
      ensures match FindKey(old(contents), ContentId, id)
              case None => r.None? && contents == old(contents) && versions == old(versions)
              case Some(i) =>
                && r == Some(old(contents)[i].(title := content.title, body := content.body, updatedAt := now))
                && contents == old(contents)[i := r.value]
                && versions == old(versions)
                     + [ContentVersion(versionId, id, |Where(old(versions), VersionContent, id)| + 1,
                                       content.body, content.authorId, now, Some("Content updated"))]
    {
      var i := FindKey(contents, ContentId, id);
      if i.None? {
        return None;
      }
      var updated := contents[i.value].(title := content.title, body := content.body, updatedAt := now);
      UpdateKeepsUnique(contents, ContentId, i.value, updated);
      UpdateSameKeys(contents, ContentId, i.value, updated);
      contents := contents[i.value := updated];
      var v := CreateVersion(id, content.body, content.authorId, Some("Content updated"), versionId, now);
      r := Some(updated);
    }

    /** Removes the row and, by the cascade, its versions; false and no change for a missing id. */
    method DeleteContent(id: Guid) returns (deleted: bool)
      requires Valid()
      modifies this
      ensures Valid()
      ensures deleted <==> id in Keys(old(contents), ContentId)
      ensures !deleted ==> contents == old(contents) && versions == old(versions)
      ensures deleted ==>
                && contents == Without(old(contents), ContentId, id)
                && versions == Without(old(versions), VersionContent, id)
      ensures match FindKey(old(contents), ContentId, id)
              case None => true
              case Some(i) => contents == old(contents)[..i] + old(contents)[i + 1..]
    {
      var i := FindKey(contents, ContentId, id);
      if i.None? {
        return false;
      }
      WithoutUniqueKey(contents, ContentId, i.value);
      WithoutKeepsUnique(contents, ContentId, id, ContentId);
      WithoutKeepsUnique(versions, VersionContent, id, VersionId);
      WithoutKeepsUnique(versions, VersionContent, id, VersionKey);
      WithoutKeepsNumbered(versions, id);
      KeysWithout(contents, ContentId, id);
      contents := Without(contents, ContentId, id);
      versions := Without(versions, VersionContent, id);
      deleted := true;
    }

    /**
     * Sets Status to "published" and stamps PublishedAt and UpdatedAt; no version is
     * added.  None and no change for a missing id.
     */
    method PublishContent(id: Guid, now: Time) returns (r: Option<Content>)
      requires Valid()
      modifies this`contents
      ensures Valid()
      ensures match FindKey(old(contents), ContentId, id)
              case None => r.None? && contents == old(contents)
              case Some(i) =>
                && r == Some(PublishedRow(old(contents)[i], now))
                && contents == old(contents)[i := r.value]
    {
      var i := FindKey(contents, ContentId, id);
      if i.None? {
        return None;
      }
      var published := PublishedRow(contents[i.value], now);
      UpdateKeepsUnique(contents, ContentId, i.value, published);
      UpdateSameKeys(contents, ContentId, i.value, published);
      contents := contents[i.value := published];
      r := Some(published);
    }

    /**
     * A change made to the tracked entity of a content: `row` replaces the stored row of
     * the same id, as a later `SaveChanges` would write it.
     */
    method WriteTracked(i: nat, row: Content)
      requires Valid() && i < |contents| && row.id == contents[i].id
      modifies this`contents
      ensures Valid()
      ensures contents == old(contents)[i := row]
    {
      UpdateKeepsUnique(contents, ContentId, i, row);
      UpdateSameKeys(contents, ContentId, i, row);
      contents := contents[i := row];
    }
  }
}
