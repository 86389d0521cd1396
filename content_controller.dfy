/**
 * The content REST controller: projections of the service's rows, the mapping of
 * missing rows and missing claims to responses, and the three bulk operations.
 * The caller's NameIdentifier claim is an optional, already parsed, user id.
 */
module ContentApi {
  import opened Common
  import opened Seqs
  import opened Sorting
  import opened Contents
  import Auth
  import Collaboration

  const UpdatedNote: string := "Content updated"

  /** One row of the content list. */
  datatype ContentSummary = ContentSummary(
    id: Guid, title: string, status: string, author: string, lastModified: Time, activeEditors: nat)

  /** The body of GetById. */
  datatype ContentDetail = ContentDetail(
    id: Guid, title: string, content: string, status: string, author: string,
    createdAt: Time, updatedAt: Time, publishedAt: Option<Time>)

  /** The body of Create and Update. */
  datatype ContentBrief = ContentBrief(id: Guid, title: string, content: string, status: string)

  /** The body of Publish. */
  datatype PublishView = PublishView(id: Guid, title: string, status: string, publishedAt: Option<Time>)

  datatype CreateContentRequest = CreateContentRequest(title: string, content: string)

  /** The request's Status is accepted but never used. */
  datatype UpdateContentRequest = UpdateContentRequest(title: string, content: string, status: Option<string>)

  /** One entry of a bulk response. */
  datatype BulkResult = BulkResult(id: Guid, success: bool)

  /** `c.CollaborationSessions.Count(s => s.IsActive)`. */
  function ActiveEditors(sessions: seq<Collaboration.CollaborationSession>, contentId: Guid): (n: nat)
    ensures n <= |sessions|
    ensures n > 0 <==> exists s :: s in sessions && s.contentId == contentId && s.isActive
  {
    var active := Filter(Where(sessions, Collaboration.SessionContent, contentId), Collaboration.IsActive);
    assert active != [] ==> active[0] in active;
    |active|
  }

  /** A join makes the joined content's active-editor count one higher and leaves the others alone. */
  lemma JoinAddsEditor(sessions: seq<Collaboration.CollaborationSession>,
                       s: Collaboration.CollaborationSession, contentId: Guid)
    requires s.isActive
    ensures ActiveEditors(sessions + [s], contentId)
            == ActiveEditors(sessions, contentId) + (if contentId == s.contentId then 1 else 0)
  {
    WhereAppend(sessions, [s], Collaboration.SessionContent, contentId);
    var w := Where(sessions, Collaboration.SessionContent, contentId);
    if contentId == s.contentId {
      assert Where([s], Collaboration.SessionContent, contentId) == [s];
      FilterAppend(w, [s], Collaboration.IsActive);
      assert Filter([s], Collaboration.IsActive) == [s];
    } else {
      assert Where([s], Collaboration.SessionContent, contentId) == [];
      assert w + [] == w;
    }
  }

  /**
   * A leave or disconnect that retires a row makes that row's content's active-editor
   * count one lower and leaves the others alone.
   */
  lemma RetireRemovesEditor(sessions: seq<Collaboration.CollaborationSession>,
                            conn: Collaboration.ConnectionId, now: Time, contentId: Guid)
    requires Collaboration.FirstActive(sessions, conn).Some?
    ensures var i := Collaboration.FirstActive(sessions, conn).value;
            ActiveEditors(Collaboration.RetireFirst(sessions, conn, now), contentId)
            == ActiveEditors(sessions, contentId) - (if contentId == sessions[i].contentId then 1 else 0)
  {
    var i := Collaboration.FirstActive(sessions, conn).value;
    var t := sessions;
    var v := t[i].(isActive := false, leftAt := Some(now));
    var r := Collaboration.RetireFirst(t, conn, now);
    var a, b := t[..i], t[i + 1..];
    assert t == a + [t[i]] + b;
    assert r == a + [v] + b;
    WhereAppend(a + [t[i]], b, Collaboration.SessionContent, contentId);
    WhereAppend(a, [t[i]], Collaboration.SessionContent, contentId);
    WhereAppend(a + [v], b, Collaboration.SessionContent, contentId);
    WhereAppend(a, [v], Collaboration.SessionContent, contentId);
    var wa := Where(a, Collaboration.SessionContent, contentId);
    var wb := Where(b, Collaboration.SessionContent, contentId);
    if contentId == t[i].contentId {
      assert Where([t[i]], Collaboration.SessionContent, contentId) == [t[i]];
      assert Where([v], Collaboration.SessionContent, contentId) == [v];
      FilterAppend(wa + [t[i]], wb, Collaboration.IsActive);
      FilterAppend(wa, [t[i]], Collaboration.IsActive);
      FilterAppend(wa + [v], wb, Collaboration.IsActive);
      FilterAppend(wa, [v], Collaboration.IsActive);
      assert Filter([t[i]], Collaboration.IsActive) == [t[i]];
      assert Filter([v], Collaboration.IsActive) == [];
    } else {
      assert Where([t[i]], Collaboration.SessionContent, contentId) == [];
      assert Where([v], Collaboration.SessionContent, contentId) == [];
    }
  }

  function Summary(c: Content, users: seq<Auth.User>, sessions: seq<Collaboration.CollaborationSession>)
    : (s: ContentSummary)
    requires c.authorId in Keys(users, Auth.UserId)
    ensures s.id == c.id && s.title == c.title && s.status == c.status && s.lastModified == c.updatedAt
    ensures exists u :: u in users && u.id == c.authorId && u.username == s.author
    ensures s.activeEditors == ActiveEditors(sessions, c.id)
  {
    ContentSummary(c.id, c.title, c.status, Auth.UsernameOf(users, c.authorId), c.updatedAt,
                   ActiveEditors(sessions, c.id))
  }

  /** Summary, as a function value over the contents whose author is known. */
  function SummaryOf(users: seq<Auth.User>, sessions: seq<Collaboration.CollaborationSession>)
    : Content --> ContentSummary
  {
    (c: Content) requires c.authorId in Keys(users, Auth.UserId) => Summary(c, users, sessions)
  }

  /** `Select` of Summary over a list of contents. */
  function Summaries(cs: seq<Content>, users: seq<Auth.User>, sessions: seq<Collaboration.CollaborationSession>)
    : (r: seq<ContentSummary>)
    requires forall c :: c in cs ==> c.authorId in Keys(users, Auth.UserId)
    ensures |r| == |cs|
    ensures forall k :: 0 <= k < |r| ==> r[k] == Summary(cs[k], users, sessions)
  {
    Map(cs, SummaryOf(users, sessions))
  }

  /** Rows drawn from a table whose authors are known have known authors. */
  lemma AuthorsOfSubset(a: seq<Content>, b: seq<Content>, users: seq<Auth.User>)
    requires multiset(a) <= multiset(b)
    requires forall c :: c in b ==> c.authorId in Keys(users, Auth.UserId)
    ensures forall c :: c in a ==> c.authorId in Keys(users, Auth.UserId)
  {
    forall c | c in a ensures c.authorId in Keys(users, Auth.UserId) {
      assert c in multiset(a);
    }
  }

  /** Projecting two orderings of the same rows gives two orderings of the same summaries. */
  lemma SummariesPermutation(a: seq<Content>, b: seq<Content>, users: seq<Auth.User>,
                             sessions: seq<Collaboration.CollaborationSession>)
    requires multiset(a) == multiset(b)
    requires forall c :: c in b ==> c.authorId in Keys(users, Auth.UserId)
    ensures forall c :: c in a ==> c.authorId in Keys(users, Auth.UserId)
    ensures multiset(Summaries(a, users, sessions)) == multiset(Summaries(b, users, sessions))
  {
    var f := SummaryOf(users, sessions);
    AuthorsOfSubset(a, b, users);
    MapPermutation(a, b, f);
    assert Summaries(a, users, sessions) == Map(a, f);
    assert Summaries(b, users, sessions) == Map(b, f);
  }

  /** Summaries keep the order of the contents, so a list sorted by UpdatedAt stays sorted by lastModified. */
  lemma SummariesSorted(cs: seq<Content>, users: seq<Auth.User>, sessions: seq<Collaboration.CollaborationSession>)
    requires forall c :: c in cs ==> c.authorId in Keys(users, Auth.UserId)
    requires SortedBy(cs, UpdatedDesc)
    ensures var r := Summaries(cs, users, sessions);
            forall k, j :: 0 <= k < j < |r| ==> r[k].lastModified >= r[j].lastModified
  {
    var r := Summaries(cs, users, sessions);
    forall k, j | 0 <= k < j < |r| ensures r[k].lastModified >= r[j].lastModified {
      assert UpdatedDesc(cs[k], cs[j]);
    }
  }

  /** The row a bulk status change writes to the tracked entity. */
  function Restatused(c: Content, status: string, now: Time): Content {
    c.(status := status, updatedAt := now)
  }

  /** The table after publishing every row whose id is in `ks`. */
  function PublishAll(cs: seq<Content>, ks: set<Guid>, now: Time): (r: seq<Content>)
    ensures |r| == |cs|
    ensures forall i :: 0 <= i < |r| ==> r[i] == if cs[i].id in ks then PublishedRow(cs[i], now) else cs[i]
  {
    seq(|cs|, i requires 0 <= i < |cs| => if cs[i].id in ks then PublishedRow(cs[i], now) else cs[i])
  }

  /** The table after giving every row whose id is in `ks` the new status. */
  function RestatusAll(cs: seq<Content>, ks: set<Guid>, status: string, now: Time): (r: seq<Content>)
    ensures |r| == |cs|
    ensures forall i :: 0 <= i < |r| ==> r[i] == if cs[i].id in ks then Restatused(cs[i], status, now) else cs[i]
  {
    seq(|cs|, i requires 0 <= i < |cs| => if cs[i].id in ks then Restatused(cs[i], status, now) else cs[i])
  }

  /** Rewriting rows in place keeps their ids, so it keeps the set of ids. */
  lemma SameIdsSameKeys(a: seq<Content>, b: seq<Content>)
    requires |a| == |b| && forall i :: 0 <= i < |a| ==> a[i].id == b[i].id
    ensures Keys(a, ContentId) == Keys(b, ContentId)
  {
    forall x | x in Keys(a, ContentId) ensures x in Keys(b, ContentId) {
      var i :| 0 <= i < |a| && a[i].id == x;
      assert ContentId(b[i]) == x;
    }
    forall x | x in Keys(b, ContentId) ensures x in Keys(a, ContentId) {
      var i :| 0 <= i < |b| && b[i].id == x;
      assert ContentId(a[i]) == x;
    }
  }

  /**
   * The results of deleting `ids` in turn from a table whose keys are `keys`: an id
   * succeeds when it is stored and was not deleted by an earlier entry.
   */
  function DeleteResults(ids: seq<Guid>, keys: set<Guid>): (r: seq<BulkResult>)
    ensures |r| == |ids|
  {
    if ids == [] then []
    else
      var rest, last := ids[..|ids| - 1], ids[|ids| - 1];
      DeleteResults(rest, keys) + [BulkResult(last, last in keys && last !in rest)]
  }

  lemma DeleteResultsStep(ids: seq<Guid>, k: nat, keys: set<Guid>)
    requires k < |ids|
    ensures DeleteResults(ids[..k + 1], keys)
            == DeleteResults(ids[..k], keys) + [BulkResult(ids[k], ids[k] in keys && ids[k] !in ids[..k])]
  {
    assert ids[..k + 1][..k] == ids[..k];
  }

  /** Entry `k` of the results is the outcome for `ids[k]`. */
  lemma {:induction false} DeleteResultsAt(ids: seq<Guid>, keys: set<Guid>)
    ensures forall k :: 0 <= k < |ids| ==>
              DeleteResults(ids, keys)[k] == BulkResult(ids[k], ids[k] in keys && ids[k] !in ids[..k])
  {
    if ids != [] {
      var rest := ids[..|ids| - 1];
      var r := DeleteResults(ids, keys);
      assert r == DeleteResults(rest, keys) + [BulkResult(ids[|rest|], ids[|rest|] in keys && ids[|rest|] !in rest)];
      DeleteResultsAt(rest, keys);
      forall k | 0 <= k < |ids| ensures r[k] == BulkResult(ids[k], ids[k] in keys && ids[k] !in ids[..k]) {
        if k < |rest| {
          assert rest[..k] == ids[..k];
        }
      }
    }
  }

  lemma CountInStep(s: seq<Guid>, k: nat, ks: set<Guid>)
    requires k < |s|
    ensures CountIn(s[..k + 1], ks) == CountIn(s[..k], ks) + (if s[k] in ks then 1 else 0)
  {
    assert s[..k + 1][..k] == s[..k];
  }

  lemma ElementsStep(s: seq<Guid>, k: nat)
    requires k < |s|
    ensures Elements(s[..k + 1]) == Elements(s[..k]) + {s[k]}
  {
    assert s[..k + 1] == s[..k] + [s[k]];
  }

  class ContentController {
    const service: ContentService

    constructor (service: ContentService)
      ensures this.service == service
    {
      this.service := service;
    }

    /** Every content's author is a stored user (the Restrict foreign key on AuthorId). */
    ghost predicate AuthorsKnown(users: seq<Auth.User>)
      reads service
    {
      forall c :: c in service.contents ==> c.authorId in Keys(users, Auth.UserId)
    }

    /**
     * The content list: the summaries of all contents (one each), most recently updated
     * first, each counting the content's active sessions.
     */
    function GetAll(users: seq<Auth.User>, sessions: seq<Collaboration.CollaborationSession>)
      : (r: seq<ContentSummary>)
      reads service
      requires AuthorsKnown(users)
      ensures multiset(r) == multiset(Summaries(service.contents, users, sessions))
      ensures forall k :: 0 <= k < |r| ==> r[k].activeEditors == ActiveEditors(sessions, r[k].id)
      ensures forall k, j :: 0 <= k < j < |r| ==> r[k].lastModified >= r[j].lastModified
    {
      var all := service.AllContent();
      SummariesPermutation(all, service.contents, users, sessions);
      SummariesSorted(all, users, sessions);
      Summaries(all, users, sessions)
    }

    /** NotFound exactly when the id is not stored. */
    function GetById(id: Guid, users: seq<Auth.User>): (r: Response<ContentDetail>)
      reads service
      requires AuthorsKnown(users)
      ensures r.NotFound? <==> id !in Keys(service.contents, ContentId)
      ensures r.Ok? || r.NotFound?
      ensures r.Ok? ==>
                var c := service.contents[FindKey(service.contents, ContentId, id).value];
                && r.body == ContentDetail(id, c.title, c.body, c.status, r.body.author,
                                           c.createdAt, c.updatedAt, c.publishedAt)
                && exists u :: u in users && u.id == c.authorId && u.username == r.body.author
    {
      match service.ContentById(id)
      case None => NotFound
      case Some(c) =>
        Ok(ContentDetail(c.id, c.title, c.body, c.status, Auth.UsernameOf(users, c.authorId),
                         c.createdAt, c.updatedAt, c.publishedAt))
    }

    /** Unauthorized without a claim, before the service is touched; otherwise a new draft by the caller. */
    method Create(caller: Option<Guid>, request: CreateContentRequest, newId: Guid, versionId: Guid, now: Time)
      returns (r: Response<ContentBrief>)
      requires service.Valid()
      requires newId !in Keys(service.contents, ContentId) && versionId !in Keys(service.versions, VersionId)
      modifies service
      ensures service.Valid()
      ensures caller.None? ==>
                r == Unauthorized && service.contents == old(service.contents)
                && service.versions == old(service.versions)
      ensures caller.Some? ==>
                && r == Created(ContentBrief(newId, request.title, request.content, Draft))
                && service.contents == old(service.contents)
                     + [Content(newId, request.title, request.content, Draft, caller.value, now, now, None)]
                && service.versions == old(service.versions)
                     + [ContentVersion(versionId, newId, 1, request.content, caller.value, now,
                                       Some("Initial version"))]
    {
      if caller.None? {
        return Unauthorized;
      }
      var created := service.CreateContent(NewContent(request.title, request.content, caller.value),
                                           newId, versionId, now);
      r := Created(ContentBrief(created.id, created.title, created.body, created.status));
    }

    /**
     * Unauthorized without a claim; NotFound for a missing id.  Otherwise only Title and
     * Body change (the request's Status is dropped) and the new version is the caller's.
     */
    method Update(id: Guid, caller: Option<Guid>, request: UpdateContentRequest, versionId: Guid, now: Time)
      returns (r: Response<ContentBrief>)
      requires service.Valid() && versionId !in Keys(service.versions, VersionId)
      modifies service
      ensures service.Valid()
      ensures caller.None? ==>
                r == Unauthorized && service.contents == old(service.contents)
                && service.versions == old(service.versions)
      ensures caller.Some? ==>
                match FindKey(old(service.contents), ContentId, id)
                case None =>
                  r == NotFound && service.contents == old(service.contents)
                  && service.versions == old(service.versions)
                case Some(i) =>
                  var row := old(service.contents)[i].(title := request.title, body := request.content,
                                                       updatedAt := now);
                  && r == Ok(ContentBrief(id, request.title, request.content, old(service.contents)[i].status))
                  && service.contents == old(service.contents)[i := row]
                  && service.versions == old(service.versions)
                       + [ContentVersion(versionId, id,
                                         |Where(old(service.versions), VersionContent, id)| + 1,
                                         request.content, caller.value, now, Some(UpdatedNote))]
    {
      if caller.None? {
        return Unauthorized;
      }
      var updated := service.UpdateContent(id, NewContent(request.title, request.content, caller.value),
                                           versionId, now);
      if updated.None? {
        return NotFound;
      }
      var c := updated.value;
      r := Ok(ContentBrief(c.id, c.title, c.body, c.status));
    }

    /** NotFound for a missing id, otherwise NoContent after the delete. */
    method Delete(id: Guid) returns (r: Response<ContentBrief>)
      requires service.Valid()
      modifies service
      ensures service.Valid()
      ensures r.NotFound? <==> id !in Keys(old(service.contents), ContentId)
      ensures r.NotFound? || r.NoContent?
      ensures r.NotFound? ==>
                service.contents == old(service.contents) && service.versions == old(service.versions)
      ensures r.NoContent? ==>
                && service.contents == Without(old(service.contents), ContentId, id)
                && service.versions == Without(old(service.versions), VersionContent, id)
    {
      var deleted := service.DeleteContent(id);
      r := if deleted then NoContent else NotFound;
    }

    /** NotFound for a missing id, otherwise the published row. */
    method Publish(id: Guid, now: Time) returns (r: Response<PublishView>)
      requires service.Valid()
      modifies service
      ensures service.Valid()
      ensures service.versions == old(service.versions)
      ensures match FindKey(old(service.contents), ContentId, id)
              case None => r == NotFound && service.contents == old(service.contents)
              case Some(i) =>
                && r == Ok(PublishView(id, old(service.contents)[i].title, Published, Some(now)))
                && service.contents == old(service.contents)[i := PublishedRow(old(service.contents)[i], now)]
    {
      var published := service.PublishContent(id, now);
      if published.None? {
        return NotFound;
      }
      var c := published.value;
      r := Ok(PublishView(c.id, c.title, c.status, c.publishedAt));
    }

    /**
     * Deletes each id in turn.  An id succeeds when it was stored and did not occur
     * earlier in the list (the earlier delete already removed it).
     */
    method BulkDelete(ids: seq<Guid>) returns (results: seq<BulkResult>)
      requires service.Valid()
      modifies service
      ensures service.Valid()
      ensures |results| == |ids|
      ensures forall k :: 0 <= k < |ids| ==>
                results[k] == BulkResult(ids[k], ids[k] in Keys(old(service.contents), ContentId)
                                                 && ids[k] !in ids[..k])
      ensures service.contents == WithoutAll(old(service.contents), ContentId, Elements(ids))
      ensures service.versions == WithoutAll(old(service.versions), VersionContent, Elements(ids))
    {
      ghost var c0, v0 := service.contents, service.versions;
      WithoutAllNoMatch(c0, ContentId, {});
      WithoutAllNoMatch(v0, VersionContent, {});
      assert Elements(ids[..0]) == {};
      results := [];
      for k := 0 to |ids|
        invariant service.Valid()
        invariant |results| == k
        invariant results == DeleteResults(ids[..k], Keys(c0, ContentId))
        invariant service.contents == WithoutAll(c0, ContentId, Elements(ids[..k]))
        invariant service.versions == WithoutAll(v0, VersionContent, Elements(ids[..k]))
      {
        var success := DeleteOne(ids, k, c0, v0);
        DeleteResultsStep(ids, k, Keys(c0, ContentId));
        results := results + [BulkResult(ids[k], success)];
      }
      assert ids[..|ids|] == ids;
      DeleteResultsAt(ids, Keys(c0, ContentId));
    }

    /** Iteration `k` of BulkDelete, stated over the tables before the loop. */
    method DeleteOne(ids: seq<Guid>, k: nat, ghost c0: seq<Content>, ghost v0: seq<ContentVersion>)
      returns (success: bool)
      requires service.Valid() && k < |ids|
      requires service.contents == WithoutAll(c0, ContentId, Elements(ids[..k]))
      requires service.versions == WithoutAll(v0, VersionContent, Elements(ids[..k]))
      modifies service
      ensures service.Valid()
      ensures success == (ids[k] in Keys(c0, ContentId) && ids[k] !in ids[..k])
      ensures service.contents == WithoutAll(c0, ContentId, Elements(ids[..k + 1]))
      ensures service.versions == WithoutAll(v0, VersionContent, Elements(ids[..k + 1]))
    {
      DeleteStep(c0, v0, service.contents, service.versions, Elements(ids[..k]), ids[k]);
      success := service.DeleteContent(ids[k]);
      ElementsStep(ids, k);
    }

    /** Publishes each id in turn; an id succeeds exactly when it is stored. */
    method BulkPublish(ids: seq<Guid>, now: Time) returns (results: seq<BulkResult>)
      requires service.Valid()
      modifies service
      ensures service.Valid()
      ensures |results| == |ids|
      ensures forall k :: 0 <= k < |ids| ==>
                results[k] == BulkResult(ids[k], ids[k] in Keys(old(service.contents), ContentId))
      ensures service.contents == PublishAll(old(service.contents), Elements(ids), now)
      ensures service.versions == old(service.versions)
    {
      ghost var c0 := service.contents;
      assert Elements(ids[..0]) == {};
      assert PublishAll(c0, {}, now) == c0;
      results := [];
      for k := 0 to |ids|
        invariant service.Valid()
        invariant |results| == k
        invariant forall j :: 0 <= j < k ==> results[j] == BulkResult(ids[j], ids[j] in Keys(c0, ContentId))
        invariant service.contents == PublishAll(c0, Elements(ids[..k]), now)
        invariant service.versions == old(service.versions)
      {
        var success := PublishOne(ids, k, now, c0);
        results := results + [BulkResult(ids[k], success)];
      }
      assert ids[..|ids|] == ids;
    }

    /** Iteration `k` of BulkPublish, stated over the table before the loop. */
    method PublishOne(ids: seq<Guid>, k: nat, now: Time, ghost c0: seq<Content>) returns (success: bool)
      requires service.Valid() && k < |ids|
      requires service.contents == PublishAll(c0, Elements(ids[..k]), now)
      modifies service
      ensures service.Valid()
      ensures success == (ids[k] in Keys(c0, ContentId))
      ensures service.contents == PublishAll(c0, Elements(ids[..k + 1]), now)
      ensures service.versions == old(service.versions)
    {
      var id := ids[k];
      ghost var ks := Elements(ids[..k]);
      ghost var cur := service.contents;
      SameIdsSameKeys(c0, cur);
      var published := service.PublishContent(id, now);
      success := published.Some?;
      ElementsStep(ids, k);
      PublishStep(c0, cur, ks, id, now);
    }

    /**
     * For each stored id: the tracked row gets the status and `now`, then goes through
     * UpdateContent, which also appends a "Content updated" version authored by the
     * content's own author.  A missing id gives success=false and changes nothing.
     * `versionIds[k]` is the fresh id of the version for `ids[k]`.
     */
    method BulkUpdateStatus(ids: seq<Guid>, status: string, now: Time, versionIds: seq<Guid>)
      returns (results: seq<BulkResult>)
      requires service.Valid()
      requires |versionIds| == |ids| && Distinct(versionIds)
      requires forall k :: 0 <= k < |versionIds| ==> versionIds[k] !in Keys(service.versions, VersionId)
      modifies service
      ensures service.Valid()
      ensures |results| == |ids|
      ensures forall k :: 0 <= k < |ids| ==>
                results[k] == BulkResult(ids[k], ids[k] in Keys(old(service.contents), ContentId))
      ensures service.contents == RestatusAll(old(service.contents), Elements(ids), status, now)
      ensures |service.versions| == |old(service.versions)| + CountIn(ids, Keys(old(service.contents), ContentId))
      ensures service.versions[..|old(service.versions)|] == old(service.versions)
      ensures forall j :: |old(service.versions)| <= j < |service.versions| ==>
                var v := service.versions[j];
                && v.changeDescription == Some(UpdatedNote) && v.createdAt == now && v.contentId in ids
                && exists c :: c in old(service.contents) && c.id == v.contentId
                               && v.createdById == c.authorId && v.body == c.body
      ensures service.versions == old(service.versions)
                + StatusVersions(old(service.contents), old(service.versions), ids, versionIds, now)
    {
      ghost var c0, v0 := service.contents, service.versions;
      assert Elements(ids[..0]) == {};
      assert RestatusAll(c0, {}, status, now) == c0;
      results := [];
      for k := 0 to |ids|
        invariant service.Valid()
        invariant |results| == k
        invariant forall j :: 0 <= j < k ==> results[j] == BulkResult(ids[j], ids[j] in Keys(c0, ContentId))
        invariant service.contents == RestatusAll(c0, Elements(ids[..k]), status, now)
        invariant service.versions == v0 + StatusVersions(c0, v0, ids[..k], versionIds[..k], now)
      {
        var success := UpdateStatusStep(ids, status, now, versionIds, k, c0, v0);
        ResultsStep(results, ids, k, Keys(c0, ContentId), success);
        results := results + [BulkResult(ids[k], success)];
      }
      assert ids[..|ids|] == ids && versionIds[..|versionIds|] == versionIds;
      StatusVersionsLength(c0, v0, ids, versionIds, now);
      TrailSpec(c0, v0, ids, versionIds, now);
    }

    /** Iteration `k` of BulkUpdateStatus, stated over the tables before the loop. */
    method UpdateStatusStep(ids: seq<Guid>, status: string, now: Time, versionIds: seq<Guid>, k: nat,
                            ghost c0: seq<Content>, ghost v0: seq<ContentVersion>)
      returns (success: bool)
      requires service.Valid() && k < |ids| && |versionIds| == |ids| && Distinct(versionIds)
      requires forall j :: 0 <= j < |versionIds| ==> versionIds[j] !in Keys(v0, VersionId)
      requires service.contents == RestatusAll(c0, Elements(ids[..k]), status, now)
      requires service.versions == v0 + StatusVersions(c0, v0, ids[..k], versionIds[..k], now)
      modifies service
      ensures service.Valid()
      ensures success == (ids[k] in Keys(c0, ContentId))
      ensures service.contents == RestatusAll(c0, Elements(ids[..k + 1]), status, now)
      ensures service.versions == v0 + StatusVersions(c0, v0, ids[..k + 1], versionIds[..k + 1], now)
    {
      ghost var cur, vcur := service.contents, service.versions;
      FreshVersionId(c0, v0, ids, versionIds, k, now);
      success := UpdateStatusOne(ids[k], status, now, versionIds[k]);
      StatusStepTables(c0, v0, cur, vcur, service.contents, service.versions, ids, versionIds, k, status, now);
    }

    /**
     * One iteration of BulkUpdateStatus: a stored row gets the status and `now` on its
     * tracked entity, then goes through UpdateContent with itself as the request, which
     * keeps Title and Body and appends a "Content updated" version by the row's author.
     */
    method UpdateStatusOne(id: Guid, status: string, now: Time, versionId: Guid) returns (success: bool)
      requires service.Valid() && versionId !in Keys(service.versions, VersionId)
      modifies service
      ensures service.Valid()
      ensures success <==> id in Keys(old(service.contents), ContentId)
      ensures match FindKey(old(service.contents), ContentId, id)
              case None => service.contents == old(service.contents) && service.versions == old(service.versions)
              case Some(i) =>
                var c := old(service.contents)[i];
                && service.contents == old(service.contents)[i := Restatused(c, status, now)]
                && service.versions == old(service.versions)
                     + [ContentVersion(versionId, id, |Where(old(service.versions), VersionContent, id)| + 1,
                                       c.body, c.authorId, now, Some(UpdatedNote))]
    {
      var i := FindKey(service.contents, ContentId, id);
      if i.None? {
        return false;
      }
      ghost var c0 := service.contents;
      var row := Restatused(service.contents[i.value], status, now);
      service.WriteTracked(i.value, row);
      FindKeyAt(service.contents, ContentId, id, i.value);
      var updated := service.UpdateContent(id, row, versionId, now);
      assert row.(title := row.title, body := row.body, updatedAt := now) == row;
      success := true;
    }
  }

  /**
   * One step of the bulk delete loop: the table after the ids so far, with one more id
   * removed, is the table with all of them removed, whether or not that id is stored.
   */
  lemma DeleteStep(c0: seq<Content>, v0: seq<ContentVersion>, cur: seq<Content>, vcur: seq<ContentVersion>,
                   ks: set<Guid>, id: Guid)
    requires cur == WithoutAll(c0, ContentId, ks) && vcur == WithoutAll(v0, VersionContent, ks)
    requires forall v :: v in vcur ==> v.contentId in Keys(cur, ContentId)
    ensures id in Keys(cur, ContentId) <==> id in Keys(c0, ContentId) && id !in ks
    ensures id in Keys(cur, ContentId) ==>
              && Without(cur, ContentId, id) == WithoutAll(c0, ContentId, ks + {id})
              && Without(vcur, VersionContent, id) == WithoutAll(v0, VersionContent, ks + {id})
    ensures id !in Keys(cur, ContentId) ==>
              cur == WithoutAll(c0, ContentId, ks + {id}) && vcur == WithoutAll(v0, VersionContent, ks + {id})
  {
    KeysWithoutAll(c0, ContentId, ks);
    WithoutAllStep(c0, ContentId, ks, id);
    WithoutAllStep(v0, VersionContent, ks, id);
    if id !in Keys(cur, ContentId) {
      NotInKeys(cur, ContentId, id);
      WithoutNoMatch(cur, ContentId, id);
      WithoutNoMatch(vcur, VersionContent, id);
    }
  }

  /**
   * A version the bulk status loop appended: a "Content updated" version made at `now`,
   * for one of the ids so far, with one of the version ids so far, carrying the body and
   * author of the stored content.
   */
  ghost predicate TrailEntry(v: ContentVersion, c0: seq<Content>, ids: seq<Guid>, vids: seq<Guid>, now: Time) {
    && v.changeDescription == Some(UpdatedNote) && v.createdAt == now
    && v.contentId in ids && v.id in vids
    && exists c :: c in c0 && c.id == v.contentId && v.createdById == c.authorId && v.body == c.body
  }

  /**
   * The versions the bulk status loop appends, in order: for each stored id of `ids`, a
   * "Content updated" version with the matching entry of `vids` as its id, numbered after
   * the versions of that content so far, carrying the stored content's body and author.
   */
  ghost function StatusVersions(c0: seq<Content>, v0: seq<ContentVersion>, ids: seq<Guid>, vids: seq<Guid>,
                                now: Time): seq<ContentVersion>
    requires |vids| == |ids|
    decreases |ids|
  {
    if ids == [] then []
    else
      var n := |ids| - 1;
      var prev := StatusVersions(c0, v0, ids[..n], vids[..n], now);
      match FindKey(c0, ContentId, ids[n])
      case None => prev
      case Some(i) => prev + [StatusEntry(c0[i], v0 + prev, vids[n], now)]
  }

  /** The "Content updated" version UpdateContent appends for `c` to the table `vs`. */
  function StatusEntry(c: Content, vs: seq<ContentVersion>, vid: Guid, now: Time): ContentVersion {
    ContentVersion(vid, c.id, |Where(vs, VersionContent, c.id)| + 1, c.body, c.authorId, now, Some(UpdatedNote))
  }

  /** StatusVersions of the first k + 1 ids, in terms of the first k. */
  lemma StatusVersionsUnfold(c0: seq<Content>, v0: seq<ContentVersion>, ids: seq<Guid>, vids: seq<Guid>,
                             now: Time, k: nat)
    requires |vids| == |ids| && k < |ids|
    ensures var prev := StatusVersions(c0, v0, ids[..k], vids[..k], now);
            StatusVersions(c0, v0, ids[..k + 1], vids[..k + 1], now)
            == match FindKey(c0, ContentId, ids[k])
               case None => prev
               case Some(i) => prev + [StatusEntry(c0[i], v0 + prev, vids[k], now)]
  {
    assert ids[..k + 1][..k] == ids[..k] && vids[..k + 1][..k] == vids[..k];
    assert ids[..k + 1][k] == ids[k] && vids[..k + 1][k] == vids[k];
  }

  /** One version per stored entry of `ids`, repeats included. */
  lemma {:induction false} StatusVersionsLength(c0: seq<Content>, v0: seq<ContentVersion>, ids: seq<Guid>,
                                                vids: seq<Guid>, now: Time)
    requires |vids| == |ids|
    ensures |StatusVersions(c0, v0, ids, vids, now)| == CountIn(ids, Keys(c0, ContentId))
    decreases |ids|
  {
    if ids != [] {
      var n := |ids| - 1;
      StatusVersionsLength(c0, v0, ids[..n], vids[..n], now);
      if FindKey(c0, ContentId, ids[n]).None? {
        assert ids[n] !in Keys(c0, ContentId);
      }
    }
  }

  /** The versions appended for a prefix of the ids are a prefix of those for all of them. */
  lemma {:induction false} StatusVersionsPrefix(c0: seq<Content>, v0: seq<ContentVersion>, ids: seq<Guid>,
                                                vids: seq<Guid>, now: Time, m: nat)
    requires |vids| == |ids| && m <= |ids|
    ensures var p := StatusVersions(c0, v0, ids[..m], vids[..m], now);
            var r := StatusVersions(c0, v0, ids, vids, now);
            |p| <= |r| && r[..|p|] == p
    decreases |ids|
  {
    if m == |ids| {
      assert ids[..m] == ids && vids[..m] == vids;
    } else {
      var n := |ids| - 1;
      assert ids[..n][..m] == ids[..m] && vids[..n][..m] == vids[..m];
      StatusVersionsPrefix(c0, v0, ids[..n], vids[..n], now, m);
    }
  }

  /** Of the appended versions, those of content `x` number one per occurrence of a stored `x` in `ids`. */
  lemma {:induction false} StatusVersionsOf(c0: seq<Content>, v0: seq<ContentVersion>, ids: seq<Guid>,
                                            vids: seq<Guid>, now: Time, x: Guid)
    requires |vids| == |ids|
    ensures |Where(StatusVersions(c0, v0, ids, vids, now), VersionContent, x)|
            == if x in Keys(c0, ContentId) then multiset(ids)[x] else 0
    decreases |ids|
  {
    if ids != [] {
      var n := |ids| - 1;
      var prev := StatusVersions(c0, v0, ids[..n], vids[..n], now);
      var r := StatusVersions(c0, v0, ids, vids, now);
      StatusVersionsOf(c0, v0, ids[..n], vids[..n], now, x);
      assert ids == ids[..n] + [ids[n]];
      assert multiset(ids)[x] == multiset(ids[..n])[x] + (if ids[n] == x then 1 else 0);
      match FindKey(c0, ContentId, ids[n]) {
        case None =>
          assert r == prev;
          assert ids[n] !in Keys(c0, ContentId);
        case Some(i) =>
          var e := StatusEntry(c0[i], v0 + prev, vids[n], now);
          assert r == prev + [e];
          WhereAppend(prev, [e], VersionContent, x);
          assert [e][1..] == [];
          assert |Where([e], VersionContent, x)| == if ids[n] == x then 1 else 0;
          assert ids[n] in Keys(c0, ContentId);
      }
    }
  }

  /**
   * The version appended for the k-th id, when that id is stored: it sits after the
   * versions of the stored ids before it, has the k-th version id, and is numbered after
   * the content's versions before the loop and those the loop already appended for it.
   */
  lemma StatusVersionsAt(c0: seq<Content>, v0: seq<ContentVersion>, ids: seq<Guid>, vids: seq<Guid>,
                         now: Time, k: nat)
    requires |vids| == |ids| && k < |ids| && ids[k] in Keys(c0, ContentId)
    ensures var r := StatusVersions(c0, v0, ids, vids, now);
            var j := CountIn(ids[..k], Keys(c0, ContentId));
            var c := c0[FindKey(c0, ContentId, ids[k]).value];
            && j < |r|
            && r[j] == ContentVersion(vids[k], ids[k], |Where(v0, VersionContent, ids[k])| + multiset(ids[..k])[ids[k]] + 1,
                                      c.body, c.authorId, now, Some(UpdatedNote))
  {
    var prev := StatusVersions(c0, v0, ids[..k], vids[..k], now);
    var next := StatusVersions(c0, v0, ids[..k + 1], vids[..k + 1], now);
    var r := StatusVersions(c0, v0, ids, vids, now);
    var j :| 0 <= j < |c0| && c0[j].id == ids[k];
    var i := FindKey(c0, ContentId, ids[k]).value;
    var e := StatusEntry(c0[i], v0 + prev, vids[k], now);
    StatusVersionsUnfold(c0, v0, ids, vids, now, k);
    assert next == prev + [e];
    StatusVersionsPrefix(c0, v0, ids, vids, now, k + 1);
    StatusVersionsLength(c0, v0, ids[..k], vids[..k], now);
    assert r[|prev|] == next[|prev|] == e;
    StatusVersionsOf(c0, v0, ids[..k], vids[..k], now, ids[k]);
    WhereAppend(v0, prev, VersionContent, ids[k]);
  }

  /** One step of the bulk status loop keeps the appended versions equal to StatusVersions. */
  lemma StatusVersionsStep(c0: seq<Content>, v0: seq<ContentVersion>, cur: seq<Content>, vcur: seq<ContentVersion>,
                           vnew: seq<ContentVersion>, ids: seq<Guid>, vids: seq<Guid>, k: nat,
                           status: string, now: Time)
    requires k < |ids| && |vids| == |ids|
    requires cur == RestatusAll(c0, Elements(ids[..k]), status, now)
    requires vcur == v0 + StatusVersions(c0, v0, ids[..k], vids[..k], now)
    requires match FindKey(cur, ContentId, ids[k])
             case None => vnew == vcur
             case Some(i) =>
               vnew == vcur + [ContentVersion(vids[k], ids[k], |Where(vcur, VersionContent, ids[k])| + 1,
                                              cur[i].body, cur[i].authorId, now, Some(UpdatedNote))]
    ensures vnew == v0 + StatusVersions(c0, v0, ids[..k + 1], vids[..k + 1], now)
  {
    RestatusFindKey(c0, Elements(ids[..k]), status, now, ids[k]);
    StatusVersionsUnfold(c0, v0, ids, vids, now, k);
  }

  /** Restating rows keeps every id where it was, so a lookup by id finds the same index. */
  lemma RestatusFindKey(c0: seq<Content>, ks: set<Guid>, status: string, now: Time, id: Guid)
    ensures FindKey(RestatusAll(c0, ks, status, now), ContentId, id) == FindKey(c0, ContentId, id)
  {
    var cur := RestatusAll(c0, ks, status, now);
    if FindKey(c0, ContentId, id).Some? {
      FindKeyAt(cur, ContentId, id, FindKey(c0, ContentId, id).value);
    }
  }

  /** One more result, for the k-th id, keeps the results in step with the ids so far. */
  lemma ResultsStep(results: seq<BulkResult>, ids: seq<Guid>, k: nat, ks: set<Guid>, success: bool)
    requires k < |ids| && |results| == k && success == (ids[k] in ks)
    requires forall j :: 0 <= j < k ==> results[j] == BulkResult(ids[j], ids[j] in ks)
    ensures forall j :: 0 <= j < k + 1 ==> (results + [BulkResult(ids[k], success)])[j] == BulkResult(ids[j], ids[j] in ks)
  {
  }

  /**
   * The tables after one iteration of the bulk status loop, given what UpdateStatusOne
   * did to them, are in step with one more id.
   */
  lemma StatusStepTables(c0: seq<Content>, v0: seq<ContentVersion>, cur: seq<Content>, vcur: seq<ContentVersion>,
                         cnew: seq<Content>, vnew: seq<ContentVersion>, ids: seq<Guid>, vids: seq<Guid>, k: nat,
                         status: string, now: Time)
    requires k < |ids| && |vids| == |ids| && UniqueBy(cur, ContentId)
    requires cur == RestatusAll(c0, Elements(ids[..k]), status, now)
    requires vcur == v0 + StatusVersions(c0, v0, ids[..k], vids[..k], now)
    requires match FindKey(cur, ContentId, ids[k])
             case None => cnew == cur && vnew == vcur
             case Some(i) =>
               var c := cur[i];
               && cnew == cur[i := Restatused(c, status, now)]
               && vnew == vcur + [ContentVersion(vids[k], ids[k], |Where(vcur, VersionContent, ids[k])| + 1,
                                                 c.body, c.authorId, now, Some(UpdatedNote))]
    ensures Keys(cur, ContentId) == Keys(c0, ContentId)
    ensures cnew == RestatusAll(c0, Elements(ids[..k + 1]), status, now)
    ensures vnew == v0 + StatusVersions(c0, v0, ids[..k + 1], vids[..k + 1], now)
  {
    var id, ks := ids[k], Elements(ids[..k]);
    StatusVersionsStep(c0, v0, cur, vcur, vnew, ids, vids, k, status, now);
    SameIdsSameKeys(c0, cur);
    ElementsStep(ids, k);
    match FindKey(cur, ContentId, id) {
      case Some(i) =>
        RestatusStep(c0, cur, ks, id, i, status, now);
      case None =>
        RestatusMissing(c0, cur, ks, id, status, now);
    }
  }

  /** Every version StatusVersions appends is a "Content updated" version for one of the ids. */
  lemma {:induction false} StatusVersionsTrail(c0: seq<Content>, v0: seq<ContentVersion>, ids: seq<Guid>,
                                               vids: seq<Guid>, now: Time)
    requires |vids| == |ids|
    ensures forall v :: v in StatusVersions(c0, v0, ids, vids, now) ==> TrailEntry(v, c0, ids, vids, now)
    decreases |ids|
  {
    if ids != [] {
      var n := |ids| - 1;
      var prev := StatusVersions(c0, v0, ids[..n], vids[..n], now);
      StatusVersionsTrail(c0, v0, ids[..n], vids[..n], now);
      assert ids == ids[..n] + [ids[n]] && vids == vids[..n] + [vids[n]];
      forall v | v in prev ensures TrailEntry(v, c0, ids, vids, now) {
        assert TrailEntry(v, c0, ids[..n], vids[..n], now);
      }
      match FindKey(c0, ContentId, ids[n]) {
        case None =>
        case Some(i) =>
          assert c0[i] in c0;
          assert TrailEntry(StatusEntry(c0[i], v0 + prev, vids[n], now), c0, ids, vids, now);
      }
    }
  }

  /** The table after the bulk status loop keeps the old versions and appends only its entries. */
  lemma TrailSpec(c0: seq<Content>, v0: seq<ContentVersion>, ids: seq<Guid>, vids: seq<Guid>, now: Time)
    requires |vids| == |ids|
    ensures var vs := v0 + StatusVersions(c0, v0, ids, vids, now);
            && vs[..|v0|] == v0
            && forall j :: |v0| <= j < |vs| ==>
                 var v := vs[j];
                 && v.changeDescription == Some(UpdatedNote) && v.createdAt == now && v.contentId in ids
                 && exists c :: c in c0 && c.id == v.contentId && v.createdById == c.authorId && v.body == c.body
  {
    var r := StatusVersions(c0, v0, ids, vids, now);
    var vs := v0 + r;
    StatusVersionsTrail(c0, v0, ids, vids, now);
    assert vs[..|v0|] == v0;
    forall j | |v0| <= j < |vs| ensures TrailEntry(vs[j], c0, ids, vids, now) {
      assert vs[j] == r[j - |v0|] && r[j - |v0|] in r;
    }
  }

  /** One step of the bulk publish loop keeps the table equal to PublishAll of the ids so far. */
  lemma PublishStep(c0: seq<Content>, cur: seq<Content>, ks: set<Guid>, id: Guid, now: Time)
    requires cur == PublishAll(c0, ks, now) && UniqueBy(cur, ContentId)
    ensures match FindKey(cur, ContentId, id)
            case None => cur == PublishAll(c0, ks + {id}, now)
            case Some(i) => cur[i := PublishedRow(cur[i], now)] == PublishAll(c0, ks + {id}, now)
  {
  }

  /** One step of the bulk status loop, for a stored id at index `i`. */
  lemma RestatusStep(c0: seq<Content>, cur: seq<Content>, ks: set<Guid>, id: Guid, i: nat,
                     status: string, now: Time)
    requires cur == RestatusAll(c0, ks, status, now) && UniqueBy(cur, ContentId)
    requires i < |cur| && cur[i].id == id
    ensures cur[i := Restatused(cur[i], status, now)] == RestatusAll(c0, ks + {id}, status, now)
  {
  }

  /** One step of the bulk status loop, for an id that is not stored. */
  lemma RestatusMissing(c0: seq<Content>, cur: seq<Content>, ks: set<Guid>, id: Guid,
                        status: string, now: Time)
    requires cur == RestatusAll(c0, ks, status, now)
    requires FindKey(cur, ContentId, id).None?
    ensures cur == RestatusAll(c0, ks + {id}, status, now)
  {
  }

  /** The k-th version id is not yet in the table: the table holds `v0` and earlier ids only. */
  lemma FreshVersionId(c0: seq<Content>, v0: seq<ContentVersion>, ids: seq<Guid>, versionIds: seq<Guid>,
                       k: nat, now: Time)
    requires k < |versionIds| && |versionIds| == |ids| && Distinct(versionIds)
    requires forall j :: 0 <= j < |versionIds| ==> versionIds[j] !in Keys(v0, VersionId)
    ensures versionIds[k] !in Keys(v0 + StatusVersions(c0, v0, ids[..k], versionIds[..k], now), VersionId)
  {
    var r := StatusVersions(c0, v0, ids[..k], versionIds[..k], now);
    var vs := v0 + r;
    StatusVersionsTrail(c0, v0, ids[..k], versionIds[..k], now);
    forall j | 0 <= j < |vs| ensures vs[j].id != versionIds[k] {
      if j < |v0| {
        assert vs[j] == v0[j];
      } else {
        assert vs[j] == r[j - |v0|] && r[j - |v0|] in r;
        assert TrailEntry(vs[j], c0, ids[..k], versionIds[..k], now);
        var m :| 0 <= m < k && versionIds[..k][m] == vs[j].id;
        assert versionIds[m] == vs[j].id;
      }
    }
  }
}
