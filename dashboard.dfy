/**
 * The dashboard's two read-only queries: the four headline counts and the feed of the
 * most recent content versions.  Both are functions of the tables and, for the 24-hour
 * window, of the clock reading `now`.
 */
module Dashboard {
  import opened Common
  import opened Seqs
  import opened Sorting
  import opened Contents
  import Auth
  import Collaboration
  import ContentApi

  datatype Stats = Stats(totalDocuments: nat, activeCollaborations: nat, recentEdits: nat, totalUsers: nat)

  /** The ids of the documents with at least one active session. */
  function ActiveDocuments(sessions: seq<Collaboration.CollaborationSession>): (r: set<Guid>)
    ensures forall d :: d in r <==> exists s :: s in sessions && s.isActive && s.contentId == d
  {
    var active := Filter(sessions, Collaboration.IsActive);
    forall d | d in Keys(active, Collaboration.SessionContent)
      ensures exists s :: s in sessions && s.isActive && s.contentId == d
    {
      var i :| 0 <= i < |active| && active[i].contentId == d;
      assert active[i] in active;
    }
    Keys(active, Collaboration.SessionContent)
  }

  /** `Where(IsActive).Select(ContentId).Distinct().Count()`: never more than the active sessions. */
  function ActiveCollaborations(sessions: seq<Collaboration.CollaborationSession>): (n: nat)
    ensures n <= |Filter(sessions, Collaboration.IsActive)|
  {
    KeysBound(Filter(sessions, Collaboration.IsActive), Collaboration.SessionContent);
    |ActiveDocuments(sessions)|
  }

  /** A document counts as collaborated on exactly when the content list shows it active editors. */
  lemma ActiveDocumentIffEditors(sessions: seq<Collaboration.CollaborationSession>, d: Guid)
    ensures d in ActiveDocuments(sessions) <==> ContentApi.ActiveEditors(sessions, d) > 0
  {
    var e := Filter(Where(sessions, Collaboration.SessionContent, d), Collaboration.IsActive);
    if d in ActiveDocuments(sessions) {
      var s :| s in sessions && s.isActive && s.contentId == d;
      assert s in e;
    }
    if |e| > 0 {
      assert e[0] in e;
    }
  }

  /** The indices of the versions made at or after `since`. */
  ghost function RecentIndices(versions: seq<ContentVersion>, since: Time): set<int> {
    set i | 0 <= i < |versions| && versions[i].createdAt >= since
  }

  /** `Where(v => v.CreatedAt >= since).Count()`. */
  function CountSince(versions: seq<ContentVersion>, since: Time): (n: nat)
    ensures n == |RecentIndices(versions, since)|
  {
    if versions == [] then
      assert RecentIndices(versions, since) == {};
      0
    else
      var m := |versions| - 1;
      var before := versions[..m];
      assert RecentIndices(versions, since)
             == RecentIndices(before, since) + (if versions[m].createdAt >= since then {m} else {});
      assert m !in RecentIndices(before, since);
      CountSince(before, since) + (if versions[m].createdAt >= since then 1 else 0)
  }

  /** The start of the recent-edits window: 24 hours before `now`. */
  function WindowStart(now: Time): Time {
    now - 24 * TicksPerHour
  }

  /** A version saved at `now` is counted among the recent edits. */
  lemma NewVersionIsRecent(versions: seq<ContentVersion>, v: ContentVersion, now: Time)
    requires v.createdAt == now
    ensures CountSince(versions + [v], WindowStart(now)) == CountSince(versions, WindowStart(now)) + 1
  {
    assert (versions + [v])[..|versions|] == versions;
  }

  /** `GetStats`. */
  function GetStats(contents: seq<Content>, sessions: seq<Collaboration.CollaborationSession>,
                    versions: seq<ContentVersion>, users: seq<Auth.User>, now: Time): (r: Stats)
    ensures r.totalDocuments == |contents| && r.totalUsers == |users|
    ensures r.activeCollaborations == |ActiveDocuments(sessions)|
    ensures r.activeCollaborations <= |Filter(sessions, Collaboration.IsActive)|
    ensures r.recentEdits == |RecentIndices(versions, WindowStart(now))|
  {
    Stats(|contents|, ActiveCollaborations(sessions), CountSince(versions, WindowStart(now)), |users|)
  }

  datatype Activity = Activity(id: Guid, documentTitle: string, username: string, action: string, timestamp: Time)

  const DefaultAction: string := "Updated"
  const ActivityLimit: nat := 20

  /** Newest first. */
  predicate CreatedDesc(a: ContentVersion, b: ContentVersion) { a.createdAt >= b.createdAt }

  lemma CreatedDescTotal()
    ensures Total(CreatedDesc)
  {
  }

  /** `v.Content.Title`, for a content the foreign key guarantees exists. */
  function TitleOf(contents: seq<Content>, id: Guid): (title: string)
    requires id in Keys(contents, ContentId)
    ensures exists i :: 0 <= i < |contents| && contents[i].id == id && contents[i].title == title
  {
    contents[FindKey(contents, ContentId, id).value].title
  }

  /** Both foreign keys of a version hold. */
  predicate Linked(v: ContentVersion, contents: seq<Content>, users: seq<Auth.User>) {
    v.contentId in Keys(contents, ContentId) && v.createdById in Keys(users, Auth.UserId)
  }

  /** The projection of one version onto an activity entry. */
  function ActivityOf(v: ContentVersion, contents: seq<Content>, users: seq<Auth.User>): (a: Activity)
    requires Linked(v, contents, users)
    ensures a.id == v.id && a.timestamp == v.createdAt
    ensures a.action == if v.changeDescription.Some? then v.changeDescription.value else DefaultAction
    ensures exists c :: c in contents && c.id == v.contentId && a.documentTitle == c.title
    ensures exists u :: u in users && u.id == v.createdById && a.username == u.username
  {
    var title := TitleOf(contents, v.contentId);
    var username := Auth.UsernameOf(users, v.createdById);
    Activity(v.id, title, username, v.changeDescription.GetOr(DefaultAction), v.createdAt)
  }

  function ActivityOfRow(contents: seq<Content>, users: seq<Auth.User>): ContentVersion --> Activity {
    (v: ContentVersion) requires Linked(v, contents, users) => ActivityOf(v, contents, users)
  }

  /** `OrderByDescending(v => v.CreatedAt).Take(20)`. */
  function Newest(versions: seq<ContentVersion>): (r: seq<ContentVersion>)
    ensures |r| == if |versions| < ActivityLimit then |versions| else ActivityLimit
    ensures forall k, j :: 0 <= k < j < |r| ==> r[k].createdAt >= r[j].createdAt
    ensures forall k :: 0 <= k < |r| ==> r[k] in versions
    ensures multiset(r) <= multiset(versions)
  {
    CreatedDescTotal();
    var sorted := Sort(versions, CreatedDesc);
    var r := Take(sorted, ActivityLimit);
    TakeMultiset(sorted, ActivityLimit);
    SubMultisetMembers(r, versions);
    r
  }

  /** A version that did not make the cut is no newer than any that did. */
  lemma NewestAreNewest(versions: seq<ContentVersion>, v: ContentVersion)
    requires v in versions && v !in Newest(versions)
    ensures forall k :: 0 <= k < |Newest(versions)| ==> Newest(versions)[k].createdAt >= v.createdAt
  {
    CreatedDescTotal();
    SortSameRows(versions, CreatedDesc);
    var sorted := Sort(versions, CreatedDesc);
    var r := Newest(versions);
    assert forall k :: 0 <= k < |r| ==> r[k] == sorted[k];
    var p :| 0 <= p < |sorted| && sorted[p] == v;
    assert p >= |r|;
    forall k | 0 <= k < |r| ensures r[k].createdAt >= v.createdAt {
      assert CreatedDesc(sorted[k], sorted[p]);
    }
  }

  /** `GetRecentActivities`: the twenty newest versions, projected. */
  function RecentActivities(versions: seq<ContentVersion>, contents: seq<Content>, users: seq<Auth.User>)
    : (r: seq<Activity>)
    requires forall v :: v in versions ==> Linked(v, contents, users)
    ensures |r| == |Newest(versions)|
    ensures forall k :: 0 <= k < |r| ==> r[k] == ActivityOf(Newest(versions)[k], contents, users)
    ensures forall k, j :: 0 <= k < j < |r| ==> r[k].timestamp >= r[j].timestamp
  {
    Map(Newest(versions), ActivityOfRow(contents, users))
  }

  /**
   * The feed holds the newest versions: a version whose id is not in it is no newer
   * than any entry shown.
   */
  lemma RecentActivitiesAreNewest(versions: seq<ContentVersion>, contents: seq<Content>, users: seq<Auth.User>,
                                  v: ContentVersion)
    requires forall w :: w in versions ==> Linked(w, contents, users)
    requires v in versions
    requires forall k :: 0 <= k < |RecentActivities(versions, contents, users)| ==>
               RecentActivities(versions, contents, users)[k].id != v.id
    ensures forall k :: 0 <= k < |RecentActivities(versions, contents, users)| ==>
              RecentActivities(versions, contents, users)[k].timestamp >= v.createdAt
  {
    var r := RecentActivities(versions, contents, users);
    var n := Newest(versions);
    assert forall k :: 0 <= k < |r| ==> r[k].id == n[k].id && r[k].timestamp == n[k].createdAt;
    assert v !in n;
    NewestAreNewest(versions, v);
  }
}
