/**
 * The collaboration presence hub, as a sequential state machine.  Its state is the
 * append-only CollaborationSessions table, the transport's document groups (group name
 * to the connections in it) and an outbox recording every broadcast with the set of
 * connections it was addressed to.  Each hub method takes the calling connection id.
 */
module Collaboration {
  import opened Common
  import opened Seqs
  import Auth

  type ConnectionId = string

  datatype CollaborationSession = CollaborationSession(
    id: Guid,
    contentId: Guid,
    userId: Guid,
    connectionId: ConnectionId,
    joinedAt: Time,
    leftAt: Option<Time>,
    isActive: bool)

  function SessionId(s: CollaborationSession): Guid { s.id }
  function SessionContent(s: CollaborationSession): Guid { s.contentId }

  predicate IsActive(s: CollaborationSession) { s.isActive }

  /** The pair the hub's lookups match on: `s.ConnectionId == caller && s.IsActive`. */
  function ConnectionActivity(s: CollaborationSession): (ConnectionId, bool) {
    (s.connectionId, s.isActive)
  }

  /** The events the hub sends to clients. */
  datatype HubEvent =
    | UserJoined(id: string, username: string, color: string)
    | UserLeft(userId: string)
    | ContentChanged(content: string, userId: string)
    | CursorMoved(userId: string, position: int32)

  /** One broadcast: the connections it was addressed to and what was sent. */
  datatype Delivery = Delivery(audience: set<ConnectionId>, event: HubEvent)

  /** Why a hub method threw: `Guid.Parse` rejected an id, or `Math.Abs` overflowed. */
  datatype Fault = MalformedGuid | HashOverflow

  datatype Outcome = Completed | Faulted(fault: Fault)

  const Palette: seq<string> :=
    ["#FF6B6B", "#4ECDC4", "#45B7D1", "#FFA07A", "#98D8C8", "#F7DC6F", "#BB8FCE", "#85C1E2"]

  /**
   * `Math.Abs(hash) % colors.Length`.  `Math.Abs` throws for `int.MinValue`, the one
   * 32-bit value without a 32-bit absolute value.
   */
  function ColorIndex(hash: int32): (i: Option<nat>)
    ensures i.None? <==> hash as int == MinInt32
    ensures i.Some? ==> i.value < |Palette|
  {
    if hash as int == MinInt32 then None
    else Some((if hash < 0 then -(hash as int) else hash as int) % |Palette|)
  }

  /** The index depends on the absolute value of the hash only. */
  lemma ColorIndexSymmetric(hash: int32)
    requires hash as int != MinInt32
    ensures ColorIndex(hash) == ColorIndex(-hash)
  {
  }

  /** The display colour of a user: a palette entry chosen by the hash of the id alone. */
  function GenerateUserColor(userId: string, hashCode: string -> int32): (color: Option<string>)
    ensures color.None? <==> hashCode(userId) as int == MinInt32
    ensures color.Some? ==> color.value in Palette
  {
    match ColorIndex(hashCode(userId))
    case None => None
    case Some(i) => Some(Palette[i])
  }

  /** Two ids whose hashes agree get the same colour (or both make the hub throw). */
  lemma ColorDependsOnlyOnHash(a: string, b: string, hashCode: string -> int32)
    requires hashCode(a) == hashCode(b)
    ensures GenerateUserColor(a, hashCode) == GenerateUserColor(b, hashCode)
  {
  }

  /** `user?.Username ?? "Unknown"` after `Users.FindAsync(id)`. */
  function DisplayName(users: seq<Auth.User>, id: Guid): (name: string)
    ensures (exists i :: 0 <= i < |users| && users[i].id == id && name == users[i].username)
            || ((forall i :: 0 <= i < |users| ==> users[i].id != id) && name == "Unknown")
  {
    match FindKey(users, Auth.UserId, id)
    case None => "Unknown"
    case Some(i) => users[i].username
  }

  /** The first active session of a connection, in table order: `FirstOrDefault`. */
  function FirstActive(sessions: seq<CollaborationSession>, conn: ConnectionId): (r: Option<nat>)
    ensures r.Some? ==> r.value < |sessions| && sessions[r.value].connectionId == conn && sessions[r.value].isActive
    ensures r.Some? ==> forall j :: 0 <= j < r.value ==> !(sessions[j].connectionId == conn && sessions[j].isActive)
    ensures r.None? <==> forall j :: 0 <= j < |sessions| ==> !(sessions[j].connectionId == conn && sessions[j].isActive)
  {
    FindKey(sessions, ConnectionActivity, (conn, true))
  }

  /**
   * The table after a leave or a disconnect: the first active row of the connection, if
   * any, is marked inactive and stamped; nothing is removed and no other row changes.
   */
  function RetireFirst(t: seq<CollaborationSession>, conn: ConnectionId, now: Time)
    : (r: seq<CollaborationSession>)
    ensures |r| == |t|
    ensures FirstActive(t, conn).None? ==> r == t
    ensures forall j :: 0 <= j < |t| && FirstActive(t, conn) != Some(j) ==> r[j] == t[j]
    ensures FirstActive(t, conn).Some? ==>
              var i := FirstActive(t, conn).value;
              && t[i].connectionId == conn && t[i].isActive
              && !r[i].isActive && r[i].leftAt == Some(now)
              && r[i].id == t[i].id && r[i].contentId == t[i].contentId
              && r[i].userId == t[i].userId && r[i].connectionId == conn
              && r[i].joinedAt == t[i].joinedAt
  {
    match FirstActive(t, conn)
    case None => t
    case Some(i) => t[i := t[i].(isActive := false, leftAt := Some(now))]
  }

  /** A leave or disconnect lowers the number of active rows by one exactly when it found one. */
  lemma RetireFirstActiveCount(t: seq<CollaborationSession>, conn: ConnectionId, now: Time)
    ensures |Filter(RetireFirst(t, conn, now), IsActive)|
            == |Filter(t, IsActive)| - (if FirstActive(t, conn).Some? then 1 else 0)
  {
    if FirstActive(t, conn).Some? {
      var i := FirstActive(t, conn).value;
      FilterReplaceCount(t, i, t[i].(isActive := false, leftAt := Some(now)), IsActive);
    }
  }

  /** A row is active exactly while it has no LeftAt. */
  ghost predicate ActiveIffOpen(t: seq<CollaborationSession>) {
    forall i :: 0 <= i < |t| ==> (t[i].isActive <==> t[i].leftAt.None?)
  }

  /** The row a join appends is active and open, so the row rule survives a join. */
  lemma JoinKeepsActiveIffOpen(t: seq<CollaborationSession>, s: CollaborationSession)
    requires ActiveIffOpen(t) && s.isActive && s.leftAt.None?
    ensures ActiveIffOpen(t + [s])
  {
    assert forall i :: 0 <= i < |t| ==> (t + [s])[i] == t[i];
  }

  /** Retiring sets both fields together, so the row rule survives a leave or disconnect. */
  lemma RetireKeepsActiveIffOpen(t: seq<CollaborationSession>, conn: ConnectionId, now: Time)
    requires ActiveIffOpen(t)
    ensures ActiveIffOpen(RetireFirst(t, conn, now))
  {
  }

  /**
   * Where a join lands: the appended row becomes the connection's session only when the
   * connection had no active row; otherwise the older row keeps answering the lookups.
   */
  lemma {:induction false} FirstActiveAfterJoin(t: seq<CollaborationSession>, s: CollaborationSession)
    requires s.isActive
    ensures FirstActive(t + [s], s.connectionId)
            == if FirstActive(t, s.connectionId).Some? then FirstActive(t, s.connectionId)
               else Some(|t|)
  {
    var u := t + [s];
    assert forall j :: 0 <= j < |t| ==> u[j] == t[j];
    assert ConnectionActivity(u[|t|]) == (s.connectionId, true);
  }

  /**
   * Joining twice on one connection makes two active rows, and one leave or disconnect
   * retires only the first of them: the second join's row stays active.
   */
  lemma {:induction false} RepeatedJoinOutlivesOneRetire(
    t: seq<CollaborationSession>, s1: CollaborationSession, s2: CollaborationSession, now: Time)
    requires s1.isActive && s2.isActive && s1.connectionId == s2.connectionId
    requires FirstActive(t, s1.connectionId).None?
    ensures FirstActive(RetireFirst(t + [s1] + [s2], s1.connectionId, now), s1.connectionId)
            == Some(|t| + 1)
  {
    var conn := s1.connectionId;
    FirstActiveAfterJoin(t, s1);
    FirstActiveAfterJoin(t + [s1], s2);
    var u := t + [s1] + [s2];
    var r := RetireFirst(u, conn, now);
    assert FirstActive(u, conn) == Some(|t|);
    assert forall j :: 0 <= j < |t| ==> r[j] == u[j] == t[j];
    assert ConnectionActivity(r[|t|]) != (conn, true);
    assert ConnectionActivity(r[|t| + 1]) == (conn, true);
  }

  class Hub {
    /** `Guid.Parse`: partial, it throws on a malformed id. */
    const parseGuid: string -> Option<Guid>
    /** `Guid.ToString()`. */
    const formatGuid: Guid -> string
    /** `string.GetHashCode()`, fixed for the lifetime of the process. */
    const hashCode: string -> int32

    var sessions: seq<CollaborationSession>
    var groups: map<string, set<ConnectionId>>
    var outbox: seq<Delivery>

    ghost predicate Valid()
      reads this
    {
      UniqueBy(sessions, SessionId)
    }

    /** The connections in a group; a group nobody joined is empty. */
    function Members(group: string): set<ConnectionId>
      reads this
    {
      if group in groups then groups[group] else {}
    }

    constructor (parseGuid: string -> Option<Guid>, formatGuid: Guid -> string,
                 hashCode: string -> int32, sessions: seq<CollaborationSession>)
      requires UniqueBy(sessions, SessionId)
      ensures Valid()
      ensures this.parseGuid == parseGuid && this.formatGuid == formatGuid
      ensures this.hashCode == hashCode
      ensures this.sessions == sessions && groups == map[] && outbox == []
    {
      this.parseGuid := parseGuid;
      this.formatGuid := formatGuid;
      this.hashCode := hashCode;
      this.sessions := sessions;
      groups := map[];
      outbox := [];
    }

    /**
     * Adds the caller to the document's group, then parses both ids (a malformed one
     * throws, leaving the caller in the group without a row), then appends the active
     * session row, then computes the colour (which throws when the hash is
     * int.MinValue, after the row was saved), and finally sends UserJoined to the whole
     * group, the joiner included.  No check is made for an earlier active row.
     */
    method JoinDocument(caller: ConnectionId, documentId: string, userId: string,
                        sessionId: Guid, now: Time, users: seq<Auth.User>)
      returns (r: Outcome)
      requires Valid() && sessionId !in Keys(sessions, SessionId)
      modifies this
      ensures Valid()
      ensures groups == old(groups)[documentId := old(Members(documentId)) + {caller}]
      ensures caller in Members(documentId)
      ensures var contentId, user := parseGuid(documentId), parseGuid(userId);
              var color := GenerateUserColor(userId, hashCode);
              if contentId.None? || user.None? then
                r == Faulted(MalformedGuid) && sessions == old(sessions) && outbox == old(outbox)
              else
                && sessions == old(sessions)
                     + [CollaborationSession(sessionId, contentId.value, user.value, caller,
                                             now, None, true)]
                && if color.None? then
                     r == Faulted(HashOverflow) && outbox == old(outbox)
                   else
                     && r == Completed
                     && outbox == old(outbox)
                          + [Delivery(Members(documentId),
                                      UserJoined(userId, DisplayName(users, user.value), color.value))]
    {
      groups := groups[documentId := Members(documentId) + {caller}];
      var contentId := parseGuid(documentId);
      var user := parseGuid(userId);
      if contentId.None? || user.None? {
        return Faulted(MalformedGuid);
      }
      var session := CollaborationSession(sessionId, contentId.value, user.value, caller, now, None, true);
      AppendKeepsUnique(sessions, SessionId, session);
      sessions := sessions + [session];
      var username := DisplayName(users, user.value);
      var color := GenerateUserColor(userId, hashCode);
      if color.None? {
        return Faulted(HashOverflow);
      }
      outbox := outbox + [Delivery(Members(documentId), UserJoined(userId, username, color.value))];
      r := Completed;
    }

    /**
     * Removes the caller from the named group, retires the caller's first active row
     * whatever document it belongs to, and sends UserLeft with the userId argument to
     * the members that remain, whether or not a row was found.
     */
    method LeaveDocument(caller: ConnectionId, documentId: string, userId: string, now: Time)
      requires Valid()
      modifies this
      ensures Valid()
      ensures groups == old(groups)[documentId := old(Members(documentId)) - {caller}]
      ensures sessions == RetireFirst(old(sessions), caller, now)
      ensures outbox == old(outbox) + [Delivery(old(Members(documentId)) - {caller}, UserLeft(userId))]
    {
      groups := groups[documentId := Members(documentId) - {caller}];
      Retire(caller, now);
      outbox := outbox + [Delivery(Members(documentId), UserLeft(userId))];
    }

    /** Relays the caller's content to the rest of its session's group, if it has a session. */
    method UpdateContent(caller: ConnectionId, content: string)
      requires Valid()
      modifies this
      ensures Valid()
      ensures sessions == old(sessions) && groups == old(groups)
      ensures match FirstActive(sessions, caller)
              case None => outbox == old(outbox)
              case Some(i) =>
                outbox == old(outbox)
                  + [Delivery(Members(formatGuid(sessions[i].contentId)) - {caller},
                              ContentChanged(content, formatGuid(sessions[i].userId)))]
    {
      var i := FirstActive(sessions, caller);
      if i.Some? {
        var session := sessions[i.value];
        var group := formatGuid(session.contentId);
        outbox := outbox + [Delivery(Members(group) - {caller}, ContentChanged(content, formatGuid(session.userId)))];
      }
    }

    /** Relays the caller's cursor position to the rest of its session's group, if it has a session. */
    method UpdateCursor(caller: ConnectionId, position: int32)
      requires Valid()
      modifies this
      ensures Valid()
      ensures sessions == old(sessions) && groups == old(groups)
      ensures match FirstActive(sessions, caller)
              case None => outbox == old(outbox)
              case Some(i) =>
                outbox == old(outbox)
                  + [Delivery(Members(formatGuid(sessions[i].contentId)) - {caller},
                              CursorMoved(formatGuid(sessions[i].userId), position))]
    {
      var i := FirstActive(sessions, caller);
      if i.Some? {
        var session := sessions[i.value];
        var group := formatGuid(session.contentId);
        outbox := outbox + [Delivery(Members(group) - {caller}, CursorMoved(formatGuid(session.userId), position))];
      }
    }

    /**
     * The connection closed.  The first active row, if any, is retired and UserLeft with
     * its user id goes to its document's group; after the handler the transport drops
     * the connection from every group.
     */
    method OnDisconnected(caller: ConnectionId, now: Time)
      requires Valid()
      modifies this
      ensures Valid()
      ensures sessions == RetireFirst(old(sessions), caller, now)
      ensures match FirstActive(old(sessions), caller)
              case None => outbox == old(outbox)
              case Some(i) =>
                outbox == old(outbox)
                  + [Delivery(old(Members(formatGuid(sessions[i].contentId))),
                              UserLeft(formatGuid(sessions[i].userId)))]
      ensures groups == map g | g in old(groups) :: old(groups)[g] - {caller}
      ensures forall g :: caller !in Members(g)
    {
      var i := FirstActive(sessions, caller);
      Retire(caller, now);
      if i.Some? {
        var session := sessions[i.value];
        var group := formatGuid(session.contentId);
        outbox := outbox + [Delivery(Members(group), UserLeft(formatGuid(session.userId)))];
      }
      groups := map g | g in groups :: groups[g] - {caller};
    }

    /** The shared step of leave and disconnect: `IsActive = false`, `LeftAt = now`. */
    method Retire(caller: ConnectionId, now: Time)
      requires Valid()
      modifies this`sessions
      ensures Valid()
      ensures sessions == RetireFirst(old(sessions), caller, now)
    {
      var i := FirstActive(sessions, caller);
      if i.Some? {
        var retired := sessions[i.value].(isActive := false, leftAt := Some(now));
        UpdateKeepsUnique(sessions, SessionId, i.value, retired);
        sessions := sessions[i.value := retired];
      }
    }
  }
}
