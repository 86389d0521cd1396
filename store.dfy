/**
 * The browser-side presence store: the roster reducers that apply the hub's events, and
 * the store's connect, disconnect and send guards.  The hub connection object is a value
 * carrying its transport state; whether `start` and the `JoinDocument` invocation succeed
 * is given as parameters.
 */
module PresenceStore {
  import opened Common
  import opened Seqs
  import Collaboration

  datatype ActiveUser = ActiveUser(id: string, username: string, color: string, cursorPosition: Option<int>)

  function ActiveUserId(u: ActiveUser): string { u.id }

  /** The roster's ids, in order. */
  function Ids(users: seq<ActiveUser>): (r: seq<string>)
    ensures |r| == |users| && forall i :: 0 <= i < |r| ==> r[i] == users[i].id
  {
    seq(|users|, i requires 0 <= i < |users| => users[i].id)
  }

  /** `map(u => u.id === id ? { ...u, cursorPosition: position } : u)` */
  function MoveCursor(users: seq<ActiveUser>, id: string, position: int): (r: seq<ActiveUser>)
    ensures |r| == |users|
    ensures forall i :: 0 <= i < |r| ==>
              r[i] == if users[i].id == id then users[i].(cursorPosition := Some(position)) else users[i]
  {
    seq(|users|, i requires 0 <= i < |users| =>
      if users[i].id == id then users[i].(cursorPosition := Some(position)) else users[i])
  }

  /** The store's handler for one hub event, as a function of the roster. */
  function Reduce(users: seq<ActiveUser>, ev: Collaboration.HubEvent): (r: seq<ActiveUser>)
    ensures ev.UserJoined? ==>
              && |r| == |users| + 1 && r[..|users|] == users
              && r[|users|] == ActiveUser(ev.id, ev.username, ev.color, None)
    ensures ev.UserLeft? ==>
              && Subsequence(r, users)
              && (forall u :: multiset(r)[u] == if u.id == ev.userId then 0 else multiset(users)[u])
    ensures ev.ContentChanged? ==> r == users
    ensures ev.CursorMoved? ==>
              && Ids(r) == Ids(users)
              && forall i :: 0 <= i < |r| ==>
                   && r[i].username == users[i].username && r[i].color == users[i].color
                   && r[i].cursorPosition
                      == if users[i].id == ev.userId then Some(ev.position as int) else users[i].cursorPosition
  {
    match ev
    case UserJoined(id, username, color) => users + [ActiveUser(id, username, color, None)]
    case UserLeft(userId) => LeftRoster(users, userId)
    case ContentChanged(_, _) => users
    case CursorMoved(userId, position) => MoveCursor(users, userId, position as int)
  }

  /** `filter(u => u.id !== userId)`, keeping the order of the rest. */
  function LeftRoster(users: seq<ActiveUser>, userId: string): (r: seq<ActiveUser>)
    ensures Subsequence(r, users)
    ensures forall u :: multiset(r)[u] == if u.id == userId then 0 else multiset(users)[u]
    ensures forall u :: u in r <==> u in users && u.id != userId
  {
    WithoutSubsequence(users, ActiveUserId, userId);
    WithoutCount(users, ActiveUserId, userId);
    Without(users, ActiveUserId, userId)
  }

  /** The kept entries are exactly determined: removal splits over concatenation and acts on each entry alone. */
  lemma LeftRosterSplits(a: seq<ActiveUser>, b: seq<ActiveUser>, u: ActiveUser, userId: string)
    ensures LeftRoster(a + b, userId) == LeftRoster(a, userId) + LeftRoster(b, userId)
    ensures LeftRoster([u], userId) == if u.id == userId then [] else [u]
  {
    WithoutAppend(a, b, ActiveUserId, userId);
    assert Without([u], ActiveUserId, userId) == (if u.id == userId then [] else [u]) + Without([], ActiveUserId, userId);
  }

  /** Removing a user twice is removing it once. */
  lemma {:induction false} LeaveIdempotent(users: seq<ActiveUser>, userId: string)
    ensures Reduce(Reduce(users, Collaboration.UserLeft(userId)), Collaboration.UserLeft(userId))
            == Reduce(users, Collaboration.UserLeft(userId))
  {
    var once := Without(users, ActiveUserId, userId);
    WithoutNoMatch(once, ActiveUserId, userId);
  }

  /** A user not yet in the roster who joins and then leaves leaves the roster as it was. */
  lemma {:induction false} JoinThenLeave(users: seq<ActiveUser>, id: string, username: string, color: string)
    requires forall u :: u in users ==> u.id != id
    ensures Reduce(Reduce(users, Collaboration.UserJoined(id, username, color)), Collaboration.UserLeft(id))
            == users
  {
    var joined := users + [ActiveUser(id, username, color, None)];
    WithoutAppend(users, [ActiveUser(id, username, color, None)], ActiveUserId, id);
    WithoutNoMatch(users, ActiveUserId, id);
    assert Without([ActiveUser(id, username, color, None)], ActiveUserId, id) == [];
  }

  /**
   * The roster has no de-duplication: a user already present who joins again appears
   * twice, and one UserLeft then removes both entries.
   */
  lemma {:induction false} RejoinDuplicates(users: seq<ActiveUser>, id: string, username: string, color: string)
    requires exists u :: u in users && u.id == id
    ensures var r := Reduce(users, Collaboration.UserJoined(id, username, color));
            |Where(r, ActiveUserId, id)| >= 2
  {
    var v := ActiveUser(id, username, color, None);
    var u :| u in users && u.id == id;
    WhereAppend(users, [v], ActiveUserId, id);
    assert u in Where(users, ActiveUserId, id);
    assert Where([v], ActiveUserId, id) == [v];
  }

  /** A cursor move for a user who then leaves leaves no trace. */
  lemma {:induction false} CursorThenLeave(users: seq<ActiveUser>, userId: string, position: int32)
    ensures Reduce(Reduce(users, Collaboration.CursorMoved(userId, position)), Collaboration.UserLeft(userId))
            == Reduce(users, Collaboration.UserLeft(userId))
  {
    MoveCursorThenRemove(users, userId, position as int);
  }

  lemma {:induction false} MoveCursorThenRemove(users: seq<ActiveUser>, id: string, position: int)
    ensures Without(MoveCursor(users, id, position), ActiveUserId, id) == Without(users, ActiveUserId, id)
  {
    if users != [] {
      var m := MoveCursor(users, id, position);
      assert m[1..] == MoveCursor(users[1..], id, position);
      MoveCursorThenRemove(users[1..], id, position);
    }
  }

  /** The transport states of a SignalR hub connection. */
  datatype ConnectionState = Disconnected | Connecting | Connected | Disconnecting | Reconnecting

  datatype HubConnection = HubConnection(url: string, state: ConnectionState)

  /** A call from the store to the hub. */
  datatype Invocation =
    | JoinDocumentCall(documentId: string, userId: string)
    | UpdateCursorCall(position: int)
    | UpdateContentCall(content: string)

  class CollaborationStore {
    var connection: Option<HubConnection>
    var activeUsers: seq<ActiveUser>
    var isConnected: bool

    /** A connection is stored exactly when the store reports itself connected. */
    ghost predicate Valid()
      reads this
    {
      isConnected <==> connection.Some?
    }

    constructor ()
      ensures Valid()
      ensures connection.None? && activeUsers == [] && !isConnected
    {
      connection := None;
      activeUsers := [];
      isConnected := false;
    }

    /** One of the registered handlers runs: only the roster changes. */
    method Receive(ev: Collaboration.HubEvent)
      requires Valid()
      modifies this
      ensures Valid()
      ensures activeUsers == Reduce(old(activeUsers), ev)
      ensures connection == old(connection) && isConnected == old(isConnected)
    {
      activeUsers := Reduce(activeUsers, ev);
    }

    /**
     * Builds a connection, starts it and invokes JoinDocument.  The connection is stored
     * and the store marked connected only when both steps succeed; on any failure the
     * error is logged and the state is unchanged.  `invoked` is the hub call made, if
     * `start` succeeded.
     */
    method InitConnection(url: string, documentId: string, userId: string,
                          startSucceeds: bool, joinSucceeds: bool)
      returns (invoked: Option<Invocation>)
      requires Valid()
      modifies this
      ensures Valid()
      ensures invoked == if startSucceeds then Some(JoinDocumentCall(documentId, userId)) else None
      ensures activeUsers == old(activeUsers)
      ensures if startSucceeds && joinSucceeds then
                connection == Some(HubConnection(url, Connected)) && isConnected
              else
                connection == old(connection) && isConnected == old(isConnected)
    {
      if !startSucceeds {
        return None;
      }
      invoked := Some(JoinDocumentCall(documentId, userId));
      if joinSucceeds {
        connection := Some(HubConnection(url, Connected));
        isConnected := true;
      }
    }

    /** Stops and forgets the connection and clears the roster; without a connection, nothing. */
    method Disconnect()
      requires Valid()
      modifies this
      ensures Valid()
      ensures old(connection).Some? ==> connection.None? && !isConnected && activeUsers == []
      ensures old(connection).None? ==>
                connection == old(connection) && isConnected == old(isConnected)
                && activeUsers == old(activeUsers)
    {
      if connection.Some? {
        connection, isConnected, activeUsers := None, false, [];
      }
    }

    /** Whether the send guards let a call through. */
    predicate CanSend()
      reads this
    {
      connection.Some? && connection.value.state == Connected
    }

    /** Invokes UpdateCursor only on a connection in the Connected state. */
    method UpdateCursor(position: int) returns (invoked: Option<Invocation>)
      ensures invoked.Some? <==> connection.Some? && connection.value.state == Connected
      ensures invoked.Some? ==> invoked.value == UpdateCursorCall(position)
    {
      invoked := if CanSend() then Some(UpdateCursorCall(position)) else None;
    }

    /** Invokes UpdateContent only on a connection in the Connected state. */
    method SendContentChange(content: string) returns (invoked: Option<Invocation>)
      ensures invoked.Some? <==> connection.Some? && connection.value.state == Connected
      ensures invoked.Some? ==> invoked.value == UpdateContentCall(content)
    {
      invoked := if CanSend() then Some(UpdateContentCall(content)) else None;
    }
  }
}
