/** The server's sweep loop over its poll set, its map of connections and its database. */
module ServerLoop {
  import opened Bytes
  import opened Framing
  import opened Connection
  import opened ConnectionMap
  import opened Interpreter
  import opened EventLoop
  import opened Requests
  import opened Serial
  import opened Plan
  import opened Database
  import opened DbFile
  import opened FileImage
  import opened OutBuffer
  import FnvHash
  import Sweeps
  import Conversation

  // ---------- connections seen without the heap ----------

  datatype Shot = Shot(valid: bool, client: Client, repr: set<object>)
  type Shots = map<int32, Shot>

  ghost function Look(conn: ClientConnection): (s: Shot)
    reads conn, conn.Repr()
    ensures s.valid == conn.Valid() && s.repr == conn.Repr()
    ensures s.valid ==> s.client == Client(conn.State(), conn.connIdx)
  {
    Shot(conn.Valid(), Client(if conn.Valid() then conn.State() else Uninitialized([]), conn.connIdx), conn.Repr())
  }

  ghost function ReprOf(m: Contents): (s: set<object>)
    reads m.Values
  {
    set fd, o | fd in m && o in m[fd].Repr() :: o
  }

  ghost function LookAll(m: Contents): (s: Shots)
    reads m.Values, ReprOf(m)
    ensures s.Keys == m.Keys
  {
    map fd | fd in m :: Look(m[fd])
  }

  /** Every connection is well formed and shares no memory with another. */
  ghost predicate Apart(s: Shots) {
    && (forall fd :: fd in s ==> s[fd].valid)
    && (forall a, b :: a in s && b in s && a != b ==> s[a].repr !! s[b].repr)
  }

  ghost function Clients(s: Shots): map<int32, Client> {
    map fd | fd in s :: s[fd].client
  }

  lemma ApartAfter(s: Shots, fd: int32, shot: Shot)
    requires Apart(s) && shot.valid && forall other :: other in s && other != fd ==> s[other].repr !! shot.repr
    ensures Apart(s[fd := shot]) && Clients(s[fd := shot]) == Clients(s)[fd := shot.client]
  {
  }

  lemma ApartWithout(s: Shots, fd: int32)
    requires Apart(s)
    ensures Apart(s - {fd}) && Clients(s - {fd}) == Clients(s) - {fd}
  {
  }

  twostate predicate Untouched(conn: ClientConnection)
    reads conn, conn.Repr()
  {
    unchanged(conn) && unchanged(conn.header) && (conn.buf != null ==> unchanged(conn.buf))
  }

  twostate lemma SameLook(conn: ClientConnection)
    requires Untouched(conn)
    ensures Look(conn) == old(Look(conn))
  {
  }

  twostate lemma SameLooks(m: Contents)
    requires forall fd :: fd in m ==> Untouched(m[fd])
    ensures LookAll(m) == old(LookAll(m))
  {
    forall fd | fd in m ensures Look(m[fd]) == old(Look(m[fd])) {
      SameLook(m[fd]);
    }
  }

  lemma LookAllWith(m: Contents, fd: int32, conn: ClientConnection)
    ensures LookAll(m[fd := conn]) == LookAll(m)[fd := Look(conn)]
  {
  }

  ghost predicate Different(x: ClientConnection, y: ClientConnection)
    reads x, y
  {
    x != y && x.header != y.header && x.buf != y.header && y.buf != x.header && (x.buf == y.buf ==> x.buf == null)
  }

  /** Whoever has a connection of its own, apart from the one of fd, is not touched. */
  twostate predicate OthersUntouched(m: Contents, new fd: int32)
    reads m.Values, ReprOf(m)
  {
    fd in m && forall other {:trigger m[other]} :: other in m && old(Different(m[other], m[fd])) ==> Untouched(m[other])
  }

  twostate lemma WhileApart(m: Contents, new fd: int32)
    requires old(Apart(LookAll(m))) && OthersUntouched(m, fd)
    ensures forall other :: other in m && other != fd ==> Untouched(m[other])
  {
    forall other | other in m && other != fd ensures Untouched(m[other]) {
      var x, y := old(LookAll(m))[other].repr, old(LookAll(m))[fd].repr;
      assert x !! y;
      assert m[other] in x && m[other].header in x && (old(m[other].buf) != null ==> old(m[other].buf) in x);
      assert m[fd] in y && m[fd].header in y && (old(m[fd].buf) != null ==> old(m[fd].buf) in y);
    }
  }

  /** Only one connection has changed. */
  twostate lemma OtherLooks(m: Contents, new fd: int32)
    requires fd in m
    requires forall other :: other in m && other != fd ==> Untouched(m[other])
    ensures LookAll(m) == old(LookAll(m))[fd := Look(m[fd])]
  {
    forall other | other in m && other != fd ensures Look(m[other]) == old(Look(m[other])) {
      SameLook(m[other]);
    }
  }

  /** One connection has changed, and at most has a new buffer. */
  twostate lemma StillApart(m: Contents, new fd: int32)
    requires fd in m && old(Apart(LookAll(m))) && LookAll(m) == old(LookAll(m))[fd := Look(m[fd])]
    requires m[fd].Valid() && (m[fd].buf == old(m[fd].buf) || m[fd].buf == null || fresh(m[fd].buf))
    ensures Apart(LookAll(m))
  {
    forall other | other in m && other != fd ensures old(m[other].Repr()) !! m[fd].Repr() {
      assert old(LookAll(m))[other].repr !! old(LookAll(m))[fd].repr;
    }
    ApartAfter(old(LookAll(m)), fd, Look(m[fd]));
  }

  twostate lemma OneChanged(m: Contents, new fd: int32)
    requires old(Apart(LookAll(m))) && OthersUntouched(m, fd)
    requires m[fd].Valid() && (m[fd].buf == old(m[fd].buf) || m[fd].buf == null || fresh(m[fd].buf))
    ensures LookAll(m) == old(LookAll(m))[fd := Look(m[fd])] && Apart(LookAll(m))
  {
    WhileApart(m, fd);
    OtherLooks(m, fd);
    StillApart(m, fd);
  }

  lemma LookAllWithout(m: Contents, fd: int32)
    ensures LookAll(m - {fd}) == LookAll(m) - {fd}
  {
  }

  /** The set of descriptors to poll. */
  class PollFds {
    var pfds: array<int32>
    var fdCount: nat

    ghost predicate Valid()
      reads this
    {
      0 < fdCount <= pfds.Length
    }

    ghost function Entries(): (es: seq<int32>)
      requires Valid()
      reads this, pfds
      ensures |es| == fdCount
    {
      pfds[..fdCount]
    }

    /** Room for sixteen descriptors, and the listener. */
    constructor (listener: int32)
      ensures Valid() && Entries() == [listener] && fresh(pfds) && pfds.Length == 16
    {
      pfds, fdCount := new int32[16](_ => listener), 1;
    }

    /** `add_fd` */
    method Add(fd: int32)
      requires Valid()
      modifies this, pfds
      ensures Valid() && Entries() == old(Entries()) + [fd]
      ensures pfds == old(pfds) || fresh(pfds)
      ensures pfds.Length == if old(fdCount) == old(pfds.Length) then 2 * old(pfds.Length) else old(pfds.Length)
    {
      if fdCount == pfds.Length {
        var bigger := new int32[2 * pfds.Length];
        for i := 0 to fdCount
          invariant pfds == old(pfds) && fdCount == old(fdCount) && pfds[..] == old(pfds[..])
          invariant bigger[..i] == pfds[..i]
        {
          bigger[i] := pfds[i];
        }
        pfds := bigger;
      }
      pfds[fdCount] := fd;
      fdCount := fdCount + 1;
    }

    /** The last entry takes the place of the one at idx. */
    method MoveLast(idx: nat) returns (moved: int32)
      requires Valid() && 0 < idx < fdCount
      modifies this`fdCount, pfds
      ensures Valid() && fdCount == old(fdCount) - 1 && moved == old(Entries())[fdCount]
      ensures Entries() == old(Entries())[idx := moved][..fdCount]
    {
      fdCount := fdCount - 1;
      moved := pfds[fdCount];
      if fdCount != idx {
        pfds[idx] := moved;
      }
    }
  }

  /** `connection_map_remove`, beside the poll set. */
  method Unregister(ghost poll: PollFds, connections: ConnectionMap, ghost db: Database, fd: int32)
    requires poll.Valid() && connections.Valid() && db.Valid()
    modifies connections`chains, connections`nodes, connections`Contents, connections.table, connections.nodes`next
    ensures connections.Valid() && connections.Contents == old(connections.Contents) - {fd}
    ensures LookAll(connections.Contents) == old(LookAll(connections.Contents)) - {fd}
    ensures connections.nodes <= old(connections.nodes)
    ensures poll.Valid() && poll.Entries() == old(poll.Entries()) && db.Valid() && db.View() == old(db.View())
  {
    ghost var m := connections.Contents;
    connections.Remove(fd);
    SameLooks(m);
    LookAllWithout(m, fd);
  }

  function Reindexed(shot: Shot, idx: nat): Shot {
    shot.(client := shot.client.(idx := idx))
  }

  lemma ApartReindexed(s: Shots, fd: int32, idx: nat)
    requires Apart(s) && fd in s
    ensures var s' := s[fd := Reindexed(s[fd], idx)];
            Apart(s') && Clients(s') == Clients(s)[fd := Clients(s)[fd].(idx := idx)]
  {
    ApartAfter(s, fd, Reindexed(s[fd], idx));
  }

  /** What was there before shares nothing with a new connection. */
  twostate lemma NewApart(m: Contents, new fd: int32, new conn: ClientConnection)
    requires old(Apart(LookAll(m))) && fd !in m && fresh(conn.Repr()) && conn.Valid()
    ensures var s := old(LookAll(m))[fd := Look(conn)]; Apart(s) && Clients(s) == Clients(old(LookAll(m)))[fd := Look(conn).client]
  {
    var s := old(LookAll(m));
    forall other | other in s ensures s[other].repr !! Look(conn).repr {
      assert s[other].repr == old(m[other].Repr());
    }
    ApartAfter(s, fd, Look(conn));
  }

  /** `connection_map_insert` of a new connection, beside poll set and database. */
  method Register(ghost poll: PollFds, connections: ConnectionMap, ghost db: Database, fd: int32, conn: ClientConnection)
    requires poll.Valid() && connections.Valid() && db.Valid() && fd !in connections.Contents
    modifies connections, connections.table, connections.nodes
    ensures connections.Valid() && connections.Contents == old(connections.Contents)[fd := conn]
    ensures LookAll(connections.Contents) == old(LookAll(connections.Contents))[fd := Look(conn)]
    ensures Look(conn) == old(Look(conn))
    ensures connections.table == old(connections.table) || fresh(connections.table)
    ensures fresh(connections.nodes - old(connections.nodes)) && old(connections.nodes) <= connections.nodes
    ensures poll.Valid() && poll.Entries() == old(poll.Entries()) && poll.pfds == old(poll.pfds)
    ensures db.Valid() && db.View() == old(db.View())
  {
    ghost var m := connections.Contents;
    connections.Insert(fd, conn);
    SameLooks(m);
    SameLook(conn);
    LookAllWith(m, fd, conn);
  }

  /** The new entry and the new connection, before the map knows of them. */
  method AddEntry(poll: PollFds, ghost connections: ConnectionMap, ghost db: Database, fd: int32) returns (conn: ClientConnection)
    requires poll.Valid() && connections.Valid() && db.Valid()
    modifies poll, poll.pfds
    ensures poll.Valid() && poll.Entries() == old(poll.Entries()) + [fd] && (poll.pfds == old(poll.pfds) || fresh(poll.pfds))
    ensures connections.Valid() && LookAll(connections.Contents) == old(LookAll(connections.Contents))
    ensures db.Valid() && db.View() == old(db.View())
    ensures Look(conn).valid && Look(conn).client == Client(Uninitialized([]), |old(poll.Entries())|) && fresh(conn.Repr())
  {
    var connIdx := poll.fdCount;
    poll.Add(fd);
    conn := new ClientConnection(connIdx);
    SameLooks(connections.Contents);
  }

  /** `accept_new_client`, once `accept` has given a descriptor. */
  method AcceptNewClient(poll: PollFds, connections: ConnectionMap, ghost db: Database, fd: int32) returns (conn: ClientConnection)
    requires poll.Valid() && connections.Valid() && db.Valid() && fd !in connections.Contents
    modifies poll, poll.pfds, connections, connections.table, connections.nodes
    ensures poll.Valid() && poll.Entries() == old(poll.Entries()) + [fd]
    ensures connections.Valid() && connections.Contents == old(connections.Contents)[fd := conn]
    ensures LookAll(connections.Contents) == old(LookAll(connections.Contents))[fd := Look(conn)]
    ensures Look(conn).valid && Look(conn).client == Client(Uninitialized([]), |old(poll.Entries())|) && fresh(conn.Repr())
    ensures poll.pfds == old(poll.pfds) || fresh(poll.pfds)
    ensures db.Valid() && db.View() == old(db.View())
    ensures connections.table == old(connections.table) || fresh(connections.table)
    ensures fresh(connections.nodes - old(connections.nodes)) && old(connections.nodes) <= connections.nodes
  {
    conn := AddEntry(poll, connections, db, fd);
    Register(poll, connections, db, fd, conn);
  }

  /** `AcceptNewClient`, and all the memory that it adds. */
  method AcceptWithMemory(poll: PollFds, connections: ConnectionMap, ghost db: Database, fd: int32)
    returns (conn: ClientConnection, ghost added: set<object>)
    requires poll.Valid() && connections.Valid() && db.Valid() && fd !in connections.Contents
    modifies poll, poll.pfds, connections, connections.table, connections.nodes
    ensures poll.Valid() && poll.Entries() == old(poll.Entries()) + [fd]
    ensures connections.Valid() && connections.Contents == old(connections.Contents)[fd := conn]
    ensures LookAll(connections.Contents) == old(LookAll(connections.Contents))[fd := Look(conn)]
    ensures Look(conn).valid && Look(conn).client == Client(Uninitialized([]), |old(poll.Entries())|) && fresh(conn.Repr())
    ensures db.Valid() && db.View() == old(db.View())
    ensures conn.Repr() <= added && fresh(added)
    ensures poll.pfds in added + {old(poll.pfds)} && connections.table in added + {old(connections.table)}
    ensures connections.nodes <= added + old(connections.nodes)
  {
    conn := AcceptNewClient(poll, connections, db, fd);
    added := conn.Repr() + (connections.nodes - old(connections.nodes))
             + (if poll.pfds == old(poll.pfds) then {} else {poll.pfds})
             + (if connections.table == old(connections.table) then {} else {connections.table});
  }

  /** The entries after the last one has moved to idx. */
  function LastMoved(entries: seq<int32>, idx: nat): seq<int32>
    requires idx < |entries|
  {
    entries[idx := entries[|entries| - 1]][..|entries| - 1]
  }

  ghost function At(m: Contents, fd: int32): ClientConnection
    requires fd in m
  {
    m[fd]
  }

  /** The connection has learnt its new index, unless it is the one that goes; else it is as it was. */
  twostate predicate Reindexes(conn: ClientConnection, new idx: nat, new same: bool)
    reads conn, conn.Repr()
  {
    && old(conn.Valid()) && conn.Valid() && conn.State() == old(conn.State()) && conn.Repr() == old(conn.Repr())
    && conn.connIdx == if same then old(conn.connIdx) else idx
  }

  /** `remove_fd` */
  method RemoveFd(poll: PollFds, connections: ConnectionMap, ghost db: Database, idx: nat)
    requires poll.Valid() && connections.Valid() && db.Valid() && 0 < idx < poll.fdCount
    requires Last(poll.Entries()) in connections.Contents
    requires connections.Contents[Last(poll.Entries())].Valid()
    modifies poll`fdCount, poll.pfds, At(connections.Contents, Last(poll.Entries()))`connIdx
    ensures poll.Valid() && connections.Valid() && db.Valid() && db.View() == old(db.View())
    ensures poll.Entries() == LastMoved(old(poll.Entries()), idx)
    ensures Reindexes(old(At(connections.Contents, Last(poll.Entries()))), idx, idx == old(poll.fdCount) - 1)
    ensures OthersUntouched(old(connections.Contents), old(Last(poll.Entries())))
  {
    var moved := poll.MoveLast(idx);
    if poll.fdCount != idx {
      var conn := connections.Get(moved);
      conn.MoveTo(idx);
    }
  }

  /** The connections after the last entry has moved to idx. */
  ghost function MovedTo(s: Shots, entries: seq<int32>, idx: nat): Shots
    requires idx < |entries|
  {
    var moved := entries[|entries| - 1];
    if idx == |entries| - 1 || moved !in s then s else s[moved := Reindexed(s[moved], idx)]
  }

  twostate lemma LooksAfterMove(m: Contents, new entries: seq<int32>, new idx: nat)
    requires idx < |entries| && entries[|entries| - 1] in m
    requires Reindexes(m[entries[|entries| - 1]], idx, idx == |entries| - 1)
    requires Apart(old(LookAll(m))) && OthersUntouched(m, entries[|entries| - 1])
    ensures LookAll(m) == MovedTo(old(LookAll(m)), entries, idx)
  {
    WhileApart(m, entries[|entries| - 1]);
    OtherLooks(m, entries[|entries| - 1]);
  }

  /** `remove_fd`, and what it does to all connections. */
  method RemoveAndTell(poll: PollFds, connections: ConnectionMap, ghost db: Database, idx: nat)
    requires poll.Valid() && connections.Valid() && db.Valid() && 0 < idx < poll.fdCount && Apart(LookAll(connections.Contents))
    requires Last(poll.Entries()) in connections.Contents
    modifies poll`fdCount, poll.pfds, At(connections.Contents, Last(poll.Entries()))`connIdx
    ensures poll.Valid() && connections.Valid() && db.Valid() && db.View() == old(db.View())
    ensures poll.Entries() == LastMoved(old(poll.Entries()), idx)
    ensures LookAll(connections.Contents) == MovedTo(old(LookAll(connections.Contents)), old(poll.Entries()), idx)
  {
    ghost var m, entries := connections.Contents, poll.Entries();
    assert LookAll(m)[entries[|entries| - 1]].valid;
    RemoveFd(poll, connections, db, idx);
    LooksAfterMove(m, entries, idx);
  }

  /** `handle_client_disconnect` */
  method HandleClientDisconnect(poll: PollFds, connections: ConnectionMap, ghost db: Database, conn: ClientConnection)
    requires poll.Valid() && connections.Valid() && db.Valid() && Apart(LookAll(connections.Contents))
    requires 0 < conn.connIdx < poll.fdCount
    requires Last(poll.Entries()) in connections.Contents
    modifies poll`fdCount, poll.pfds, At(connections.Contents, Last(poll.Entries()))`connIdx
    modifies connections`chains, connections`nodes, connections`Contents, connections.table, connections.nodes`next
    ensures poll.Valid() && connections.Valid() && connections.nodes <= old(connections.nodes)
    ensures db.Valid() && db.View() == old(db.View())
    ensures var (s, entries, idx) := old((LookAll(connections.Contents), poll.Entries(), conn.connIdx));
            && poll.Entries() == LastMoved(entries, idx)
            && connections.Contents == old(connections.Contents) - {entries[idx]}
            && LookAll(connections.Contents) == MovedTo(s, entries, idx) - {entries[idx]}
  {
    ghost var s, entries := LookAll(connections.Contents), poll.Entries();
    var idx := conn.connIdx;
    var fd := poll.pfds[idx];
    RemoveAndTell(poll, connections, db, idx);
    Unregister(poll, connections, db, fd);
    assert fd == entries[idx] && LookAll(connections.Contents) == MovedTo(s, entries, idx) - {fd};
  }

  /** `ClientConnection.Serve`, with its meaning passed in. */
  method ServeOne(conn: ClientConnection, version: uint16, avail: seq<byte>, more: seq<byte>, ghost sem: Meanings)
    returns (v: Verdict, reply: seq<byte>)
    requires conn.Valid() && ValidState(version, conn.State()) && Right(sem)
    modifies conn`headerCursor, conn`state, conn`buf, conn`bufCursor, conn`bufSize, conn.header
    modifies if conn.buf == null then {} else {conn.buf}
    ensures conn.Valid() && (conn.buf == old(conn.buf) || fresh(conn.buf))
    ensures var o := sem.service(version, old(conn.State()), avail, more);
            Judged(v, conn.State(), o) && reply == Replies(version, o.frames)
  {
    assert Service(version, conn.State(), avail, more) == sem.service(version, conn.State(), avail, more);
    v, reply := conn.Serve(version, avail, more);
  }

  ghost function Buffer(conn: ClientConnection): set<object>
    reads conn
  {
    if conn.buf == null then {} else {conn.buf}
  }

  /** One ready connection; poll set, database and the other connections are left as they are. */
  method ServeBeside(ghost poll: PollFds, ghost db: Database, ghost m: Contents, ghost fd: int32, conn: ClientConnection,
                     version: uint16, avail: seq<byte>, more: seq<byte>, ghost sem: Meanings)
    returns (v: Verdict, reply: seq<byte>)
    requires poll.Valid() && db.Valid() && fd in m && m[fd] == conn && conn.Valid() && ValidState(version, conn.State()) && Right(sem)
    modifies conn`headerCursor, conn`state, conn`buf, conn`bufCursor, conn`bufSize, conn.header
    modifies if conn.buf == null then {} else {conn.buf}
    ensures poll.Valid() && poll.Entries() == old(poll.Entries()) && unchanged(poll, db)
    ensures db.Valid() && db.View() == old(db.View())
    ensures conn.Valid() && (conn.buf == old(conn.buf) || fresh(conn.buf)) && conn.connIdx == old(conn.connIdx)
    ensures OthersUntouched(m, fd)
    ensures var o := sem.service(version, old(conn.State()), avail, more);
            Judged(v, conn.State(), o) && reply == Replies(version, o.frames)
  {
    v, reply := ServeOne(conn, version, avail, more, sem);
  }

  /** One ready connection; everything else is left as it is. */
  method ServeAlone(ghost poll: PollFds, ghost connections: ConnectionMap, ghost db: Database, fd: int32, conn: ClientConnection,
                    version: uint16, avail: seq<byte>, more: seq<byte>, ghost sem: Meanings)
    returns (v: Verdict, reply: seq<byte>)
    requires poll.Valid() && connections.Valid() && db.Valid()
    requires fd in connections.Contents && connections.Contents[fd] == conn
    requires conn.Valid() && ValidState(version, conn.State()) && Right(sem)
    modifies conn`headerCursor, conn`state, conn`buf, conn`bufCursor, conn`bufSize, conn.header
    modifies if conn.buf == null then {} else {conn.buf}
    ensures poll.Valid() && poll.Entries() == old(poll.Entries()) && unchanged(poll, connections, db)
    ensures connections.Valid() && db.Valid() && db.View() == old(db.View())
    ensures conn.Valid() && (conn.buf == old(conn.buf) || fresh(conn.buf)) && conn.connIdx == old(conn.connIdx)
    ensures OthersUntouched(connections.Contents, fd)
    ensures var o := sem.service(version, old(conn.State()), avail, more);
            Judged(v, conn.State(), o) && reply == Replies(version, o.frames)
  {
    v, reply := ServeBeside(poll, db, connections.Contents, fd, conn, version, avail, more, sem);
  }

  /** The connection of a ready descriptor is looked up and served. */
  method ServeFd(ghost poll: PollFds, connections: ConnectionMap, ghost db: Database, fd: int32,
                 version: uint16, avail: seq<byte>, more: seq<byte>, ghost sem: Meanings)
    returns (conn: ClientConnection, v: Verdict, reply: seq<byte>)
    requires poll.Valid() && connections.Valid() && db.Valid() && fd in connections.Contents && Right(sem)
    requires connections.Contents[fd].Valid() && ValidState(version, connections.Contents[fd].State())
    modifies At(connections.Contents, fd), At(connections.Contents, fd).header, Buffer(At(connections.Contents, fd))
    ensures poll.Valid() && poll.Entries() == old(poll.Entries()) && unchanged(poll, connections, db)
    ensures connections.Valid() && db.Valid() && db.View() == old(db.View())
    ensures conn == connections.Contents[fd] && conn.Valid() && conn.connIdx == old(At(connections.Contents, fd).connIdx)
    ensures conn.buf == old(At(connections.Contents, fd).buf) || fresh(conn.buf)
    ensures OthersUntouched(connections.Contents, fd)
    ensures var o := sem.service(version, old(At(connections.Contents, fd).State()), avail, more);
            Judged(v, conn.State(), o) && reply == Replies(version, o.frames)
  {
    conn := connections.Get(fd);
    v, reply := ServeAlone(poll, connections, db, fd, conn, version, avail, more, sem);
  }

  /** The response to a request body, in a buffer of its size. */
  method WriteResponse(db: Database, body: array<byte>) returns (ok: bool, reply: seq<byte>)
    requires db.Valid() && Interpret(db.View(), body[..]) != Crashed
    modifies db`employees, db`count, db`fsize, db.employees, db.file
    ensures db.Valid() && (db.employees == old(db.employees) || fresh(db.employees))
    ensures var r := old(Interpret(db.View(), body[..]));
            (ok <==> r.Done?) && (ok ==> db.View() == r.store) && Answered(Some(r), reply)
  {
    var out := new OutBuffer(RESPONSE_HEADER);
    out.Patch(0, HostWord(DB_ACCESS_RESPONSE), out.buf[..]);
    ghost var w := out.buf[..];
    var q;
    ok, q := db.DeserializeRequestOptions(body, out, w);
    reply := if ok then out.buf[..] else [];
  }

  /** `handle_db_access_request`: the reply is all that is sent. It fails without a reply when the request cannot be
      carried out, and with one when `send_all` returns -1. */
  method HandleDbAccessRequest(db: Database, conn: ClientConnection, ghost sem: Meanings) returns (ok: bool, reply: seq<byte>)
    requires db.Valid() && conn.Valid() && conn.state == REQUEST && conn.bufCursor == conn.bufSize
    requires Right(sem) && sem.interpret(db.View(), conn.State().body) != Crashed
    modifies db`employees, db`count, db`fsize, db.employees, db.file
    modifies conn`headerCursor, conn`state, conn`buf, conn`bufCursor
    ensures ok ==> db.employees == old(db.employees) || fresh(db.employees)
    ensures ok ==> conn.Valid() && conn.State() == Initialized([]) && conn.buf == null
    ensures var r := old(sem.interpret(db.View(), conn.State().body));
            && (ok <==> Survived(r)) && (r.Done? ==> db.Valid() && db.View() == r.store) && Answered(Some(r), reply)
            && (!ok ==> unchanged(conn))
  {
    assert conn.buf[..conn.bufCursor] == conn.buf[..];
    assert Interpret(db.View(), conn.buf[..]) == sem.interpret(db.View(), conn.buf[..]);
    ok, reply := WriteResponse(db, conn.buf);
    ok := ok && CountAsInt(|reply|) != -1;
    if ok {
      conn.ResetForNextRequest();
    }
  }

  /** A complete request; the other connections and the poll set are left as they are. */
  method AnswerAlone(ghost poll: PollFds, ghost connections: ConnectionMap, db: Database, fd: int32, conn: ClientConnection,
                     ghost sem: Meanings)
    returns (ok: bool, reply: seq<byte>)
    requires poll.Valid() && connections.Valid() && db.Valid()
    requires fd in connections.Contents && connections.Contents[fd] == conn
    requires conn.Valid() && conn.state == REQUEST && conn.bufCursor == conn.bufSize
    requires Right(sem) && sem.interpret(db.View(), conn.State().body) != Crashed
    modifies db`employees, db`count, db`fsize, db.employees, db.file
    modifies conn`headerCursor, conn`state, conn`buf, conn`bufCursor
    ensures poll.Valid() && poll.Entries() == old(poll.Entries()) && connections.Valid()
    ensures ok ==> db.Valid() && (db.employees == old(db.employees) || fresh(db.employees))
    ensures ok ==> conn.Valid() && conn.State() == Initialized([]) && conn.buf == null
    ensures OthersUntouched(connections.Contents, fd)
    ensures var r := old(sem.interpret(db.View(), conn.State().body));
            (ok <==> Survived(r)) && (ok ==> db.View() == r.store) && Answered(Some(r), reply)
  {
    ok, reply := HandleDbAccessRequest(db, conn, sem);
  }

  // ---------- the steps of the loop on what is seen of the connections ----------

  lemma ApartMoved(s: Shots, entries: seq<int32>, idx: nat, fd: int32)
    requires Apart(s) && idx < |entries|
    ensures Apart(MovedTo(s, entries, idx) - {fd})
  {
    var moved := entries[|entries| - 1];
    if moved in s {
      ApartReindexed(s, moved, idx);
    }
    ApartWithout(MovedTo(s, entries, idx), fd);
  }

  lemma WaitingView(c: EventLoop.Server, s: Shots, fd: int32, shot: Shot, o: Framing.Outcome)
    requires c.clients == Clients(s) && fd in s && s[fd].client.idx < |c.pfds|
    requires Judged(Waits, shot.client.st, o) && shot.client.idx == s[fd].client.idx
    ensures SettleTo(c, fd, o, None) == c.(clients := Clients(s[fd := shot]))
  {
  }

  lemma LookedTwice(s: Shots, fd: int32, before: Shot, after: Shot)
    ensures s[fd := before][fd := after] == s[fd := after]
  {
  }

  lemma AnsweredView(c: EventLoop.Server, s: Shots, fd: int32, shot: Shot, st: ConnState, o: Framing.Outcome, r: Interpreter.Result)
    requires c.clients == Clients(s) && fd in s && s[fd].client.idx < |c.pfds|
    requires Judged(HasRequest, st, o) && shot.client == Client(Initialized([]), s[fd].client.idx)
    ensures Survived(r) ==> SettleTo(c, fd, o, Some(r)) == c.(clients := Clients(s[fd := shot]), store := r.store)
  {
  }

  lemma FailedView(c: EventLoop.Server, fd: int32, st: ConnState, o: Framing.Outcome, r: Interpreter.Result)
    requires fd in c.clients && c.clients[fd].idx < |c.pfds| && Judged(HasRequest, st, o)
    ensures r != Crashed && !Survived(r) ==> SettleTo(c, fd, o, Some(r)).status == Exited
  {
  }

  lemma DroppedView(c: EventLoop.Server, s: Shots, fd: int32, shot: Shot, o: Framing.Outcome)
    requires c.clients == Clients(s) && fd in s && s[fd].client.idx < |c.pfds| && c.pfds[s[fd].client.idx] == fd
    requires Judged(Disconnects, shot.client.st, o) && shot.client.idx == s[fd].client.idx
    ensures var idx := s[fd].client.idx;
            SettleTo(c, fd, o, None)
            == c.(pfds := LastMoved(c.pfds, idx), clients := Clients(MovedTo(s[fd := shot], c.pfds, idx) - {fd}))
  {
    assert c.clients[fd] == s[fd].client;
  }

  /** No connection has memory that it did not have in s, except that fd may have r. */
  ghost predicate Within(s': Shots, s: Shots, fd: int32, r: set<object>) {
    forall f :: f in s' ==> f in s && s'[f].repr <= if f == fd then r else s[f].repr
  }

  ghost predicate OwnedBy(s: Shots, repr: set<object>) {
    forall fd :: fd in s ==> s[fd].repr <= repr
  }

  lemma OwnedNew(s: Shots, fd: int32, shot: Shot, repr: set<object>, added: set<object>)
    requires OwnedBy(s, repr) && shot.repr <= added
    ensures OwnedBy(s[fd := shot], repr + added)
  {
  }

  lemma OwnedWithin(s: Shots, s': Shots, fd: int32, r: set<object>, repr: set<object>, repr': set<object>)
    requires OwnedBy(s, repr) && fd in s && Within(s', s, fd, r) && repr + (r - s[fd].repr) <= repr'
    ensures OwnedBy(s', repr')
  {
  }

  lemma ServedWithin(s: Shots, fd: int32, shot: Shot, r: set<object>)
    requires fd in s && shot.repr <= r
    ensures Within(s[fd := shot], s, fd, r)
  {
  }

  lemma MovedWithin(s: Shots, fd: int32, shot: Shot, entries: seq<int32>, idx: nat)
    requires fd in s && idx < |entries|
    ensures Within(MovedTo(s[fd := shot], entries, idx) - {fd}, s, fd, {})
  {
  }

  lemma JudgedResult(sem: Meanings, store: Store, v: Verdict, st: ConnState, o: Framing.Outcome)
    requires Judged(v, st, o)
    ensures ResultOf(sem, store, o) == if v == HasRequest then Some(sem.interpret(store, st.body)) else None
  {
  }

  class DbServer {
    const listener: int32
    const version: uint16
    const poll: PollFds
    const connections: ConnectionMap
    const db: Database

    ghost predicate Valid()
      reads poll, connections, connections.table, connections.nodes, connections.Contents.Values
      reads ReprOf(connections.Contents), db, db.file
    {
      poll.Valid() && connections.Valid() && Apart(LookAll(connections.Contents)) && db.Valid()
    }

    /** The running server with its sweep at index i, when the descriptors handed out so far are `used`. */
    ghost function View(i: nat, used: set<int32>): EventLoop.Server
      requires Valid()
      reads this, poll, poll.pfds, connections, connections.table, connections.nodes, connections.Contents.Values
      reads ReprOf(connections.Contents), db, db.file, db.employees
    {
      EventLoop.Server(Running, listener, version, poll.Entries(), Clients(LookAll(connections.Contents)), db.View(), used, i)
    }

    /** What `main` sets up before its first poll. */
    constructor (db: Database, listener: int32, version: uint16)
      requires db.Valid()
      ensures Valid() && Init(View(1, {listener}))
      ensures db.View() == old(db.View()) && this.db == db && this.listener == listener && this.version == version
      ensures fresh(poll) && fresh(poll.pfds) && fresh(connections) && fresh(connections.table)
      ensures Owned({poll, poll.pfds, connections, connections.table, db, db.file, db.employees})
    {
      this.db, this.listener, this.version := db, listener, version;
      poll := new PollFds(listener);
      connections := new ConnectionMap(0.5, key => FnvHash.Hash(key));
    }

    /** The descriptor in the last place of the poll set is in the map. */
    ghost predicate LastIsClient()
      requires poll.Valid()
      reads poll, poll.pfds, connections
    {
      Last(poll.Entries()) in connections.Contents
    }

    ghost function LastClient(): ClientConnection
      requires poll.Valid() && LastIsClient()
      reads poll, poll.pfds, connections
    {
      connections.Contents[Last(poll.Entries())]
    }

    /** The service of one connection leaves the rest of the server as it is. */
    method ServeReady(ghost c: EventLoop.Server, ghost s: Shots, fd: int32, avail: seq<byte>, more: seq<byte>, ghost sem: Meanings)
      returns (conn: ClientConnection, v: Verdict, reply: seq<byte>)
      requires Valid() && s == LookAll(connections.Contents) && Resting(c) && c.clients == Clients(s) && Right(sem)
      requires fd in s && ValidState(version, s[fd].client.st) && LastIsClient()
      modifies At(connections.Contents, fd), At(connections.Contents, fd).header, Buffer(At(connections.Contents, fd))
      ensures Serving(c, s, fd, conn) && unchanged(poll, connections, db) && fresh(conn.Repr() - s[fd].repr)
      ensures LastIsClient()
      ensures var o := sem.service(version, s[fd].client.st, avail, more);
              Judged(v, conn.State(), o) && reply == Replies(version, o.frames)
    {
      assert connections.Contents[fd].Valid() && connections.Contents[fd].State() == s[fd].client.st;
      conn, v, reply := ServeFd(poll, connections, db, fd, version, avail, more, sem);
      OneChanged(connections.Contents, fd);
    }

    /** So does the answer to a request, which changes only the database besides. */
    method AnswerReady(fd: int32, conn: ClientConnection, ghost sem: Meanings) returns (ok: bool, reply: seq<byte>)
      requires Valid() && fd in connections.Contents && connections.Contents[fd] == conn
      requires conn.Valid() && conn.state == REQUEST && conn.bufCursor == conn.bufSize
      requires Right(sem) && sem.interpret(db.View(), conn.State().body) != Crashed
      modifies db`employees, db`count, db`fsize, db.employees, db.file
      modifies conn`headerCursor, conn`state, conn`buf, conn`bufCursor
      ensures ok ==> Valid() && (db.employees == old(db.employees) || fresh(db.employees))
      ensures ok ==> conn.Valid() && conn.State() == Initialized([]) && conn.Repr() <= old(conn.Repr())
      ensures ok ==> poll.Entries() == old(poll.Entries())
      ensures ok ==> LookAll(connections.Contents) == old(LookAll(connections.Contents))[fd := Look(conn)]
      ensures var r := old(sem.interpret(db.View(), conn.State().body));
              (ok <==> Survived(r)) && (ok ==> db.View() == r.store) && Answered(Some(r), reply)
    {
      ok, reply := AnswerAlone(poll, connections, db, fd, conn, sem);
      if ok {
        OneChanged(connections.Contents, fd);
      }
    }

    /** A disconnect leaves the database as it is. */
    method DisconnectReady(conn: ClientConnection)
      requires Valid() && 0 < conn.connIdx < poll.fdCount
      requires LastIsClient()
      modifies poll`fdCount, poll.pfds, At(connections.Contents, Last(poll.Entries()))`connIdx
      modifies connections`chains, connections`nodes, connections`Contents, connections.table, connections.nodes`next
      ensures Valid() && connections.nodes <= old(connections.nodes)
      ensures poll.Entries() == LastMoved(old(poll.Entries()), old(conn.connIdx)) && db.View() == old(db.View())
      ensures connections.Contents == old(connections.Contents) - {old(poll.Entries()[conn.connIdx])}
      ensures LookAll(connections.Contents)
           == MovedTo(old(LookAll(connections.Contents)), old(poll.Entries()), old(conn.connIdx)) - {old(poll.Entries()[conn.connIdx])}
    {
      ghost var s, entries, idx := LookAll(connections.Contents), poll.Entries(), conn.connIdx;
      HandleClientDisconnect(poll, connections, db, conn);
      ApartMoved(s, entries, idx, entries[idx]);
    }

    /** All but the connections is as in c. */
    ghost predicate Resting(c: EventLoop.Server)
      requires poll.Valid() && db.Valid()
      reads this, poll, poll.pfds, db, db.file, db.employees
    {
      poll.Entries() == c.pfds && db.View() == c.store && listener == c.listener && version == c.version && c.status == Running
    }

    /** The server is as it was when it was c, with connections s, but for the connection that is being served. */
    ghost predicate Serving(c: EventLoop.Server, s: Shots, fd: int32, conn: ClientConnection)
      reads this, poll, poll.pfds, connections, connections.table, connections.nodes, connections.Contents.Values
      reads ReprOf(connections.Contents), db, db.file, db.employees, conn, conn.Repr()
    {
      && Valid() && Resting(c) && c.clients == Clients(s) && fd in s
      && fd in connections.Contents && connections.Contents[fd] == conn && conn.Valid() && conn.connIdx == s[fd].client.idx
      && LookAll(connections.Contents) == s[fd := Look(conn)]
    }

    method FinishRequest(ghost c: EventLoop.Server, ghost s: Shots, fd: int32, conn: ClientConnection, ghost sem: Meanings)
      returns (ok: bool, reply: seq<byte>)
      requires Serving(c, s, fd, conn) && conn.state == REQUEST && conn.bufCursor == conn.bufSize
      requires Right(sem) && sem.interpret(c.store, conn.State().body) != Crashed
      modifies db`employees, db`count, db`fsize, db.employees, db.file
      modifies conn`headerCursor, conn`state, conn`buf, conn`bufCursor
      ensures var r := sem.interpret(c.store, old(conn.State()).body);
              (ok <==> Survived(r)) && Answered(Some(r), reply) && (ok ==> Serving(c.(store := r.store), s, fd, conn))
      ensures ok ==> conn.State() == Initialized([]) && conn.Repr() <= old(conn.Repr())
      ensures ok ==> db.employees == old(db.employees) || fresh(db.employees)
    {
      ghost var before := Look(conn);
      ok, reply := AnswerReady(fd, conn, sem);
      if ok {
        LookedTwice(s, fd, before, Look(conn));
      }
    }

    method FinishDisconnect(ghost c: EventLoop.Server, ghost s: Shots, fd: int32, conn: ClientConnection)
      requires Serving(c, s, fd, conn) && 0 < conn.connIdx < poll.fdCount && poll.Entries()[conn.connIdx] == fd
      requires LastIsClient()
      modifies poll`fdCount, poll.pfds, At(connections.Contents, Last(poll.Entries()))`connIdx
      modifies connections`chains, connections`nodes, connections`Contents, connections.table, connections.nodes`next
      ensures Valid()
      ensures var (idx, shot) := old((conn.connIdx, Look(conn)));
              var left := MovedTo(s[fd := shot], c.pfds, idx) - {fd};
              View(c.slot, c.used) == c.(pfds := LastMoved(c.pfds, idx), clients := Clients(left))
      ensures LookAll(connections.Contents) == MovedTo(s[fd := old(Look(conn))], c.pfds, old(conn.connIdx)) - {fd}
      ensures connections.nodes <= old(connections.nodes)
    {
      DisconnectReady(conn);
    }

    method Answer(ghost c: EventLoop.Server, ghost s: Shots, fd: int32, conn: ClientConnection, ghost o: Framing.Outcome,
                  ghost sem: Meanings) returns (goesOn: bool, reply: seq<byte>)
      requires Serving(c, s, fd, conn) && Judged(HasRequest, conn.State(), o)
      requires conn.connIdx < |c.pfds|
      requires Right(sem) && sem.interpret(c.store, conn.State().body) != Crashed
      modifies db`employees, db`count, db`fsize, db.employees, db.file
      modifies conn`headerCursor, conn`state, conn`buf, conn`bufCursor
      ensures var r := sem.interpret(c.store, old(conn.State()).body);
              var c' := SettleTo(c, fd, o, Some(r));
              && (goesOn <==> c'.status == Running) && (goesOn ==> Valid() && View(c.slot, c.used) == c')
              && Answered(Some(r), reply)
      ensures goesOn ==> Within(LookAll(connections.Contents), s, fd, old(conn.Repr()))
      ensures goesOn ==> db.employees == old(db.employees) || fresh(db.employees)
      ensures poll.pfds == old(poll.pfds) && connections.table == old(connections.table)
    {
      ghost var st, before := conn.State(), conn.Repr();
      ghost var r := sem.interpret(c.store, st.body);
      goesOn, reply := FinishRequest(c, s, fd, conn, sem);
      if goesOn {
        ServedWithin(s, fd, Look(conn), before);
        AnsweredView(c, s, fd, Look(conn), st, o, r);
      } else {
        FailedView(c, fd, st, o, r);
      }
    }

    method Drop(ghost c: EventLoop.Server, ghost s: Shots, fd: int32, conn: ClientConnection, ghost o: Framing.Outcome)
      requires Serving(c, s, fd, conn) && Judged(Disconnects, conn.State(), o)
      requires 0 < conn.connIdx < |c.pfds| && c.pfds[conn.connIdx] == fd
      requires LastIsClient()
      modifies poll`fdCount, poll.pfds, At(connections.Contents, Last(poll.Entries()))`connIdx
      modifies connections`chains, connections`nodes, connections`Contents, connections.table, connections.nodes`next
      ensures Valid() && View(c.slot, c.used) == SettleTo(c, fd, o, None)
      ensures Within(LookAll(connections.Contents), s, fd, {}) && connections.nodes <= old(connections.nodes)
      ensures poll.pfds == old(poll.pfds) && connections.table == old(connections.table)
    {
      ghost var idx, shot := conn.connIdx, Look(conn);
      DroppedView(c, s, fd, shot, o);
      assert poll.Entries() == c.pfds;
      FinishDisconnect(c, s, fd, conn);
      MovedWithin(s, fd, shot, c.pfds, idx);
    }

    lemma Wait(c: EventLoop.Server, s: Shots, fd: int32, conn: ClientConnection, o: Framing.Outcome)
      requires Serving(c, s, fd, conn) && Judged(Waits, conn.State(), o) && conn.connIdx < |c.pfds|
      ensures View(c.slot, c.used) == SettleTo(c, fd, o, None)
      ensures Within(LookAll(connections.Contents), s, fd, conn.Repr())
    {
      ServedWithin(s, fd, Look(conn), conn.Repr());
      WaitingView(c, s, fd, Look(conn), o);
    }

    /** What the verdict on a served connection asks for. */
    method Conclude(ghost c: EventLoop.Server, ghost s: Shots, fd: int32, conn: ClientConnection, v: Verdict, ghost o: Framing.Outcome,
                  ghost sem: Meanings, ghost last: ClientConnection) returns (goesOn: bool, reply: seq<byte>)
      requires Serving(c, s, fd, conn) && Judged(v, conn.State(), o) && Right(sem)
      requires 0 < conn.connIdx < |c.pfds| && c.pfds[conn.connIdx] == fd
      requires LastIsClient() && last == LastClient() && ResultOf(sem, c.store, o) != Some(Crashed)
      modifies db`employees, db`count, db`fsize, db.employees, db.file
      modifies conn`headerCursor, conn`state, conn`buf, conn`bufCursor
      modifies poll`fdCount, poll.pfds, last`connIdx
      modifies connections`chains, connections`nodes, connections`Contents, connections.table, connections.nodes`next
      ensures var c' := SettleTo(c, fd, o, ResultOf(sem, c.store, o));
              (goesOn <==> c'.status == Running) && (goesOn ==> Valid() && View(c.slot, c.used) == c')
      ensures Answered(ResultOf(sem, c.store, o), reply)
      ensures goesOn ==> Within(LookAll(connections.Contents), s, fd, old(conn.Repr())) && connections.nodes <= old(connections.nodes)
      ensures goesOn ==> db.employees == old(db.employees) || fresh(db.employees)
      ensures poll.pfds == old(poll.pfds) && connections.table == old(connections.table)
    {
      goesOn, reply := true, [];
      JudgedResult(sem, c.store, v, conn.State(), o);
      if v == EndsServer {
        goesOn := false;
      } else if v == Disconnects {
        Drop(c, s, fd, conn, o);
      } else if v == HasRequest {
        goesOn, reply := Answer(c, s, fd, conn, o, sem);
      } else {
        Wait(c, s, fd, conn, o);
      }
    }

    /** One turn of the sweep loop for a ready client. */
    method VisitClient(ghost c: EventLoop.Server, ghost s: Shots, fd: int32, avail: seq<byte>, more: seq<byte>,
                       ghost o: Framing.Outcome, ghost sem: Meanings, ghost last: ClientConnection)
      returns (goesOn: bool, reply: seq<byte>, answer: seq<byte>, ghost r: set<object>)
      requires Valid() && Resting(c) && s == LookAll(connections.Contents) && c.clients == Clients(s) && Right(sem)
      requires CanVisit(c, fd) && LastIsClient() && last == LastClient()
      requires o == sem.service(version, s[fd].client.st, avail, more)
      requires ResultOf(sem, c.store, o) != Some(Crashed)
      modifies poll`fdCount, poll.pfds, last`connIdx
      modifies At(connections.Contents, fd), At(connections.Contents, fd).header, Buffer(At(connections.Contents, fd))
      modifies connections`chains, connections`nodes, connections`Contents, connections.table, connections.nodes`next
      modifies db`employees, db`count, db`fsize, db.employees, db.file
      ensures var c' := SettleTo(c, fd, o, ResultOf(sem, c.store, o));
              (goesOn <==> c'.status == Running) && (goesOn ==> Valid() && View(c.slot, c.used) == c')
      ensures reply == Replies(version, o.frames)
      ensures goesOn ==> Within(LookAll(connections.Contents), s, fd, r) && fresh(r - s[fd].repr)
      ensures poll.pfds == old(poll.pfds) && connections.table == old(connections.table)
      ensures goesOn ==> connections.nodes <= old(connections.nodes) && (db.employees == old(db.employees) || fresh(db.employees))
      ensures Answered(ResultOf(sem, c.store, o), answer)
    {
      var conn, v;
      conn, v, reply := ServeReady(c, s, fd, avail, more, sem);
      r := conn.Repr();
      goesOn, answer := Conclude(c, s, fd, conn, v, o, sem, last);
    }

    /** A new client leaves the rest of the server as it is. */
    method AcceptReady(ghost c: EventLoop.Server, ghost s: Shots, fd: int32) returns (ghost shot: Shot, ghost added: set<object>)
      requires Valid() && Resting(c) && s == LookAll(connections.Contents) && c.clients == Clients(s) && fd !in s
      modifies poll, poll.pfds, connections, connections.table, connections.nodes
      ensures Valid() && Resting(c.(pfds := c.pfds + [fd]))
      ensures Clients(LookAll(connections.Contents)) == c.clients[fd := Client(Uninitialized([]), |c.pfds|)]
      ensures LookAll(connections.Contents) == s[fd := shot] && shot.repr <= added && fresh(added)
      ensures poll.pfds in added + {old(poll.pfds)} && connections.table in added + {old(connections.table)}
      ensures connections.nodes <= added + old(connections.nodes)
    {
      ghost var m := connections.Contents;
      var conn;
      conn, added := AcceptWithMemory(poll, connections, db, fd);
      shot := Look(conn);
      NewApart(m, fd, conn);
    }

    /** All that a turn may change is in repr. */
    ghost predicate Owned(repr: set<object>)
      reads poll, connections, connections.Contents.Values, ReprOf(connections.Contents), db
    {
      && {poll, poll.pfds, connections, connections.table, db, db.file, db.employees} <= repr && connections.nodes <= repr
      && OwnedBy(LookAll(connections.Contents), repr)
    }

    /** The turn of the loop at the listener. */
    method VisitListener(ghost c: EventLoop.Server, input: Input, ghost repr: set<object>) returns (ghost repr': set<object>)
      requires Follows(c, repr) && c.slot == 0 && (input.Accept? ==> input.fd !in c.clients)
      modifies poll, poll.pfds, connections, connections.table, connections.nodes
      ensures Follows(if input.Accept? then AddClient(c.(slot := 1), input.fd) else c.(slot := 1), repr') && fresh(repr' - repr)
    {
      repr' := repr;
      if input.Accept? {
        ghost var s := LookAll(connections.Contents);
        var shot, added := AcceptReady(c, s, input.fd);
        OwnedNew(s, input.fd, shot, repr, added);
        repr' := repr + added;
      }
    }

    /** What a turn leaves: the state of the event loop, and the memory there is. */
    ghost predicate Follows(c: EventLoop.Server, repr: set<object>)
      reads this, poll, poll.pfds, connections, connections.table, connections.nodes, connections.Contents.Values
      reads ReprOf(connections.Contents), db, db.file, db.employees
    {
      Valid() && Resting(c) && Clients(LookAll(connections.Contents)) == c.clients && Owned(repr)
    }

    twostate lemma StillOwned(new s: Shots, new fd: int32, new r: set<object>, repr: set<object>, new repr': set<object>)
      requires old(Owned(repr)) && s == old(LookAll(connections.Contents)) && fd in s
      requires Within(LookAll(connections.Contents), s, fd, r) && fresh(r - s[fd].repr)
      requires poll.pfds == old(poll.pfds) && connections.table == old(connections.table)
      requires connections.nodes <= old(connections.nodes)
      requires db.employees == old(db.employees) || fresh(db.employees)
      requires repr' == repr + (r - s[fd].repr) + if db.employees == old(db.employees) then {} else {db.employees}
      ensures Owned(repr') && fresh(repr' - repr)
    {
      OwnedWithin(s, LookAll(connections.Contents), fd, r, repr, repr');
    }

    lemma ViewFollows(c: EventLoop.Server, repr: set<object>)
      requires Valid() && View(c.slot, c.used) == c && Owned(repr)
      ensures Follows(c, repr)
    {
    }

    /** The turn of the loop at a client that is ready; c is the server with the counter moved on already. */
    method VisitReady(ghost c: EventLoop.Server, fd: int32, avail: seq<byte>, more: seq<byte>, ghost o: Framing.Outcome,
                      ghost sem: Meanings, ghost repr: set<object>)
      returns (goesOn: bool, reply: seq<byte>, answer: seq<byte>, ghost repr': set<object>)
      requires Follows(c, repr) && Right(sem) && CanVisit(c, fd)
      requires o == sem.service(version, c.clients[fd].st, avail, more) && ResultOf(sem, c.store, o) != Some(Crashed)
      modifies repr
      ensures var c' := SettleTo(c, fd, o, ResultOf(sem, c.store, o));
              (goesOn <==> c'.status == Running) && (goesOn ==> Follows(c', repr'))
      ensures goesOn ==> fresh(repr' - repr)
      ensures reply == Replies(version, o.frames)
      ensures Answered(ResultOf(sem, c.store, o), answer)
    {
      ghost var s := LookAll(connections.Contents);
      assert s[fd].client == c.clients[fd] && Last(c.pfds) in s;
      assert s[fd].repr <= repr && s[Last(poll.Entries())].repr <= repr;
      ghost var r;
      goesOn, reply, answer, r := VisitClient(c, s, fd, avail, more, o, sem, LastClient());
      repr' := repr + (r - s[fd].repr) + if db.employees == old(db.employees) then {} else {db.employees};
      if goesOn {
        StillOwned(s, fd, r, repr, repr');
        ViewFollows(SettleTo(c, fd, o, ResultOf(sem, c.store, o)), repr');
      }
    }

    /** The body of the loop at index i, for any input: c is the server before, c' the one it is planned to become;
        sent is what goes to the client that is served. */
    method Visit(ghost c: EventLoop.Server, i: nat, input: Input, ghost c': EventLoop.Server, ghost sem: Meanings,
                 ghost repr: set<object>)
      returns (goesOn: bool, sent: seq<byte>, ghost repr': set<object>)
      requires Follows(c, repr) && Right(sem) && i == c.slot < |c.pfds| && Planned(sem, c, input, c')
      modifies repr
      ensures (goesOn <==> c'.status == Running) && (goesOn ==> Follows(c', repr') && fresh(repr' - repr))
      ensures PlannedSends(sem, c, input, sent)
    {
      goesOn, sent, repr' := true, [], repr;
      if i == 0 {
        repr' := VisitListener(c, input, repr);
      } else if input.Incoming? {
        var fd := poll.pfds[i];
        ghost var o := VisitOutcome(sem, c, input);
        var reply, answer;
        goesOn, reply, answer, repr' := VisitReady(c.(slot := i + 1), fd, input.avail, input.more, o, sem, repr);
        sent := reply + answer;
        SentInVisit(version, o, ResultOf(sem, c.store, o), reply, answer);
      }
    }

    /** One turn of the sweep loop of a run in which |log| turns are over. */
    method TakeTurn(i: nat, inputs: seq<Input>, log: seq<seq<byte>>, ghost states: seq<EventLoop.Server>, ghost sem: Meanings,
                    ghost repr: set<object>)
      returns (goesOn: bool, log': seq<seq<byte>>, ghost repr': set<object>)
      requires Right(sem) && IsPlan(sem, states, inputs) && SentAlong(sem, states, inputs, log) && |log| < |inputs|
      requires Follows(states[|log|], repr) && i == states[|log|].slot < |states[|log|].pfds|
      modifies repr
      ensures |log'| == |log| + 1 && SentAlong(sem, states, inputs, log') && (goesOn <==> states[|log'|].status == Running)
      ensures Sweeps.Remaining(states[|log'|]) < Sweeps.Remaining(states[|log|])
      ensures goesOn ==> Follows(states[|log'|], repr') && states[|log'|].slot == i + 1 && fresh(repr' - repr)
    {
      ghost var n := |log|;
      PlannedAdvances(sem, states[n], inputs[n], states[n + 1]);
      var sent;
      goesOn, sent, repr' := Visit(states[n], i, inputs[|log|], states[n + 1], sem, repr);
      SentAlongOneMore(sem, states, inputs, log, sent);
      log' := log + [sent];
    }

    /** The sweep loop, from a poll to the next one: after at most one turn more than there were entries it is past
        the end of the poll set, or the server has ended, or there is no more input. inputs are what the turns of the
        whole run find, log is what they have sent so far. */
    method Sweep(inputs: seq<Input>, log0: seq<seq<byte>>, ghost states: seq<EventLoop.Server>, ghost sem: Meanings,
                 ghost repr: set<object>)
      returns (goesOn: bool, log: seq<seq<byte>>, ghost repr': set<object>)
      requires Right(sem) && IsPlan(sem, states, inputs) && SentAlong(sem, states, inputs, log0)
      requires Follows(states[|log0|], repr) && states[|log0|].slot == 0
      modifies repr
      ensures SentAlong(sem, states, inputs, log) && |log0| <= |log| <= |log0| + |states[|log0|].pfds| + 1
      ensures goesOn <==> states[|log|].status == Running
      ensures goesOn ==> Follows(states[|log|], repr') && fresh(repr' - repr)
      ensures goesOn ==> states[|log|].slot >= |states[|log|].pfds| || |log| == |inputs|
    {
      goesOn, log, repr' := true, log0, repr;
      var i := 0;
      while goesOn && i < poll.fdCount && |log| < |inputs|
        invariant SentAlong(sem, states, inputs, log) && |log0| <= |log|
        invariant Sweeps.Remaining(states[|log|]) + |log| <= |log0| + |states[|log0|].pfds| + 1
        invariant goesOn <==> states[|log|].status == Running
        invariant goesOn ==> Follows(states[|log|], repr') && i == states[|log|].slot && fresh(repr' - repr)
        decreases Sweeps.Remaining(states[|log|])
      {
        goesOn, log, repr' := TakeTurn(i, inputs, log, states, sem, repr');
        i := i + 1;
      }
    }

    /** Polls and sweeps, one after another, as long as there is input. */
    method Follow(inputs: seq<Input>, ghost states: seq<EventLoop.Server>, ghost sem: Meanings, ghost repr: set<object>)
      returns (goesOn: bool, log: seq<seq<byte>>, ghost repr': set<object>)
      requires Right(sem) && IsPlan(sem, states, inputs) && Follows(states[0], repr) && states[0].slot >= |states[0].pfds|
      modifies repr
      ensures SentAlong(sem, states, inputs, log) && (goesOn <==> states[|log|].status == Running)
      ensures goesOn ==> Follows(states[|log|], repr') && fresh(repr' - repr) && |log| == |inputs|
    {
      goesOn, log, repr' := true, [], repr;
      while goesOn && |log| < |inputs|
        invariant SentAlong(sem, states, inputs, log) && (goesOn <==> states[|log|].status == Running)
        invariant goesOn ==> Follows(states[|log|], repr') && fresh(repr' - repr)
        invariant goesOn ==> states[|log|].slot >= |states[|log|].pfds| || |log| == |inputs|
        decreases |inputs| - |log|
      {
        PolledNext(sem, states, inputs, log);
        log := log + [[]];
        goesOn, log, repr' := Sweep(inputs, log, states, sem, repr');
      }
    }

    /** The server's loop on any run of the event loop: the objects go through the same states and send what the history
        of the run says, to the end of the run or until the server ends itself. */
    method Run(inputs: seq<Input>, ghost c0: EventLoop.Server, ghost repr: set<object>)
      returns (goesOn: bool, log: seq<seq<byte>>, ghost repr': set<object>)
      requires Follows(c0, repr) && Inv(c0) && c0.slot >= |c0.pfds| && AllDefined(c0, inputs)
      modifies repr
      ensures |log| <= |inputs| && Conversation.Logged(version, History(c0, inputs[..|log|]), log)
      ensures goesOn <==> After(c0, inputs[..|log|]).status == Running
      ensures goesOn ==> |log| == |inputs| && Follows(After(c0, inputs), repr') && fresh(repr' - repr)
    {
      ghost var sem, states := ServerMeanings(), States(c0, inputs);
      RunIsPlan(sem, c0, inputs);
      StateAt(c0, inputs, 0);
      goesOn, log, repr' := Follow(inputs, states, sem, repr);
      StateAt(c0, inputs, |log|);
      SentIsLogged(sem, c0, inputs, log);
      assert inputs[..|inputs|] == inputs;
    }
  }

  /** The server's `main` on an existing file, up to its first poll. */
  method Start(file: DbFile, prior: seq<byte>, listener: int32, version: uint16)
    returns (server: DbServer?, ghost repr: set<object>)
    requires file.pos == 0 && |prior| == HEADER
    modifies file
    ensures file.data == old(file.data) && fresh(repr - {file})
    ensures match Reopened(file.data)
            case Some(st) =>
              && server != null && server.version == version && server.db.file == file
              && server.Follows(Started(listener, version, st), repr)
            case None => |file.data| >= HEADER && !Accepts(file.data) ==> server == null
  {
    server, repr := null, {};
    var ok, db := Open(file, prior);
    if ok {
      server := new DbServer(db, listener, version);
      repr := {server.poll, server.poll.pfds, server.connections, server.connections.table, db, db.file, db.employees};
    }
  }

  /** The whole server: it finds the store that is on the file and then goes through the states of a run from there.
      At the end of the run its employees and its file are those of the run, if it has not ended itself before. If the
      clients follow the protocol and there is room, it has not, and has satisfied every client. */
  method Serve(file: DbFile, prior: seq<byte>, listener: int32, version: uint16, inputs: seq<Input>, ghost st: Store,
               ghost sent: int32 -> seq<Options>)
    returns (goesOn: bool, server: DbServer?, log: seq<seq<byte>>, ghost os: seq<Options>)
    requires file.pos == 0 && |prior| == HEADER && Reopened(file.data) == Some(st)
    requires AllDefined(Started(listener, version, st), inputs)
    modifies file
    ensures var c0 := Started(listener, version, st);
            && |log| <= |inputs| && Conversation.Logged(version, History(c0, inputs[..|log|]), log)
            && (goesOn <==> After(c0, inputs[..|log|]).status == Running)
    ensures goesOn ==> |log| == |inputs| && server != null && server.db.Valid() && server.db.file == file
    ensures goesOn ==> server.db.View() == After(Started(listener, version, st), inputs).store && server.db.View().disk == file.data
    ensures var c0 := Started(listener, version, st);
            Conversation.RoomKept(c0, inputs) && FollowProtocol(version, History(c0, inputs), sent) ==>
            goesOn && |log| == |inputs| && Conversation.AllSatisfied(c0, inputs, log, os, sent)
  {
    ghost var c0 := Started(listener, version, st);
    ghost var repr, repr';
    server, repr := Start(file, prior, listener, version);
    goesOn, log, repr' := server.Run(inputs, c0, repr);
    os := Conversation.SatisfiedInTheEnd(c0, inputs, log, sent);
  }
}
