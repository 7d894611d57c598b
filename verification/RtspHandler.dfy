/** The session objects, the two shared tables and the request handler that updates them in place. */
module RtspHandler {
  import opened Bytes
  import opened SessionTables

  class Session {
    var clientFd: int
    var state: Status
    var info: set<string>

    /** The constructor leaves state as the memory held it. */
    constructor (clientFd: int, garbage: Status)
      ensures View() == SessionValue(clientFd, garbage, {})
    {
      this.clientFd := clientFd;
      this.state := garbage;
      this.info := {};
    }

    function View(): SessionValue
      reads this
    {
      SessionValue(clientFd, state, info)
    }

    method SetState(state: Status)
      modifies this
      ensures View() == old(View()).(state := state)
    {
      this.state := state;
    }

    method SetInfo(track: string)
      modifies this
      ensures View() == old(View()).(info := old(info) + {track})
    {
      info := info + {track};
    }
  }

  class SessionManager {
    var sessions: map<string, Session>

    /** No two ids share a session object. */
    ghost predicate Valid()
      reads this
    {
      forall id, id' :: id in sessions && id' in sessions && id != id' ==> sessions[id] != sessions[id']
    }

    ghost function View(): map<string, SessionValue>
      reads this, sessions.Values
    {
      map id | id in sessions :: sessions[id].View()
    }

    constructor ()
      ensures Valid() && View() == map[]
    {
      sessions := map[];
    }

    method AddSession(id: string, session: Session)
      requires Valid() && session !in sessions.Values
      modifies this
      ensures Valid() && sessions == old(sessions)[id := session]
      ensures View() == old(View())[id := session.View()]
    {
      assert forall i :: i in sessions ==> sessions[i] in sessions.Values;
      sessions := sessions[id := session];
    }

    method GetSession(id: string) returns (session: Session?)
      ensures session == if id in sessions then sessions[id] else null
    {
      session := if id in sessions then sessions[id] else null;
    }

    /** Look a session up and add a track to it; no other session changes. */
    method AddTrack(id: string, track: string) returns (found: bool)
      requires Valid()
      modifies sessions.Values
      ensures Valid() && (found <==> id in sessions)
      ensures View() ==
        if found then old(View())[id := old(View())[id].(info := old(View())[id].info + {track})] else old(View())
    {
      var session := GetSession(id);
      if session == null {
        return false;
      }
      session.SetInfo(track);
      found := true;
    }

    /** Look a session up and set its state; no other session changes. */
    method SetState(id: string, state: Status) returns (found: bool)
      requires Valid()
      modifies sessions.Values
      ensures Valid() && (found <==> id in sessions)
      ensures View() == if found then old(View())[id := old(View())[id].(state := state)] else old(View())
    {
      var session := GetSession(id);
      if session == null {
        return false;
      }
      session.SetState(state);
      found := true;
    }

    method DeleteSession(id: string)
      requires Valid()
      modifies this
      ensures Valid() && View() == old(View()) - {id}
    {
      sessions := sessions - {id};
    }
  }

  class ClientFdManager {
    var avFlags: map<int, bool>
    var avSessionIds: map<int, string>

    constructor ()
      ensures avFlags == map[] && avSessionIds == map[]
    {
      avFlags, avSessionIds := map[], map[];
    }

    method SetAvFlags(fd: int, flag: bool)
      modifies this`avFlags
      ensures avFlags == old(avFlags)[fd := flag]
    {
      avFlags := avFlags[fd := flag];
    }

    /** Reading a missing flag creates it as false. */
    method GetAvFlags(fd: int) returns (flag: bool)
      modifies this`avFlags
      ensures flag == (fd in old(avFlags) && old(avFlags)[fd]) && avFlags == old(avFlags)[fd := flag]
    {
      flag := fd in avFlags && avFlags[fd];
      avFlags := avFlags[fd := flag];
    }

    method SetSessionIds(fd: int, id: string)
      modifies this`avSessionIds
      ensures avSessionIds == old(avSessionIds)[fd := id]
    {
      avSessionIds := avSessionIds[fd := id];
    }

    /** Reading a missing id creates it as the empty string. */
    method GetSessionIds(fd: int) returns (id: string)
      modifies this`avSessionIds
      ensures id == if fd in old(avSessionIds) then old(avSessionIds)[fd] else ""
      ensures avSessionIds == old(avSessionIds)[fd := id]
    {
      id := if fd in avSessionIds then avSessionIds[fd] else "";
      avSessionIds := avSessionIds[fd := id];
    }
  }

  method BytesToHex(bytes: seq<byte>) returns (s: string)
    ensures s == Hex(bytes)
  {
    s := "";
    for i := 0 to |bytes|
      invariant s == Hex(bytes[..i])
    {
      assert bytes[..i + 1][..i] == bytes[..i];
      s := s + [HexDigit(bytes[i] / 16), HexDigit(bytes[i] % 16)];
    }
    assert bytes[..|bytes|] == bytes;
  }

  /** One handler serves one request; the two managers outlive it. */
  class RtspHandler {
    const sessionManager: SessionManager
    const clientFdManager: ClientFdManager
    var clientFd: int
    var session: string

    constructor (sessionManager: SessionManager, clientFdManager: ClientFdManager)
      ensures this.sessionManager == sessionManager && this.clientFdManager == clientFdManager
      ensures session == ""
    {
      this.sessionManager := sessionManager;
      this.clientFdManager := clientFdManager;
      this.clientFd := 0;
      this.session := "";
    }

    ghost function View(): Tables
      reads sessionManager, sessionManager.sessions.Values, clientFdManager
    {
      Tables(clientFdManager.avFlags, clientFdManager.avSessionIds, sessionManager.View())
    }

    method SetupFirstTrack(r: Request)
      requires sessionManager.Valid() && clientFd == r.clientFd
      requires !Flag(View(), clientFd)
      modifies `session, sessionManager, clientFdManager
      ensures sessionManager.Valid() && session == Hex(r.random)
      ensures fresh(sessionManager.sessions.Values - old(sessionManager.sessions.Values))
      ensures View() == SetupVideo(old(View()), r)
    {
      var flag := clientFdManager.GetAvFlags(clientFd);
      session := BytesToHex(r.random);
      clientFdManager.SetSessionIds(clientFd, session);
      var sess := new Session(clientFd, r.garbage);
      sess.SetInfo("video");
      assert {} + {"video"} == {"video"};
      assert sessionManager.View() == old(sessionManager.View());
      sessionManager.AddSession(session, sess);
    }

    method SetupSecondTrack(r: Request) returns (crashed: bool)
      requires sessionManager.Valid() && clientFd == r.clientFd
      modifies `session, clientFdManager`avSessionIds, sessionManager.sessions.Values
      ensures sessionManager.Valid() && session == StoredId(old(View()), clientFd)
      ensures crashed <==> session !in old(View()).sessions
      ensures View() == SetupAudio(old(View()), r)
    {
      session := clientFdManager.GetSessionIds(clientFd);
      var found := sessionManager.AddTrack(session, "audio");
      crashed := !found;
    }

    method PlaySession() returns (reply: Reply)
      requires sessionManager.Valid()
      modifies sessionManager.sessions.Values
      ensures sessionManager.Valid()
      ensures reply == if session in old(View()).sessions then Ok else InternalServerError
      ensures View() == SetPlaying(old(View()), session)
    {
      var found := sessionManager.SetState(session, PLAYING);
      reply := if found then Ok else InternalServerError;
    }

    method SetupSession(r: Request) returns (crashed: bool)
      requires sessionManager.Valid() && clientFd == r.clientFd && r.verb == Setup
      modifies `session, sessionManager, sessionManager.sessions.Values, clientFdManager
      ensures sessionManager.Valid()
      ensures fresh(sessionManager.sessions.Values - old(sessionManager.sessions.Values))
      ensures (View(), session, if crashed then None else Some(Ok)) == Dispatch(old(View()), r)
    {
      ghost var t := View();
      var flag := clientFdManager.GetAvFlags(clientFd);
      if flag {
        assert View() == t;
        crashed := SetupSecondTrack(r);
      } else {
        assert SetupVideo(View(), r) == SetupVideo(t, r) by {
          assert t.avFlags[clientFd := false][clientFd := false] == t.avFlags[clientFd := false];
        }
        SetupFirstTrack(r);
        crashed := false;
      }
    }

    /** build_string_tcp: the reply to a request whose lines have been read, and what it changes. */
    method BuildReply(r: Request) returns (reply: Option<Reply>)
      requires sessionManager.Valid() && clientFd == r.clientFd && session == GivenSession(r)
      modifies `session, sessionManager, sessionManager.sessions.Values, clientFdManager
      ensures sessionManager.Valid()
      ensures fresh(sessionManager.sessions.Values - old(sessionManager.sessions.Values))
      ensures (View(), session, reply) == Dispatch(old(View()), r)
      ensures r.verb == Play && GivenSession(r) !in old(View()).sessions ==>
        reply == Some(InternalServerError) && View() == old(View())
      ensures r.verb == Unsupported ==> reply == Some(NotImplemented) && View() == old(View())
    {
      reply := Some(Ok);
      match r.verb {
        case Setup =>
          var crashed := SetupSession(r);
          if crashed {
            reply := None;
          }
        case Play =>
          var played := PlaySession();
          reply := Some(played);
        case Unsupported =>
          reply := Some(NotImplemented);
        case _ =>
      }
    }

    /** A request leaves tables and outcome exactly as Handle says. */
    method HandleRequest(r: Request) returns (outcome: Outcome)
      requires sessionManager.Valid() && session == ""
      modifies this, sessionManager, sessionManager.sessions.Values, clientFdManager
      ensures sessionManager.Valid()
      ensures fresh(sessionManager.sessions.Values - old(sessionManager.sessions.Values))
      ensures (View(), outcome) == Handle(old(View()), r)
    {
      hide Dispatch;
      clientFd := r.clientFd;
      if r.track.Some? {
        clientFdManager.SetAvFlags(clientFd, r.track.value);
      }
      if r.session.Some? {
        session := r.session.value;
      }
      assert View() == ReadTrack(old(View()), r);
      var reply := BuildReply(r);
      if reply.None? {
        return Crash(None);
      }
      if session == "" {
        return Done(reply.value, false);
      }
      var ss := sessionManager.GetSession(session);
      if ss == null {
        return Crash(reply);
      }
      outcome := Done(reply.value, ss.state == PLAYING);
    }
  }
}
