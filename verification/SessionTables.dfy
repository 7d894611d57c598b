/**
 The per-connection tables and the session table as values: what one RTSP request over TCP does
 to them, and what every run of requests keeps.
 */
module SessionTables {
  import opened Bytes

  // ----- Session ids -----

  function HexDigit(d: nat): char
    requires d < 16
  {
    if d < 10 then '0' + d as char else 'a' + (d - 10) as char
  }

  /** Two lower-case hexadecimal digits per octet. */
  function HexOctet(b: byte): (s: string)
    ensures |s| == 2
  {
    [HexDigit(b / 16), HexDigit(b % 16)]
  }

  function Hex(bytes: seq<byte>): (s: string)
    ensures |s| == 2 * |bytes|
  {
    if bytes == [] then "" else Hex(bytes[..|bytes| - 1]) + HexOctet(bytes[|bytes| - 1])
  }

  const HEX_DIGITS := "0123456789abcdef"

  lemma HexOctetDigits(b: byte)
    ensures HexOctet(b) == [HEX_DIGITS[b / 16], HEX_DIGITS[b % 16]]
  {
    DigitOf(b / 16);
    DigitOf(b % 16);
  }

  lemma DigitOf(d: nat)
    requires d < 16
    ensures HexDigit(d) == HEX_DIGITS[d]
  {}

  /** Octet i takes characters 2i and 2i + 1 of the id, as base-16 digits, the high one first. */
  lemma {:induction false} HexAt(bytes: seq<byte>, i: nat)
    requires i < |bytes|
    ensures Hex(bytes)[2 * i] == HEX_DIGITS[bytes[i] / 16] && Hex(bytes)[2 * i + 1] == HEX_DIGITS[bytes[i] % 16]
  {
    hide HexOctet;
    var n := |bytes| - 1;
    if i < n {
      HexAt(bytes[..n], i);
    } else {
      HexOctetDigits(bytes[n]);
    }
  }

  lemma HexOctetInjective(a: byte, b: byte)
    requires HexOctet(a) == HexOctet(b)
    ensures a == b
  {
    var s, t := HexOctet(a), HexOctet(b);
    assert s[0] == t[0] && s[1] == t[1];
    Euclid(a, 16);
    Euclid(b, 16);
  }

  lemma {:induction false} HexInjective(a: seq<byte>, b: seq<byte>)
    requires Hex(a) == Hex(b)
    ensures a == b
    decreases |a|
  {
    hide HexOctet;
    if a != [] {
      var n := |a| - 1;
      var s := Hex(a);
      assert s[..2 * n] == Hex(a[..n]) && s[2 * n..] == HexOctet(a[n]);
      assert s[..2 * n] == Hex(b[..n]) && s[2 * n..] == HexOctet(b[n]);
      HexInjective(a[..n], b[..n]);
      HexOctetInjective(a[n], b[n]);
      assert a == a[..n] + [a[n]] && b == b[..n] + [b[n]];
    }
  }

  // ----- Tables and requests -----

  datatype Status = NONE | PLAYING | PAUSED | TORN_DOWN

  /** A session: its connection, its state, and the tracks set up. */
  datatype SessionValue = SessionValue(clientFd: int, state: Status, info: set<string>)

  datatype Tables = Tables(avFlags: map<int, bool>, avSessionIds: map<int, string>, sessions: map<string, SessionValue>)

  datatype Verb = Options | Describe | Setup | Play | Pause | Teardown | Unsupported

  /**
   A parsed request. track is Some(false) if the request line names track0 and Some(true) if it
   names track1; session is the Session header; random is what the random device would yield; and
   garbage is what the state field of a new session happens to hold, since the constructor of
   Session assigns its parameter instead of the field.
   */
  datatype Request = Request(clientFd: int, verb: Verb, track: Option<bool>, session: Option<string>,
                             random: seq<byte>, garbage: Status)

  datatype Reply = Ok | InternalServerError | NotImplemented

  /**
   What a request leads to; streams says whether both files are sent. Crash: a null dereference,
   behind the reply or in front of it.
   */
  datatype Outcome = Done(reply: Reply, streams: bool) | Crash(replied: Option<Reply>)

  function Flag(t: Tables, fd: int): bool {
    fd in t.avFlags && t.avFlags[fd]
  }

  function StoredId(t: Tables, fd: int): string {
    if fd in t.avSessionIds then t.avSessionIds[fd] else ""
  }

  /** The request line is read before anything else and may switch the connection's track. */
  function ReadTrack(t: Tables, r: Request): Tables {
    if r.track.Some? then t.(avFlags := t.avFlags[r.clientFd := r.track.value]) else t
  }

  function GivenSession(r: Request): string {
    if r.session.Some? then r.session.value else ""
  }

  /** SETUP of the first track: a new session under a new id. */
  function SetupVideo(t: Tables, r: Request): Tables {
    var id := Hex(r.random);
    t.(avFlags := t.avFlags[r.clientFd := false],
       avSessionIds := t.avSessionIds[r.clientFd := id],
       sessions := t.sessions[id := SessionValue(r.clientFd, r.garbage, {"video"})])
  }

  /** SETUP of the second track: it joins the connection's session, which had better be there. */
  function SetupAudio(t: Tables, r: Request): Tables {
    var id := StoredId(t, r.clientFd);
    var t' := t.(avSessionIds := t.avSessionIds[r.clientFd := id]);
    if id in t.sessions then t'.(sessions := t.sessions[id := t.sessions[id].(info := t.sessions[id].info + {"audio"})])
    else t'
  }

  /** After the reply: look the named session up, without a null check, and stream if it is playing. */
  function Finish(t: Tables, session: string, reply: Reply): Outcome {
    if session == "" then Done(reply, false)
    else if session !in t.sessions then Crash(Some(reply))
    else Done(reply, t.sessions[session].state == PLAYING)
  }

  /** The session the handler works with when it builds the reply, and the reply; None: a null dereference. */
  function Dispatch(t: Tables, r: Request): (Tables, string, Option<Reply>) {
    var given := GivenSession(r);
    match r.verb
    case Setup =>
      if !Flag(t, r.clientFd) then (SetupVideo(t, r), Hex(r.random), Some(Ok))
      else
        var id := StoredId(t, r.clientFd);
        (SetupAudio(t, r), id, if id in t.sessions then Some(Ok) else None)
    case Play => (SetPlaying(t, given), given, Some(if given in t.sessions then Ok else InternalServerError))
    case Unsupported => (t, given, Some(NotImplemented))
    case _ => (t, given, Some(Ok))
  }

  function SetPlaying(t: Tables, id: string): Tables {
    if id in t.sessions then t.(sessions := t.sessions[id := t.sessions[id].(state := PLAYING)]) else t
  }

  function Handle(t: Tables, r: Request): (Tables, Outcome) {
    var (t', session, reply) := Dispatch(ReadTrack(t, r), r);
    (t', if reply.None? then Crash(None) else Finish(t', session, reply.value))
  }

  // ----- What every request keeps -----

  /** The stored id names a session of this very connection, with its video track set up. */
  predicate Owns(t: Tables, fd: int, id: string) {
    id in t.sessions && t.sessions[id].clientFd == fd && "video" in t.sessions[id].info
  }

  ghost predicate TablesInv(t: Tables, used: set<seq<byte>>) {
    && (forall fd :: fd in t.avSessionIds ==> t.avSessionIds[fd] == "" || Owns(t, fd, t.avSessionIds[fd]))
    && (forall id :: id in t.sessions ==> exists b :: b in used && |b| > 0 && id == Hex(b))
  }

  /** Two connections never hold the same session. */
  lemma IdsDistinct(t: Tables, used: set<seq<byte>>, fd: int, fd': int)
    requires TablesInv(t, used)
    requires StoredId(t, fd) != "" && StoredId(t, fd) == StoredId(t, fd')
    ensures fd == fd'
  {}

  /** A random string not drawn before gives an id no session has. */
  lemma FreshId(t: Tables, used: set<seq<byte>>, b: seq<byte>)
    requires TablesInv(t, used) && b !in used
    ensures Hex(b) !in t.sessions
  {
    if Hex(b) in t.sessions {
      var c :| c in used && |c| > 0 && Hex(b) == Hex(c);
      HexInjective(b, c);
    }
  }

  lemma SetupVideoInv(t: Tables, used: set<seq<byte>>, r: Request)
    requires TablesInv(t, used) && |r.random| > 0 && r.random !in used
    ensures TablesInv(SetupVideo(t, r), used + {r.random})
  {
    FreshId(t, used, r.random);
    var t' := SetupVideo(t, r);
    forall fd | fd in t'.avSessionIds
      ensures t'.avSessionIds[fd] == "" || Owns(t', fd, t'.avSessionIds[fd])
    {
      if fd != r.clientFd && t.avSessionIds[fd] != "" {
        assert Owns(t, fd, t.avSessionIds[fd]);
      }
    }
    forall id | id in t'.sessions
      ensures exists b :: b in used + {r.random} && |b| > 0 && id == Hex(b)
    {
      if id in t.sessions {
        var b :| b in used && |b| > 0 && id == Hex(b);
        assert b in used + {r.random};
      } else {
        assert r.random in used + {r.random};
      }
    }
  }

  lemma UpdateInv(t: Tables, used: set<seq<byte>>, t': Tables)
    requires TablesInv(t, used)
    requires t'.sessions.Keys == t.sessions.Keys
    requires forall id :: id in t.sessions ==>
      t'.sessions[id].clientFd == t.sessions[id].clientFd && t.sessions[id].info <= t'.sessions[id].info
    requires forall fd :: fd in t'.avSessionIds ==> t'.avSessionIds[fd] == StoredId(t, fd)
    ensures TablesInv(t', used)
  {}

  /** Every request, on any connection and whatever it carries, keeps the tables consistent. */
  lemma HandleInv(t: Tables, used: set<seq<byte>>, r: Request)
    requires TablesInv(t, used) && |r.random| > 0 && r.random !in used
    ensures TablesInv(Handle(t, r).0, used + {r.random})
  {
    hide Hex, TablesInv;
    var t1 := ReadTrack(t, r);
    UpdateInv(t, used, t1);
    if r.verb == Setup && !Flag(t1, r.clientFd) {
      SetupVideoInv(t1, used, r);
    } else {
      UpdateInv(t1, used, Handle(t, r).0);
      MoreUsed(Handle(t, r).0, used, r.random);
    }
  }

  lemma MoreUsed(t: Tables, used: set<seq<byte>>, b: seq<byte>)
    requires TablesInv(t, used)
    ensures TablesInv(t, used + {b})
  {}

  // ----- Single requests -----

  /** SETUP is about the second track: the request names it, or names none and its connection is on it. */
  predicate AboutSecond(t: Tables, r: Request) {
    r.track == Some(true) || (r.track.None? && r.clientFd in t.avFlags && t.avFlags[r.clientFd])
  }

  /**
   The requests that make the handler dereference null, exactly: a SETUP of the second track on a
   connection without a session, or any other request that names a session there is not.
   */
  lemma CrashExactly(t: Tables, used: set<seq<byte>>, r: Request)
    requires TablesInv(t, used) && |r.random| > 0
    ensures Handle(t, r).1.Crash? <==>
      if r.verb == Setup then AboutSecond(t, r) && StoredId(t, r.clientFd) == ""
      else r.session.Some? && r.session.value != "" && r.session.value !in t.sessions
  {}

  /** Without a session on the connection, setting up the second track dereferences null. */
  lemma SecondTrackFirst(r: Request)
    requires r.verb == Setup && r.track == Some(true)
    ensures Handle(EMPTY_TABLES, r).1 == Crash(None)
  {}

  /** So does any other request that names a session where there is none, behind its reply. */
  lemma UnknownSession()
    ensures Handle(EMPTY_TABLES, Request(7, Options, None, Some("0a"), [1], NONE)).1 == Crash(Some(Ok))
  {}

  /** Whatever the tables, SETUP of the first track replies and sets up a session with the video track. */
  lemma FirstTrack(t: Tables, r: Request)
    requires r.verb == Setup && r.track == Some(false) && |r.random| > 0
    ensures
      var (t', outcome) := Handle(t, r);
      && outcome == Done(Ok, r.garbage == PLAYING)
      && t'.avFlags == t.avFlags[r.clientFd := false]
      && t'.avSessionIds == t.avSessionIds[r.clientFd := Hex(r.random)]
      && t'.sessions == t.sessions[Hex(r.random) := SessionValue(r.clientFd, r.garbage, {"video"})]
  {
    var flags := t.avFlags[r.clientFd := false];
    assert flags[r.clientFd := false] == flags;
  }

  /** What one request does to the table of tracks and to the stored ids. */
  lemma ConnectionStep(t: Tables, r: Request, fd: int)
    ensures
      var t', mine := Handle(t, r).0, fd == r.clientFd;
      && Flag(t', fd) == (if mine && r.track.Some? then r.track.value else Flag(t, fd))
      && StoredId(t', fd)
         == if mine && r.verb == Setup && !AboutSecond(t, r) then Hex(r.random) else StoredId(t, fd)
  {
    hide Hex;
  }

  predicate Joins(t: Tables, r: Request, id: string) {
    r.verb == Setup && AboutSecond(t, r) && StoredId(t, r.clientFd) == id
  }

  lemma SetupStep(t: Tables, r: Request, id: string)
    requires r.verb == Setup && id in t.sessions && id != Hex(r.random)
    ensures
      var t' := Handle(t, r).0;
      && id in t'.sessions
      && t'.sessions[id]
         == t.sessions[id].(info := t.sessions[id].info + if Joins(t, r, id) then {"audio"} else {})
  {
    hide Hex, GivenSession, SetPlaying, Finish;
    assert t.sessions[id].info + {} == t.sessions[id].info;
  }

  /**
   What one request does to a session: a PLAY naming it lets it play, a SETUP of the second track on
   the connection that stores it adds the audio track, and nothing else changes it.
   */
  lemma SessionStep(t: Tables, used: set<seq<byte>>, r: Request, id: string)
    requires TablesInv(t, used) && r.random !in used && id in t.sessions
    ensures
      var t', s := Handle(t, r).0, t.sessions[id];
      && id in t'.sessions
      && t'.sessions[id] == SessionValue(
           s.clientFd,
           if r.verb == Play && r.session == Some(id) then PLAYING else s.state,
           s.info + if Joins(t, r, id) then {"audio"} else {})
  {
    FreshId(ReadTrack(t, r), used, r.random) by {
      hide Hex;
      UpdateInv(t, used, ReadTrack(t, r));
    }
    NoEmptyId(t, used);
    hide Hex, TablesInv;
    assert t.sessions[id].info + {} == t.sessions[id].info;
    if r.verb == Setup {
      hide GivenSession, SetPlaying, Finish;
      SetupStep(t, r, id);
    } else {
      hide SetupVideo, SetupAudio;
    }
  }

  /** A session comes into being only under the new id of a SETUP of the first track. */
  lemma SessionStart(t: Tables, r: Request, id: string)
    requires id !in t.sessions
    ensures
      var t', new' := Handle(t, r).0, r.verb == Setup && !AboutSecond(t, r) && id == Hex(r.random);
      && (id in t'.sessions <==> new')
      && (new' ==> t'.sessions[id] == SessionValue(r.clientFd, r.garbage, {"video"}))
  {
    hide Hex;
  }

  /** A new session starts out with the video track alone, whatever was there before. */
  lemma SessionBorn(t: Tables, r: Request)
    requires r.verb == Setup && !AboutSecond(t, r)
    ensures
      var t' := Handle(t, r).0;
      Hex(r.random) in t'.sessions && t'.sessions[Hex(r.random)] == SessionValue(r.clientFd, r.garbage, {"video"})
  {
    hide Hex;
  }

  lemma NoEmptyId(t: Tables, used: set<seq<byte>>)
    requires TablesInv(t, used)
    ensures "" !in t.sessions
  {}

  // ----- Runs -----

  const EMPTY_TABLES := Tables(map[], map[], map[])

  function Run(requests: seq<Request>): Tables {
    if requests == [] then EMPTY_TABLES
    else Handle(Run(requests[..|requests| - 1]), requests[|requests| - 1]).0
  }

  function Drawn(requests: seq<Request>): set<seq<byte>> {
    if requests == [] then {} else Drawn(requests[..|requests| - 1]) + {requests[|requests| - 1].random}
  }

  /** The random device never repeats itself. */
  predicate NeverRepeats(requests: seq<Request>) {
    && (forall i :: 0 <= i < |requests| ==> |requests[i].random| > 0)
    && forall i, j :: 0 <= i < j < |requests| ==> requests[i].random != requests[j].random
  }

  lemma {:induction false} DrawnMeaning(requests: seq<Request>, b: seq<byte>)
    ensures b in Drawn(requests) <==> exists i :: 0 <= i < |requests| && requests[i].random == b
  {
    if requests != [] {
      var n := |requests| - 1;
      DrawnMeaning(requests[..n], b);
      if b in Drawn(requests[..n]) {
        var i :| 0 <= i < n && requests[..n][i].random == b;
        assert requests[i].random == b;
      } else if exists i :: 0 <= i < n && requests[i].random == b {
        var i :| 0 <= i < n && requests[i].random == b;
        assert requests[..n][i].random == b;
      }
    }
  }

  lemma {:induction false} RunInv(requests: seq<Request>)
    requires NeverRepeats(requests)
    ensures TablesInv(Run(requests), Drawn(requests))
  {
    hide Hex, Handle;
    if requests != [] {
      var n := |requests| - 1;
      RunInv(requests[..n]);
      DrawnMeaning(requests[..n], requests[n].random);
      HandleInv(Run(requests[..n]), Drawn(requests[..n]), requests[n]);
    }
  }

  /**
   After every run: each connection's stored id is empty or names an existing session of that
   connection with its video track set up, and no two connections share one.
   */
  lemma RunOwnership(requests: seq<Request>, fd: int, fd': int)
    requires NeverRepeats(requests)
    ensures
      var t := Run(requests);
      && (StoredId(t, fd) == "" || Owns(t, fd, StoredId(t, fd)))
      && (StoredId(t, fd) != "" && fd != fd' ==> StoredId(t, fd) != StoredId(t, fd'))
  {
    hide Hex;
    RunInv(requests);
    if StoredId(Run(requests), fd) != "" && StoredId(Run(requests), fd) == StoredId(Run(requests), fd') {
      IdsDistinct(Run(requests), Drawn(requests), fd, fd');
    }
  }

  // ----- The tables, read off the requests so far -----

  /** The last of the connection's requests to name a track named the second one. */
  ghost predicate OnSecondTrack(requests: seq<Request>, fd: int) {
    exists k :: 0 <= k < |requests| && requests[k].clientFd == fd && requests[k].track == Some(true)
      && forall j :: k < j < |requests| && requests[j].clientFd == fd ==> requests[j].track.None?
  }

  lemma OnSecondTrackStep(requests: seq<Request>, fd: int)
    requires requests != []
    ensures
      var n := |requests| - 1;
      OnSecondTrack(requests, fd)
      == if requests[n].clientFd == fd && requests[n].track.Some? then requests[n].track.value
         else OnSecondTrack(requests[..n], fd)
  {
    var n := |requests| - 1;
    var front := requests[..n];
    if requests[n].clientFd == fd && requests[n].track == Some(true) {
      assert requests[n].clientFd == fd;
    } else if OnSecondTrack(front, fd) {
      var k :| 0 <= k < n && front[k].clientFd == fd && front[k].track == Some(true)
        && forall j :: k < j < n && front[j].clientFd == fd ==> front[j].track.None?;
      assert requests[k].clientFd == fd && requests[k].track == Some(true);
      assert forall j :: k < j < n ==> front[j] == requests[j];
    }
  }

  /** Request k is the SETUP of a first track that creates the session with this id. */
  ghost predicate Creates(requests: seq<Request>, k: nat, id: string)
    requires k < |requests|
  {
    requests[k].verb == Setup && Hex(requests[k].random) == id
      && !OnSecondTrack(requests[..k + 1], requests[k].clientFd)
  }

  /** The session the connection set up last, or none. */
  ghost function IdOf(requests: seq<Request>, fd: int): string {
    if requests == [] then ""
    else
      var n := |requests| - 1;
      if requests[n].clientFd == fd && Creates(requests, n, Hex(requests[n].random)) then Hex(requests[n].random)
      else IdOf(requests[..n], fd)
  }

  /** After every run a connection is on the track its requests named last, and stores the id it set up last. */
  lemma {:induction false} ConnectionOverRun(requests: seq<Request>, fd: int)
    ensures Flag(Run(requests), fd) == OnSecondTrack(requests, fd)
    ensures StoredId(Run(requests), fd) == IdOf(requests, fd)
  {
    hide Hex, Handle, OnSecondTrack;
    if requests == [] {
      assert !OnSecondTrack([], fd) by { NoTrack(fd); }
    } else {
      var n := |requests| - 1;
      var r := requests[n];
      ConnectionOverRun(requests[..n], fd);
      OnSecondTrackStep(requests, fd);
      ConnectionStep(Run(requests[..n]), r, fd);
      assert requests[..n + 1] == requests;
    }
  }

  lemma NoTrack(fd: int)
    ensures !OnSecondTrack([], fd)
  {}

  /** The track the handler takes a SETUP to be about is the one the connection named last. */
  lemma AboutSecondInRun(requests: seq<Request>, k: nat)
    requires k < |requests|
    ensures AboutSecond(Run(requests[..k]), requests[k]) == OnSecondTrack(requests[..k + 1], requests[k].clientFd)
  {
    hide Hex, Handle, OnSecondTrack, Run;
    var now := requests[..k + 1];
    assert now[..k] == requests[..k];
    OnSecondTrackStep(now, requests[k].clientFd);
    ConnectionOverRun(requests[..k], requests[k].clientFd);
  }

  predicate Plays(requests: seq<Request>, from: nat, id: string) {
    exists j :: from <= j < |requests| && requests[j].verb == Play && requests[j].session == Some(id)
  }

  /** Request j is the SETUP of a second track on a connection whose session this is. */
  ghost predicate JoinedBy(requests: seq<Request>, j: nat, id: string)
    requires j < |requests|
  {
    requests[j].verb == Setup && OnSecondTrack(requests[..j + 1], requests[j].clientFd)
      && IdOf(requests[..j], requests[j].clientFd) == id
  }

  ghost predicate Joined(requests: seq<Request>, from: nat, id: string) {
    exists j :: from <= j < |requests| && JoinedBy(requests, j, id)
  }

  lemma OneMoreRequest(requests: seq<Request>, from: nat, id: string)
    requires from < |requests|
    ensures
      var n := |requests| - 1;
      && (Plays(requests, from, id) <==>
          (Plays(requests[..n], from, id) || (requests[n].verb == Play && requests[n].session == Some(id))))
      && (Joined(requests, from, id) <==> (Joined(requests[..n], from, id) || JoinedBy(requests, n, id)))
  {
    hide OnSecondTrack, IdOf;
    var n := |requests| - 1;
    forall j | 0 <= j < n
      ensures JoinedBy(requests, j, id) == JoinedBy(requests[..n], j, id)
    {
      assert requests[..n][..j + 1] == requests[..j + 1] && requests[..n][..j] == requests[..j];
    }
    if Joined(requests[..n], from, id) {
      var j :| from <= j < n && JoinedBy(requests[..n], j, id);
      assert JoinedBy(requests, j, id);
    }
  }

  /**
   A session over a run: from the request that created it on it belongs to that connection, is
   PLAYING if some later PLAY named it and otherwise in whatever state its memory held at birth, and
   has the audio track if its connection set up a second track while it was the connection's.
   */
  lemma {:induction false} SessionOverRun(requests: seq<Request>, k: nat, id: string)
    requires NeverRepeats(requests) && k < |requests| && Creates(requests, k, id)
    ensures
      var t := Run(requests);
      && id in t.sessions
      && t.sessions[id] == SessionValue(
           requests[k].clientFd,
           if Plays(requests, k + 1, id) then PLAYING else requests[k].garbage,
           {"video"} + if Joined(requests, k + 1, id) then {"audio"} else {})
    decreases |requests|
  {
    hide Hex, TablesInv, OnSecondTrack, IdOf, Handle;
    var n := |requests| - 1;
    var front, r := requests[..n], requests[n];
    AboutSecondInRun(requests, n);
    if k == n {
      SessionBorn(Run(front), r);
      assert {"video"} + {} == {"video"};
    } else {
      assert front[..k + 1] == requests[..k + 1];
      SessionOverRun(front, k, id);
      RunInv(front);
      DrawnMeaning(front, r.random);
      ConnectionOverRun(front, r.clientFd);
      SessionStep(Run(front), Drawn(front), r, id);
      OneMoreRequest(requests, k + 1, id);
      AudioOnce(Run(front).sessions[id].info, Joined(front, k + 1, id), JoinedBy(requests, n, id));
    }
  }

  lemma AudioOnce(info: set<string>, before: bool, now: bool)
    requires info == {"video"} + if before then {"audio"} else {}
    ensures info + (if now then {"audio"} else {}) == {"video"} + if before || now then {"audio"} else {}
  {}

  ghost predicate Known(requests: seq<Request>, id: string) {
    exists k :: 0 <= k < |requests| && Creates(requests, k, id)
  }

  /** Every session there is was created by some request of the run. */
  lemma {:induction false} SessionCreated(requests: seq<Request>, id: string)
    requires id in Run(requests).sessions
    ensures Known(requests, id)
    decreases |requests|
  {
    hide Hex, OnSecondTrack, Handle;
    var n := |requests| - 1;
    var front := requests[..n];
    if id in Run(front).sessions {
      SessionCreated(front, id);
      var k :| 0 <= k < n && Creates(front, k, id);
      assert front[..k + 1] == requests[..k + 1];
      assert Creates(requests, k, id);
    } else {
      SessionStart(Run(front), requests[n], id);
      AboutSecondInRun(requests, n);
      assert Creates(requests, n, id);
    }
  }

  /** Some request of the run created the session, and it was played since or born playing. */
  ghost predicate Playable(requests: seq<Request>, id: string) {
    exists k :: 0 <= k < |requests| && Creates(requests, k, id)
      && (Plays(requests, k + 1, id) || requests[k].garbage == PLAYING)
  }

  lemma SessionsOfRun(requests: seq<Request>, id: string)
    requires NeverRepeats(requests)
    ensures id in Run(requests).sessions <==> Known(requests, id)
    ensures id in Run(requests).sessions ==> (Run(requests).sessions[id].state == PLAYING <==> Playable(requests, id))
    ensures "" !in Run(requests).sessions
  {
    hide Run, TablesInv, Plays, Creates, NeverRepeats, Joined;
    forall k | 0 <= k < |requests| && Creates(requests, k, id)
      ensures
        id in Run(requests).sessions
        && Run(requests).sessions[id].state == if Plays(requests, k + 1, id) then PLAYING else requests[k].garbage
    {
      SessionOverRun(requests, k, id);
    }
    if id in Run(requests).sessions {
      SessionCreated(requests, id);
    }
    RunInv(requests);
    NoEmptyId(Run(requests), Drawn(requests));
  }

  /** The session the last request is about: its connection's for a SETUP, else the one it names. */
  ghost function Concerned(requests: seq<Request>): string
    requires requests != []
  {
    var r := requests[|requests| - 1];
    if r.verb == Setup then IdOf(requests, r.clientFd) else if r.session.Some? then r.session.value else ""
  }

  /** What the last request leads to, read off the requests alone. */
  ghost function Expected(requests: seq<Request>): Outcome
    requires requests != []
  {
    var r, id := requests[|requests| - 1], Concerned(requests);
    var reply :=
      if r.verb == Unsupported then NotImplemented
      else if r.verb == Play && !Known(requests, id) then InternalServerError
      else Ok;
    if id == "" then (if r.verb == Setup then Crash(None) else Done(reply, false))
    else if !Known(requests, id) then Crash(Some(reply))
    else Done(reply, Playable(requests, id))
  }

  lemma OutcomeStep(t: Tables, r: Request)
    requires r.verb == Setup && !AboutSecond(t, r) ==> |r.random| > 0
    requires r.verb == Setup && StoredId(t, r.clientFd) != "" ==> StoredId(t, r.clientFd) in t.sessions
    requires "" !in t.sessions
    ensures
      var (t', outcome) := Handle(t, r);
      var id :=
        if r.verb == Setup then StoredId(t', r.clientFd) else if r.session.Some? then r.session.value else "";
      var reply :=
        if r.verb == Unsupported then NotImplemented
        else if r.verb == Play && id !in t'.sessions then InternalServerError
        else Ok;
      outcome ==
        if id == "" then (if r.verb == Setup then Crash(None) else Done(reply, false))
        else if id !in t'.sessions then Crash(Some(reply))
        else Done(reply, t'.sessions[id].state == PLAYING)
  {}

  lemma StoredExists(t: Tables, used: set<seq<byte>>, fd: int)
    requires TablesInv(t, used) && StoredId(t, fd) != ""
    ensures StoredId(t, fd) in t.sessions
  {}

  /** Reply, crash and streaming after every run of requests are what the requests alone say. */
  lemma OutcomeOverRun(requests: seq<Request>, r: Request)
    requires NeverRepeats(requests + [r])
    ensures Handle(Run(requests), r).1 == Expected(requests + [r])
  {
    hide Hex, Handle, Known, Playable, TablesInv, IdOf, NeverRepeats, StoredId;
    var all, t := requests + [r], Run(requests);
    assert all[..|all| - 1] == requests;
    assert |r.random| > 0 && NeverRepeats(requests) by { FrontNeverRepeats(all); }
    RunInv(requests);
    NoEmptyId(t, Drawn(requests));
    if StoredId(t, r.clientFd) != "" {
      StoredExists(t, Drawn(requests), r.clientFd);
    }
    OutcomeStep(t, r);
    ConnectionOverRun(all, r.clientFd);
    SessionsOfRun(all, Concerned(all));
  }

  lemma FrontNeverRepeats(requests: seq<Request>)
    requires NeverRepeats(requests) && requests != []
    ensures NeverRepeats(requests[..|requests| - 1]) && |requests[|requests| - 1].random| > 0
  {}

  lemma {:induction false} IdKept(requests: seq<Request>, k: nat, fd: int)
    requires k < |requests| && requests[k].clientFd == fd && Creates(requests, k, Hex(requests[k].random))
    requires forall j :: k < j < |requests| && requests[j].clientFd == fd ==> requests[j].verb != Setup
    ensures IdOf(requests, fd) == Hex(requests[k].random)
  {
    hide Hex, OnSecondTrack;
    var n := |requests| - 1;
    if k < n {
      assert requests[..n][..k + 1] == requests[..k + 1];
      IdKept(requests[..n], k, fd);
    }
  }

  /** With a SETUP of the first track as request k, and one of the second track now, the two concern one session. */
  lemma SecondJoins(requests: seq<Request>, k: nat)
    requires requests != [] && k < |requests| - 1
    requires requests[k].verb == Setup && requests[k].track == Some(false)
    requires
      var r := requests[|requests| - 1];
      && r.verb == Setup && r.track == Some(true) && r.clientFd == requests[k].clientFd
      && forall j :: k < j < |requests| - 1 && requests[j].clientFd == r.clientFd ==> requests[j].verb != Setup
    ensures
      var id := Hex(requests[k].random);
      Creates(requests, k, id) && Concerned(requests) == id && Joined(requests, k + 1, id)
  {
    hide Hex, OnSecondTrack;
    var n, id, fd := |requests| - 1, Hex(requests[k].random), requests[k].clientFd;
    var front := requests[..n];
    OnSecondTrackStep(requests[..k + 1], fd);
    assert front[..k + 1] == requests[..k + 1];
    IdKept(front, k, fd);
    assert requests[..n + 1] == requests;
    OnSecondTrackStep(requests, fd);
    assert JoinedBy(requests, n, id);
  }

  /**
   The usual exchange: a connection sets up the first track, then the second. Whatever other
   connections do and whatever else it sends between, the second SETUP succeeds and the session has
   both tracks.
   */
  lemma BothTracks(requests: seq<Request>, k: nat, r: Request)
    requires k < |requests| && requests[k].verb == Setup && requests[k].track == Some(false)
    requires r.verb == Setup && r.track == Some(true) && r.clientFd == requests[k].clientFd
    requires forall j :: k < j < |requests| && requests[j].clientFd == r.clientFd ==> requests[j].verb != Setup
    requires NeverRepeats(requests + [r])
    ensures
      var (t, outcome), id := Handle(Run(requests), r), Hex(requests[k].random);
      && outcome.Done? && outcome.reply == Ok
      && id in t.sessions && t.sessions[id].clientFd == r.clientFd && t.sessions[id].info == {"video", "audio"}
  {
    hide Hex, Handle, Playable, NeverRepeats, Creates, Joined, Plays, Concerned;
    var all, id := requests + [r], Hex(requests[k].random);
    assert all[..|all| - 1] == requests;
    SecondJoins(all, k);
    SessionOverRun(all, k, id);
    SessionsOfRun(all, id);
    OutcomeOverRun(requests, r);
    assert {"video"} + {"audio"} == {"video", "audio"};
  }
}
