/** The RTP/RTCP port-pair allocator. */
module PortPairs {
  import opened Bytes

  const FIRST_PORT := 55000
  const LAST_PORT := 65534

  type DrawnPort = p: int | FIRST_PORT <= p <= LAST_PORT witness FIRST_PORT

  /** What the operating system answers when a port is probed by binding a socket to it. */
  datatype Probe = Free | Busy | NoSocket

  /** One turn of the retry loop: the number drawn and the answers for the two ports it leads to. */
  datatype Draw = Draw(number: DrawnPort, rtp: Probe, rtcp: Probe)

  /** Exhausted: the draws given end before the loop does. */
  datatype Generated = Ports(rtp: uint16, rtcp: uint16) | Threw | Exhausted

  /** Clearing the lowest bit of a drawn port. */
  function Even(n: DrawnPort): DrawnPort {
    n - n % 2
  }

  /** The server clears it with a mask, which is the same for every 16-bit number. */
  lemma EvenMask(n: bv16)
    ensures n & !1 == n - n % 2
  {}

  function Available(taken: set<uint16>, port: uint16, probe: Probe): Probe {
    if port in taken then Busy else probe
  }

  /** The second port is probed only if the first is free. */
  function Check(taken: set<uint16>, d: Draw): Probe {
    var first := Available(taken, Even(d.number), d.rtp);
    if first != Free then first else Available(taken, Even(d.number) + 1, d.rtcp)
  }

  function Generate(taken: set<uint16>, draws: seq<Draw>): Generated {
    if draws == [] then Exhausted
    else match Check(taken, draws[0])
      case Free => Ports(Even(draws[0].number), Even(draws[0].number) + 1)
      case NoSocket => Threw
      case Busy => Generate(taken, draws[1..])
  }

  class PortManager {
    var allocatedPorts: set<uint16>

    constructor ()
      ensures allocatedPorts == {}
    {
      allocatedPorts := {};
    }

    method IsPortAvailable(port: uint16, probe: Probe) returns (answer: Probe)
      ensures answer == Available(allocatedPorts, port, probe)
    {
      if port in allocatedPorts {
        return Busy;
      }
      answer := probe;
    }

    method GeneratePorts(draws: seq<Draw>) returns (result: Generated)
      modifies this
      ensures result == Generate(old(allocatedPorts), draws)
      ensures allocatedPorts
           == old(allocatedPorts) + if result.Ports? then {result.rtp, result.rtcp} else {}
    {
      var i := 0;
      while i < |draws|
        invariant i <= |draws| && allocatedPorts == old(allocatedPorts)
        invariant Generate(allocatedPorts, draws) == Generate(allocatedPorts, draws[i..])
      {
        var rtpPort := draws[i].number - draws[i].number % 2;
        var rtcpPort := rtpPort + 1;
        assert draws[i..][0] == draws[i] && draws[i..][1..] == draws[i + 1..];
        var first := IsPortAvailable(rtpPort, draws[i].rtp);
        if first == NoSocket {
          return Threw;
        }
        if first == Free {
          var second := IsPortAvailable(rtcpPort, draws[i].rtcp);
          if second == NoSocket {
            return Threw;
          }
          if second == Free {
            allocatedPorts := allocatedPorts + {rtpPort};
            allocatedPorts := allocatedPorts + {rtcpPort};
            return Ports(rtpPort, rtcpPort);
          }
        }
        i := i + 1;
      }
      result := Exhausted;
    }

    method ReleasePorts(rtpPort: uint16, rtcpPort: uint16)
      modifies this
      ensures allocatedPorts == old(allocatedPorts) - {rtpPort, rtcpPort}
    {
      allocatedPorts := allocatedPorts - {rtpPort};
      allocatedPorts := allocatedPorts - {rtcpPort};
    }
  }

  // ----- Runs: allocations, and releases of pairs that are live -----

  /** live: the RTP ports of the pairs handed out and not yet released. */
  datatype State = State(taken: set<uint16>, live: set<uint16>)

  datatype Event = Allocate(draws: seq<Draw>) | Release(rtp: uint16)

  function Next(s: State, e: Event): State {
    match e
    case Allocate(draws) =>
      (match Generate(s.taken, draws)
       case Ports(rtp, rtcp) => State(s.taken + {rtp, rtcp}, s.live + {rtp})
       case _ => s)
    case Release(rtp) =>
      if rtp in s.live && rtp < 0xFFFF then State(s.taken - {rtp, rtp + 1}, s.live - {rtp}) else s
  }

  function Run(events: seq<Event>): State {
    if events == [] then State({}, {}) else Next(Run(events[..|events| - 1]), events[|events| - 1])
  }

  predicate RtpPort(p: uint16) {
    p % 2 == 0 && FIRST_PORT <= p <= LAST_PORT
  }

  /** A port of one of the pairs. */
  predicate OfPair(live: set<uint16>, p: uint16) {
    p in live || (p > 0 && p - 1 in live)
  }

  /** Recorded are exactly the live pairs: even RTP ports and their odd successors. */
  ghost predicate Inv(s: State) {
    && (forall p :: p in s.live ==> RtpPort(p))
    && (forall p :: p in s.taken <==> OfPair(s.live, p))
  }

  /** The pair found is new, even below odd, in range, and without 16-bit wrap-around. */
  lemma {:induction false} GenerateFinds(taken: set<uint16>, draws: seq<Draw>)
    ensures Generate(taken, draws).Ports? ==>
      var g := Generate(taken, draws);
      RtpPort(g.rtp) && g.rtcp == g.rtp + 1 && g.rtp !in taken && g.rtcp !in taken
    ensures Generate(taken, draws).Exhausted? <==>
      forall i :: 0 <= i < |draws| ==> Check(taken, draws[i]) == Busy
  {
    if draws != [] {
      GenerateFinds(taken, draws[1..]);
      if Check(taken, draws[0]) == Busy && Generate(taken, draws[1..]).Exhausted? {
        forall i | 0 <= i < |draws|
          ensures Check(taken, draws[i]) == Busy
        {
          if i > 0 {
            assert draws[1..][i - 1] == draws[i];
          }
        }
      } else if Check(taken, draws[0]) == Busy {
        var i :| 0 <= i < |draws[1..]| && Check(taken, draws[1..][i]) != Busy;
        assert draws[i + 1] == draws[1..][i];
      }
    }
  }

  /** One of the draw's two ports is recorded, or the system answers that it is in use. */
  predicate Blocked(taken: set<uint16>, d: Draw) {
    var p := d.number - d.number % 2;
    p in taken || d.rtp == Busy || (d.rtp == Free && (p + 1 in taken || d.rtcp == Busy))
  }

  /**
   The first draw that is not blocked decides: its pair is handed out if both ports are free, and
   the search throws if it finds no socket to probe with.
   */
  lemma {:induction false} FirstUnblocked(taken: set<uint16>, draws: seq<Draw>, k: nat)
    requires k < |draws| && !Blocked(taken, draws[k])
    requires forall i :: 0 <= i < k ==> Blocked(taken, draws[i])
    ensures
      var p := draws[k].number - draws[k].number % 2;
      Generate(taken, draws)
      == if draws[k].rtp == Free && draws[k].rtcp == Free then Ports(p, p + 1) else Threw
  {
    if k > 0 {
      assert Blocked(taken, draws[0]);
      forall i | 0 <= i < k - 1
        ensures Blocked(taken, draws[1..][i])
      {
        assert draws[1..][i] == draws[i + 1];
      }
      FirstUnblocked(taken, draws[1..], k - 1);
    }
  }

  /** Taking a new pair, or letting a live one go, keeps the record exact. */
  lemma TakePair(s: State, rtp: uint16)
    requires Inv(s) && RtpPort(rtp) && rtp !in s.taken && rtp + 1 !in s.taken
    ensures Inv(State(s.taken + {rtp, rtp + 1}, s.live + {rtp}))
  {}

  lemma OddNeighbours(s: State, rtp: uint16)
    requires Inv(s) && rtp in s.live
    ensures RtpPort(rtp) && rtp - 1 !in s.live && rtp + 1 !in s.live
  {}

  lemma DropPair(s: State, rtp: uint16)
    requires Inv(s) && rtp in s.live
    ensures rtp < 0xFFFF && rtp in s.taken && rtp + 1 in s.taken
    ensures Inv(State(s.taken - {rtp, rtp + 1}, s.live - {rtp}))
  {}

  lemma {:induction false} RunInv(events: seq<Event>)
    ensures Inv(Run(events))
  {
    hide Inv, RtpPort;
    if events == [] {
      assert Inv(State({}, {})) by { StartInv(); }
    } else {
      var s, e := Run(events[..|events| - 1]), events[|events| - 1];
      RunInv(events[..|events| - 1]);
      match e
      case Allocate(draws) =>
        GenerateFinds(s.taken, draws);
        var g := Generate(s.taken, draws);
        if g.Ports? {
          TakePair(s, g.rtp);
        }
      case Release(rtp) =>
        if rtp in s.live {
          DropPair(s, rtp);
        }
    }
  }

  lemma StartInv()
    ensures Inv(State({}, {}))
  {}

  /** Event k hands out the pair with this RTP port. */
  ghost predicate HandsOut(events: seq<Event>, k: nat, p: uint16)
    requires k < |events|
  {
    events[k].Allocate? && p < 0xFFFF && Generate(Run(events[..k]).taken, events[k].draws) == Ports(p, p + 1)
  }

  ghost predicate InUse(events: seq<Event>, p: uint16) {
    exists k :: 0 <= k < |events| && HandsOut(events, k, p)
      && forall j :: k < j < |events| ==> events[j] != Release(p)
  }

  lemma InUseStep(events: seq<Event>, p: uint16)
    requires events != []
    ensures
      var n := |events| - 1;
      InUse(events, p) <==> HandsOut(events, n, p) || (InUse(events[..n], p) && events[n] != Release(p))
  {
    hide Run, Generate;
    var n := |events| - 1;
    var front := events[..n];
    forall k | 0 <= k < n
      ensures HandsOut(front, k, p) == HandsOut(events, k, p)
    {
      assert front[..k] == events[..k];
    }
    if InUse(front, p) && events[n] != Release(p) {
      var k :| 0 <= k < n && HandsOut(front, k, p) && forall j :: k < j < n ==> front[j] != Release(p);
      assert HandsOut(events, k, p) && forall j :: k < j < n ==> events[j] == front[j];
    }
  }

  /** Live are exactly the pairs handed out and not released since. */
  lemma {:induction false} LiveOverRun(events: seq<Event>, p: uint16)
    ensures p in Run(events).live <==> InUse(events, p)
  {
    hide HandsOut;
    if events == [] {
      assert !InUse([], p);
    } else {
      var n := |events| - 1;
      LiveOverRun(events[..n], p);
      InUseStep(events, p);
      LiveStep(events, p);
    }
  }

  lemma LiveStep(events: seq<Event>, p: uint16)
    requires events != []
    ensures
      var n := |events| - 1;
      p in Run(events).live <==> HandsOut(events, n, p) || (p in Run(events[..n]).live && events[n] != Release(p))
  {
    var n := |events| - 1;
    var s := Run(events[..n]);
    RunInv(events[..n]);
    if events[n].Allocate? {
      GenerateFinds(s.taken, events[n].draws);
    } else if events[n].rtp in s.live {
      DropPair(s, events[n].rtp);
    }
  }

  // ----- Counting -----

  lemma {:induction false} PairCount(taken: set<uint16>, live: set<uint16>)
    requires Inv(State(taken, live))
    ensures |taken| == 2 * |live|
    decreases live
  {
    if live == {} {
      assert forall p :: p in taken ==> OfPair(live, p);
      assert taken == {};
    } else {
      var p :| p in live;
      DropPair(State(taken, live), p);
      PairCount(taken - {p, p + 1}, live - {p});
      assert taken - {p, p + 1} == taken - {p} - {p + 1};
    }
  }

  lemma {:induction false} AtMost(s: set<uint16>, n: nat)
    requires forall p :: p in s ==> RtpPort(p) && p < FIRST_PORT + 2 * n
    ensures |s| <= n
    decreases n
  {
    if n == 0 {
      assert s == {};
    } else {
      var top := FIRST_PORT + 2 * (n - 1);
      var rest := set p | p in s && p != top;
      assert |s| <= |rest| + 1 by {
        if top < 0x1_0000 && top in s {
          assert s == rest + {top};
        } else {
          assert s == rest;
        }
      }
      AtMost(rest, n - 1);
    }
  }

  /**
   After every run, whatever the draws and the answers of the system: live pairs are disjoint and
   are all that is recorded, two ports a pair, and there are never more than 5268 of them.
   */
  lemma RunPairs(events: seq<Event>)
    ensures
      var s := Run(events);
      && (forall p :: p in s.live ==> RtpPort(p) && p in s.taken && p + 1 in s.taken && p + 1 !in s.live)
      && (forall p :: p in s.taken <==> OfPair(s.live, p))
      && |s.taken| == 2 * |s.live|
      && |s.live| <= 5268
  {
    var s := Run(events);
    RunInv(events);
    PairCount(s.taken, s.live);
    forall p | p in s.live
      ensures RtpPort(p) && p in s.taken && p + 1 in s.taken && p + 1 !in s.live
    {
      DropPair(s, p);
      OddNeighbours(s, p);
    }
    AtMost(s.live, 5268);
  }
}
