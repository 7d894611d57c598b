/** What a receiver recovers from the video channel, for whole files and for runs cut short. */
module Video {
  import opened Bytes
  import opened Rtp
  import opened Transmission
  import opened FuA
  import opened AnnexB
  import opened WholeFile
  import opened H264Sender
  import opened Reassembly

  const NOTHING_RECEIVED := Receiver([], None)

  /** Each unit as it arrives: a fragmented one with the first octet of the next start code. */
  function Arrivals(units: seq<NalUnit>): (arrivals: seq<seq<byte>>)
    ensures |arrivals| == |units|
    ensures forall i :: 0 <= i < |units| ==> arrivals[i] == Received(units[i].body, 0)
  {
    seq(|units|, i requires 0 <= i < |units| => Received(units[i].body, 0))
  }

  predicate AllCarried(units: seq<NalUnit>) {
    forall i :: 0 <= i < |units| ==> Carried(units[i].body)
  }

  lemma PayloadsConcat(a: Plan, b: Plan)
    ensures Payloads(a + b) == Payloads(a) + Payloads(b)
  {}

  lemma {:induction false} FileReassembles(units: seq<NalUnit>)
    requires AllCarried(units)
    ensures Reassemble(NOTHING_RECEIVED, Payloads(FilePlan(units))) == Receiver(Arrivals(units), None)
  {
    hide UnitPlan, Accept, Carried, Received;
    if units != [] {
      var n := |units| - 1;
      var front, last := FilePlan(units[..n]), UnitPlan(units[n].body + [0]);
      FileReassembles(units[..n]);
      PayloadsConcat(front, last);
      ReassembleConcat(NOTHING_RECEIVED, Payloads(front), Payloads(last));
      UnitRoundTrip(Arrivals(units[..n]), units[n].body, 0);
      assert Arrivals(units) == Arrivals(units[..n]) + [Received(units[n].body, 0)];
    } else {
      assert Payloads([]) == [];
      assert Arrivals([]) == [];
    }
  }

  /** Cut a file's plan anywhere: what was recovered is a prefix of its units, in order and unmixed. */
  lemma CutShortReassembles(units: seq<NalUnit>, k: nat)
    requires AllCarried(units)
    requires k <= |FilePlan(units)|
    ensures
      var rx := Reassemble(NOTHING_RECEIVED, Payloads(FilePlan(units)[..k]));
      rx.Receiver? && rx.units <= Arrivals(units)
  {
    hide Accept, FilePlan, Carried, Received;
    var plan := FilePlan(units);
    FileReassembles(units);
    assert plan == plan[..k] + plan[k..];
    PayloadsConcat(plan[..k], plan[k..]);
    ReassembleConcat(NOTHING_RECEIVED, Payloads(plan[..k]), Payloads(plan[k..]));
    ReassembleGrows(Reassemble(NOTHING_RECEIVED, Payloads(plan[..k])), Payloads(plan[k..]));
  }

  lemma {:induction false} FilePlanSmall(units: seq<NalUnit>)
    ensures forall i :: 0 <= i < |FilePlan(units)| ==> |FilePlan(units)[i].payload| <= 1402
  {
    hide UnitPlan;
    if units != [] {
      FilePlanSmall(units[..|units| - 1]);
      UnitPlanSmall(units[|units| - 1].body + [0]);
    }
  }

  // ----- Timestamps -----

  /** Units after which the timestamp moves: all but single-packet parameter sets and SEI. */
  predicate Timed(u: NalUnit) {
    |u.body| > 1400 || u.body == [] || u.body[0] % 0x20 !in {6, 7, 8}
  }

  function TimedUnits(units: seq<NalUnit>): nat {
    if units == [] then 0
    else TimedUnits(units[..|units| - 1]) + if Timed(units[|units| - 1]) then 1 else 0
  }

  lemma UnitTicks(u: NalUnit)
    ensures Ticks(UnitPlan(u.body + [0])) == if Timed(u) then 3000 else 0
  {
    var x := u.body + [0];
    if |u.body| > 1400 {
      var plan := FragmentPlan(x);
      FragmentTicks(x, |plan|);
      assert plan[..|plan|] == plan;
    } else {
      assert UnitPlan(x)[..0] == [];
      assert Ticks([]) == 0;
    }
  }

  /** After a whole file the timestamp has moved 3000 ticks for each timed unit, no more and no less. */
  lemma {:induction false} FileTicks(units: seq<NalUnit>)
    ensures Ticks(FilePlan(units)) == 3000 * TimedUnits(units)
  {
    hide UnitPlan, Timed;
    if units != [] {
      var n := |units| - 1;
      FileTicks(units[..n]);
      UnitTicks(units[n]);
      PlanConcat(H264_HEADER, FilePlan(units[..n]), UnitPlan(units[n].body + [0]));
    }
  }

  /** One packet a unit, or one for every 1400 octets begun. */
  function PacketCount(units: seq<NalUnit>): nat {
    if units == [] then 0
    else
      var size := |units[|units| - 1].body|;
      PacketCount(units[..|units| - 1]) + if size <= 1400 then 1 else (size + 1399) / 1400
  }

  lemma {:induction false} FilePackets(units: seq<NalUnit>)
    ensures |FilePlan(units)| == PacketCount(units)
  {
    if units != [] {
      FilePackets(units[..|units| - 1]);
    }
  }

  /** The header of the video thread after some packets and timed units. */
  function VideoHeader(packets: nat, timed: nat): RtpHeader {
    RtpHeader(0, 0, 0, 2, 96, 0, packets % 0x1_0000, 3000 * timed % 0x1_0000_0000, 0x88923423)
  }

  /** The header state after the units of a file, counting wrap-around. */
  lemma HeaderAfterFile(units: seq<NalUnit>)
    ensures HeaderAfter(H264_HEADER, FilePlan(units)) == VideoHeader(PacketCount(units), TimedUnits(units))
  {
    hide FilePlan, HeaderAfter;
    FileTicks(units);
    FilePackets(units);
    HeaderAfterPlan(H264_HEADER, FilePlan(units));
  }

  /** No packet of a unit moves the timestamp before the last one. */
  lemma TicksInUnit(u: NalUnit, i: nat)
    requires i < |UnitPlan(u.body + [0])|
    ensures Ticks(UnitPlan(u.body + [0])[..i]) == 0
  {
    var x := u.body + [0];
    if |u.body| > 1400 {
      FragmentTicks(x, i);
    }
  }

  lemma OneUnitPlan(u: NalUnit)
    ensures FilePlan([u]) == UnitPlan(u.body + [0])
  {
    hide UnitPlan;
    assert FilePlan([]) == [];
  }

  lemma IntoUnit(units: seq<NalUnit>, j: nat, i: nat)
    requires j < |units| && i < |UnitPlan(units[j].body + [0])|
    ensures
      var a, x, plan := FilePlan(units[..j]), UnitPlan(units[j].body + [0]), FilePlan(units);
      |a| + i < |plan| && plan[|a| + i] == x[i] && plan[..|a| + i] == a + x[..i]
  {
    hide UnitPlan, FilePlan;
    var u := units[j];
    assert FilePlan([u]) == UnitPlan(u.body + [0]) by { OneUnitPlan(u); }
    FilePlanConcat(units[..j], [u]);
    FilePlanConcat(units[..j] + [u], units[j + 1..]);
    assert units[..j] + [u] + units[j + 1..] == units;
    InTheMiddle(FilePlan(units[..j]), UnitPlan(u.body + [0]), FilePlan(units[j + 1..]), i);
  }

  /**
   What a receiver parses from the i-th packet of unit j: payload type 96, the number of packets
   before it, and 3000 ticks for each timed unit before it, the same for all packets of the unit.
   */
  lemma VideoPacket(units: seq<NalUnit>, j: nat, i: nat)
    requires j < |units| && i < |UnitPlan(units[j].body + [0])|
    ensures
      var k := PacketCount(units[..j]) + i;
      && k < |FilePlan(units)|
      && ParsePacket(PacketsOf(H264_HEADER, FilePlan(units))[k])
         == Some(Packet(VideoHeader(k, TimedUnits(units[..j])), UnitPlan(units[j].body + [0])[i].payload))
  {
    hide UnitPlan, FilePlan, ParsePacket, PacketsOf, Ticks;
    var a, k := FilePlan(units[..j]), PacketCount(units[..j]) + i;
    FilePackets(units[..j]);
    IntoUnit(units, j, i);
    FileTicks(units[..j]);
    TicksInUnit(units[j], i);
    PlanConcat(H264_HEADER, a, UnitPlan(units[j].body + [0])[..i]);
    PacketParses(H264_HEADER, FilePlan(units), k);
  }

  // ----- End to end -----

  /** A NAL unit without trailing_zero_8bits. */
  function Trim(x: seq<byte>): seq<byte> {
    if x != [] && x[|x| - 1] == 0 then Trim(x[..|x| - 1]) else x
  }

  lemma ArrivalTrims(body: seq<byte>)
    requires Clean(body)
    ensures Trim(Received(body, 0)) == body
  {}

  function TrimAll(arrivals: seq<seq<byte>>): (bodies: seq<seq<byte>>)
    ensures |bodies| == |arrivals|
    ensures forall i :: 0 <= i < |arrivals| ==> bodies[i] == Trim(arrivals[i])
  {
    seq(|arrivals|, i requires 0 <= i < |arrivals| => Trim(arrivals[i]))
  }

  function Bodies(units: seq<NalUnit>): (bodies: seq<seq<byte>>)
    ensures |bodies| == |units|
    ensures forall i :: 0 <= i < |units| ==> bodies[i] == units[i].body
  {
    seq(|units|, i requires 0 <= i < |units| => units[i].body)
  }

  /** A receiver of an interleaved stream: deframe, take channel 0, parse RTP, reassemble. */
  function ReceiveVideo(stream: seq<byte>): Receiver {
    match Receive(0, stream)
    case None => Broken
    case Some(payloads) => Reassemble(NOTHING_RECEIVED, payloads)
  }

  lemma ArrivalsTrim(units: seq<NalUnit>)
    requires forall i :: 0 <= i < |units| ==> Clean(units[i].body)
    ensures TrimAll(Arrivals(units)) == Bodies(units)
  {
    hide Clean, Received, Trim;
    forall i | 0 <= i < |units|
      ensures Trim(Arrivals(units)[i]) == units[i].body
    {
      ArrivalTrims(units[i].body);
    }
  }

  /** The units of a clean file that are sent. */
  function SentUnits(buf: Buffer, units: seq<NalUnit>): seq<NalUnit>
    requires CleanFile(units)
  {
    if LastIsSent(buf, units) then units else units[..|units| - 1]
  }

  /**
   From file to receiver, alone on a connection: for every clean file of carried units, the
   payloads of the whole run put together every unit but the last (and the last one too exactly
   when it is sent), octet for octet up to trailing zeros.
   */
  lemma VideoEndToEnd(buf: Buffer, units: seq<NalUnit>)
    requires CleanFile(units) && AllCarried(units)
    ensures
      var plan := FilePlan(Split(buf, Assemble(units)).units);
      var rx := ReceiveVideo(Transmit(Tcp([]), 0, H264_HEADER, plan).stream);
      rx.Receiver? && rx.partial.None? && TrimAll(rx.units) == Bodies(SentUnits(buf, units))
  {
    hide Split, Clean, Received, Fits, Receive, LastIsSent, FilePlan;
    SplitClean(buf, units);
    var sent := SentUnits(buf, units);
    assert Split(buf, Assemble(units)).units == sent;
    UnitsReceived(sent);
    ArrivalsTrim(sent);
  }

  lemma UnitsReceived(units: seq<NalUnit>)
    requires AllCarried(units)
    ensures ReceiveVideo(Transmit(Tcp([]), 0, H264_HEADER, FilePlan(units)).stream) == Receiver(Arrivals(units), None)
  {
    hide Receive, Carried, FilePlan, Received;
    FilePlanSmall(units);
    PlanReceived(0, H264_HEADER, FilePlan(units));
    FileReassembles(units);
  }

  // ----- Any file -----

  lemma TrimArrivals(units: seq<NalUnit>)
    ensures TrimAll(Arrivals(units)) == TrimAll(Bodies(units))
  {}

  lemma {:induction false} TrimZeros(a: seq<byte>, zeros: seq<byte>)
    requires AllZero(zeros)
    ensures Trim(a + zeros) == Trim(a)
    decreases |zeros|
  {
    if zeros == [] {
      assert a + zeros == a;
    } else {
      var n := |zeros| - 1;
      assert (a + zeros)[..|a| + n] == a + zeros[..n];
      TrimZeros(a, zeros[..n]);
    }
  }

  /**
   These are, up to trailing zeros, the units of the whole file: as many as fit the window with the
   code behind them; and if all fit, all of them or all but the last, and nothing else.
   */
  ghost predicate AsFarAsFit(whole: seq<NalUnit>, bodies: seq<seq<byte>>) {
    && (forall k: nat :: FitUpTo(whole, k) ==> k <= |bodies| && bodies[..k] == TrimAll(Bodies(whole))[..k])
    && (AllFit(whole) ==> |bodies| <= |whole| <= |bodies| + 1 && bodies == TrimAll(Bodies(whole))[..|bodies|])
  }

  lemma TrimFront(units: seq<NalUnit>, k: nat)
    requires k <= |units|
    ensures TrimAll(Bodies(units))[..k] == TrimAll(Bodies(units[..k]))
  {}

  lemma CutAgrees(buf: Buffer, file: seq<byte>)
    ensures AsFarAsFit(FileUnits(file), TrimAll(Bodies(Split(buf, file).units)))
  {
    hide FileUnits, Split, FitUpTo, LastCut, Trim;
    var whole, cut := FileUnits(file), Split(buf, file);
    WindowedIsWhole(buf, file);
    forall k: nat | FitUpTo(whole, k)
      ensures k <= |whole| && TrimAll(Bodies(cut.units))[..k] == TrimAll(Bodies(whole))[..k]
    {
      FitIsFront(whole, k);
      TrimFront(cut.units, k);
      TrimFront(whole, k);
    }
    if AllFit(whole) && whole != [] {
      LastCutTrims(whole, cut);
    }
  }

  lemma FitIsFront(units: seq<NalUnit>, k: nat)
    requires FitUpTo(units, k)
    ensures k < |units|
  {}

  lemma LastCutTrims(whole: seq<NalUnit>, cut: Cut)
    requires whole != [] && |whole| - 1 <= |cut.units|
    requires
      var n := |whole| - 1;
      cut.units[..n] == whole[..n] && LastCut(Cut(cut.units[n..], cut.left), whole[n])
    ensures
      var bodies := TrimAll(Bodies(cut.units));
      |bodies| <= |whole| <= |bodies| + 1 && bodies == TrimAll(Bodies(whole))[..|bodies|]
  {
    hide Trim, AllZero;
    var n := |whole| - 1;
    TrimFront(cut.units, n);
    TrimFront(whole, n);
    if |cut.units| > n {
      assert cut.units[n..][0] == cut.units[n];
      TrimZeros(cut.units[n].body, cut.left);
    }
    var bodies, all := TrimAll(Bodies(cut.units)), TrimAll(Bodies(whole));
    forall i | 0 <= i < |bodies|
      ensures bodies[i] == all[i]
    {
      if i < n {
        assert bodies[i] == bodies[..n][i] && all[i] == all[..n][i];
      }
    }
  }

  /**
   From any file to the receiver, alone on a connection: from all that is sent the receiver
   recovers, up to trailing zeros, the units of the whole file as far as they fit the window, and
   if all fit at least every unit that a start code follows.
   */
  lemma VideoOfAnyFile(buf: Buffer, file: seq<byte>)
    requires AllCarried(Split(buf, file).units)
    ensures
      var plan := FilePlan(Split(buf, file).units);
      var rx := ReceiveVideo(Transmit(Tcp([]), 0, H264_HEADER, plan).stream);
      rx.Receiver? && rx.partial.None? && AsFarAsFit(FileUnits(file), TrimAll(rx.units))
  {
    hide Split, Receive, FilePlan, FileUnits, Carried, AsFarAsFit, ReceiveVideo;
    UnitsReceived(Split(buf, file).units);
    TrimArrivals(Split(buf, file).units);
    CutAgrees(buf, file);
  }

  /**
   What is cut off can be carried if all units of the file can and the last one's type fits a
   single packet, which it needs should the loop cut it down to 1400 octets.
   */
  lemma CutIsCarried(buf: Buffer, file: seq<byte>)
    requires AllFit(FileUnits(file)) && AllCarried(FileUnits(file))
    requires FileUnits(file) != [] ==>
      var last := FileUnits(file)[|FileUnits(file)| - 1].body;
      last != [] && 1 <= last[0] % 0x20 <= 23
    ensures AllCarried(Split(buf, file).units)
  {
    hide FileUnits, Split, FitUpTo, LastCut, Carried;
    var whole, cut := FileUnits(file), Split(buf, file);
    WindowedIsWhole(buf, file);
    if whole != [] {
      var n := |whole| - 1;
      forall i | 0 <= i < |cut.units|
        ensures Carried(cut.units[i].body)
      {
        if i < n {
          assert cut.units[i] == cut.units[..n][i] == whole[i];
        } else {
          assert cut.units[i] == cut.units[n..][i - n];
          LastIsCarried(Cut(cut.units[n..], cut.left), whole[n]);
        }
      }
    }
  }

  lemma LastIsCarried(cut: Cut, u: NalUnit)
    requires LastCut(cut, u) && Carried(u.body) && 1 <= u.body[0] % 0x20 <= 23
    ensures |cut.units| <= 1
    ensures cut.units != [] ==> Carried(cut.units[0].body)
  {
    if cut.units != [] {
      var body := cut.units[0].body;
      NotOnlyZeros(body, cut.left);
      assert body[0] == u.body[0];
    }
  }

  lemma NotOnlyZeros(a: seq<byte>, zeros: seq<byte>)
    requires AllZero(zeros) && a + zeros != [] && (a + zeros)[0] != 0
    ensures a != []
  {
    assert a == [] ==> a + zeros == zeros;
  }
}
