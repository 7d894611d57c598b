/** The video thread: read a window, cut off one unit, send it, until the file or a send ends it. */
module H264Sender {
  import opened Bytes
  import opened Rtp
  import opened Transmission
  import opened FuA
  import opened AnnexB
  import opened Files

  /** The payloads for a list of units, each followed in its window by the 0x00 of a start code. */
  function FilePlan(units: seq<NalUnit>): Plan {
    if units == [] then []
    else FilePlan(units[..|units| - 1]) + UnitPlan(units[|units| - 1].body + [0])
  }

  const H264_HEADER := RtpHeader(0, 0, 0, RTP_VERSION, RTP_PAYLOAD_TYPE_H264, 0, 0, 0, 0x88923423)

  lemma {:induction false} FilePlanConcat(a: seq<NalUnit>, b: seq<NalUnit>)
    ensures FilePlan(a + b) == FilePlan(a) + FilePlan(b)
  {
    hide UnitPlan;
    if b == [] {
      assert a + b == a;
    } else {
      var front, last := b[..|b| - 1], b[|b| - 1];
      assert (a + b)[..|a + b| - 1] == a + front;
      FilePlanConcat(a, front);
    }
  }

  /** One turn of the file loop, in terms of the window. */
  lemma CutOne(buf: Buffer, rest: seq<byte>)
    requires rest != []
    requires Extract(Window(buf, rest), WindowSize(rest)).Some?
    ensures
      var rec := Window(buf, rest);
      var step, end := Step(rec), Extract(rec, WindowSize(rest)).value;
      var u, tail := FirstUnit(rest, step, end), Split(rec, rest[end..]);
      && Split(buf, rest) == Cut([u] + tail.units, tail.left)
      && rec[step..][..end - step + 1] == u.body + [0]
  {
    hide Step, Extract, Window;
    var rec := Window(buf, rest);
    var step, end := Step(rec), Extract(rec, WindowSize(rest)).value;
    FirstOctet(rec, end);
    assert rec[step..][..end - step + 1] == rec[step..end] + [rec[end]];
    WindowSlice(buf, rest, step, end);
  }

  lemma FirstOctet(rec: seq<byte>, at: nat)
    requires at + 4 <= |rec| && CodeAt(rec, at)
    ensures rec[at] == 0
  {}

  /** startCode3 or startCode4 at an offset of the buffer. */
  method CodeHere(rec: array<byte>, at: nat) returns (here: bool)
    requires at + 4 <= rec.Length
    ensures here <==> CodeAt(rec[..], at)
  {
    ghost var s := rec[..];
    assert s[at] == rec[at] && s[at + 1] == rec[at + 1] && s[at + 2] == rec[at + 2] && s[at + 3] == rec[at + 3];
    here := (rec[at] == 0 && rec[at + 1] == 0 && rec[at + 2] == 1)
            || (rec[at] == 0 && rec[at + 1] == 0 && rec[at + 2] == 0 && rec[at + 3] == 1);
  }

  method ExtractContent(rec: array<byte>, fp: InputFile, size: nat) returns (ret: int, filesize: nat)
    requires rec.Length == H264_FILE_BUFFER + OVERSCAN && size <= H264_FILE_BUFFER
    requires fp.Valid() && size <= fp.pos
    modifies fp
    ensures fp.Valid()
    ensures
      match Extract(rec[..], size)
      case Some(end) => ret == 0 && filesize == end && fp.pos == old(fp.pos) + end - size
      case None => ret == -1 && fp.pos == old(fp.pos)
  {
    ghost var window: Buffer := rec[..];
    var step;
    filesize := 0;
    if rec[0] == 0 && rec[1] == 0 && rec[2] == 1 {
      step := 3;
    } else if rec[0] == 0 && rec[1] == 0 && rec[2] == 0 && rec[3] == 1 {
      step := 4;
    } else {
      return -1, filesize;
    }
    var startNum := step + 1;
    var done := false;
    var i := 0;
    while i < size - 3
      invariant rec[..] == window && fp.pos == old(fp.pos)
      invariant 0 <= i && startNum == step + 1 + i && step == Step(window)
      invariant i <= size - 3 || i == 0
      invariant size > 3 ==> FindCode(window, step, step + size - 3) == FindCode(window, step + i, step + size - 3)
      invariant !done
    {
      var here := CodeHere(rec, step + i);
      if here {
        done := true;
        break;
      }
      startNum := startNum + 1;
      i := i + 1;
    }
    if !done {
      return -1, filesize;
    }
    filesize := startNum - 1;
    fp.Seek(filesize - size);
    ret := 0;
  }

  /** The thread between units: the plan of the units done so far is on the wire. */
  ghost predicate Underway(wire: Wire, header: RtpHeader, w: Wire, done: seq<NalUnit>) {
    && wire == Transmit(w, 0, H264_HEADER, FilePlan(done))
    && header == HeaderAfter(H264_HEADER, FilePlan(done))
  }

  /** Every packet of the units done so far was sent, and every send succeeded. */
  ghost predicate AllAnswered(answers: seq<bool>, before: seq<bool>, done: seq<NalUnit>) {
    Answered(answers, before, |FilePlan(done)|, |FilePlan(done)|)
  }

  lemma NothingAnswered(before: seq<bool>)
    ensures AllAnswered(before, before, [])
  {
    NoAnswer(before);
  }

  lemma UnitAnswered(answers: seq<bool>, middle: seq<bool>, before: seq<bool>,
                     done: seq<NalUnit>, u: NalUnit, more: seq<NalUnit>, k: nat)
    requires AllAnswered(middle, before, done)
    requires k <= |UnitPlan(u.body + [0])| && Answered(answers, middle, k, |UnitPlan(u.body + [0])|)
    ensures
      if k == |UnitPlan(u.body + [0])| then AllAnswered(answers, before, done + [u])
      else Answered(answers, before, |FilePlan(done)| + k, |FilePlan(done + ([u] + more))|)
  {
    hide UnitPlan, Answered;
    var a, n := |FilePlan(done)|, |UnitPlan(u.body + [0])|;
    assert |FilePlan([u])| == n by { assert FilePlan([]) == []; }
    FilePlanConcat(done, [u] + more);
    FilePlanConcat([u], more);
    FilePlanConcat(done, [u]);
    MoreAnswers(answers, middle, before, a, k, n);
    if k < n {
      SameAnswers(answers, before, a + k, a + n, |FilePlan(done + ([u] + more))|);
    }
  }

  lemma NothingDone(w: Wire)
    ensures Underway(w, H264_HEADER, w, [])
  {}

  /** k packets into unit u of a plan that has done units before it and more after it. */
  lemma MidUnit(w: Wire, done: seq<NalUnit>, u: NalUnit, more: seq<NalUnit>, k: nat)
    requires k <= |UnitPlan(u.body + [0])|
    ensures
      var a, x := FilePlan(done), UnitPlan(u.body + [0]);
      var plan, header := FilePlan(done + ([u] + more)), HeaderAfter(H264_HEADER, FilePlan(done));
      && |a| + |x| <= |plan|
      && plan[..|a| + k] == a + x[..k]
      && Transmit(w, 0, H264_HEADER, plan[..|a| + k])
         == Transmit(Transmit(w, 0, H264_HEADER, a), 0, header, x[..k])
      && HeaderAfter(H264_HEADER, plan[..|a| + k]) == HeaderAfter(header, x[..k])
      && (k == |x| ==> FilePlan(done + [u]) == plan[..|a| + k])
  {
    hide UnitPlan, Transmit, HeaderAfter;
    var a, x := FilePlan(done), UnitPlan(u.body + [0]);
    assert FilePlan([u]) == x by { assert FilePlan([]) == []; }
    FilePlanConcat(done, [u] + more);
    FilePlanConcat([u], more);
    FilePlanConcat(done, [u]);
    TransmitConcat(w, 0, H264_HEADER, a, x[..k]);
    assert (a + (x + FilePlan(more)))[..|a| + k] == a + x[..k];
    assert k == |x| ==> x[..k] == x;
  }

  /** What the loop has left to cut off, after what it has done, is the whole cut. */
  ghost predicate Remaining(total: Cut, done: seq<NalUnit>, buf: Buffer, rest: seq<byte>) {
    var cut := Split(buf, rest);
    total == Cut(done + cut.units, cut.left)
  }

  lemma RemainingStep(total: Cut, done: seq<NalUnit>, buf: Buffer, rest: seq<byte>)
    requires Remaining(total, done, buf, rest) && rest != []
    ensures
      var rec := Window(buf, rest);
      var step, found := Step(rec), Extract(rec, WindowSize(rest));
      if found.None? then total == Cut(done, rest)
      else
        var u := FirstUnit(rest, step, found.value);
        var tail := Split(rec, rest[found.value..]);
        && total.units == done + ([u] + tail.units)
        && Remaining(total, done + [u], rec, rest[found.value..])
        && rec[step..][..found.value - step + 1] == u.body + [0]
  {
    hide Step, Extract;
    if Extract(Window(buf, rest), WindowSize(rest)).Some? {
      CutOne(buf, rest);
      var rec := Window(buf, rest);
      var end := Extract(rec, WindowSize(rest)).value;
      var u, tail := FirstUnit(rest, Step(rec), end), Split(rec, rest[end..]);
      assert done + ([u] + tail.units) == (done + [u]) + tail.units;
    } else {
      assert done + [] == done;
    }
  }

  /** The driver looks at the front of the window again, for three octets and then for four. */
  method FrontStep(rec: Buffer) returns (step: nat)
    ensures step == Step(rec)
  {
    step := 0;
    if rec[0] == 0 && rec[1] == 0 && rec[2] == 1 {
      step := 3;
    }
    if rec[0] == 0 && rec[1] == 0 && rec[2] == 0 && rec[3] == 1 {
      step := 4;
    }
  }

  /** The part of a turn behind a successful extraction: compute the step again and send the unit. */
  method SendUnit(socket: Socket, rtpPacket: RtpPacket, rec: Buffer, end: nat,
                  ghost w: Wire, ghost before: seq<bool>,
                  ghost done: seq<NalUnit>, ghost u: NalUnit, ghost more: seq<NalUnit>)
    returns (ret: int, ghost sent: nat)
    requires rtpPacket.payload.Length >= 1402
    requires Step(rec) <= end <= H264_FILE_BUFFER
    requires rec[Step(rec)..][..end - Step(rec) + 1] == u.body + [0]
    requires Underway(socket.wire, rtpPacket.rtpHeader, w, done) && AllAnswered(socket.answers, before, done)
    modifies socket, rtpPacket, rtpPacket.payload
    ensures
      var plan := FilePlan(done + ([u] + more));
      && sent <= |plan|
      && socket.wire == Transmit(w, 0, H264_HEADER, plan[..sent])
      && (ret == -1 ==> sent < |plan| && Answered(socket.answers, before, sent, |plan|))
    ensures ret != -1 ==>
      Underway(socket.wire, rtpPacket.rtpHeader, w, done + [u]) && AllAnswered(socket.answers, before, done + [u])
  {
    hide Step, Transmit, HeaderAfter, FilePlan, UnitPlan, UnitOverhead, Answered;
    var step := FrontStep(rec);
    var filesize := end - step;
    ghost var answers := socket.answers;
    ghost var k;
    ret, k := SendManager(socket, rtpPacket, rec[step..], filesize);
    MidUnit(w, done, u, more, k);
    UnitAnswered(socket.answers, answers, before, done, u, more, k);
    sent := |FilePlan(done)| + k;
  }

  /**
   The file loop over either transport. The result and the wire are those of the plan for the
   units Split cuts off: the packets go out one by one until all are sent or a send fails, and no
   send is made besides. buf is what the allocated buffer happened to hold.
   */
  method SendH264(file: Option<seq<byte>>, socket: Socket) returns (ret: int, ghost buf: Buffer, ghost sent: nat)
    modifies socket
    ensures file.None? ==> ret == -1 && socket.wire == old(socket.wire) && socket.answers == old(socket.answers)
    ensures file.Some? ==>
      var cut := Split(buf, file.value);
      var plan := FilePlan(cut.units);
      && sent <= |plan|
      && socket.wire == Transmit(old(socket.wire), 0, H264_HEADER, plan[..sent])
      && Answered(socket.answers, old(socket.answers), sent, |plan|)
      && ret == if sent == |plan| && cut.left == [] then 0 else -1
  {
    hide Transmit, HeaderAfter, FilePlan, Split, Extract, Step, Underway, Remaining, AllAnswered, Answered;
    var rec := new byte[H264_FILE_BUFFER + OVERSCAN];
    buf := rec[..];
    if file.None? {
      return -1, buf, 0;
    }
    var fp := new InputFile(file.value);
    var rtpPacket := new RtpPacket(H264_FILE_BUFFER);
    rtpPacket.RtpHeaderInit(0, 0, 0, RTP_VERSION, RTP_PAYLOAD_TYPE_H264, 0, 0, 0, 0x88923423);
    ret, sent := SendUnits(fp, socket, rtpPacket, rec);
    assert file.value[0..] == file.value;
  }

  method SendUnits(fp: InputFile, socket: Socket, rtpPacket: RtpPacket, rec: array<byte>)
    returns (ret: int, ghost sent: nat)
    requires fp.Valid() && rec.Length == H264_FILE_BUFFER + OVERSCAN
    requires rtpPacket.payload.Length >= 1402 && rtpPacket.payload != rec
    requires rtpPacket.rtpHeader == H264_HEADER
    modifies fp, socket, rtpPacket, rtpPacket.payload, rec
    ensures
      var cut := Split(old(rec[..]), fp.data[old(fp.pos)..]);
      var plan := FilePlan(cut.units);
      && sent <= |plan|
      && socket.wire == Transmit(old(socket.wire), 0, H264_HEADER, plan[..sent])
      && Answered(socket.answers, old(socket.answers), sent, |plan|)
      && ret == if sent == |plan| && cut.left == [] then 0 else -1
  {
    hide Transmit, HeaderAfter, FilePlan, Split, Extract, Step, Underway, Remaining, AllAnswered, Answered;
    ghost var w, total := socket.wire, Split(rec[..], fp.data[fp.pos..]);
    ghost var done: seq<NalUnit> := [];
    NothingDone(w);
    NothingAnswered(socket.answers);
    RemainingAll(rec[..], fp.data[fp.pos..]);
    while true
      invariant fp.Valid()
      invariant Underway(socket.wire, rtpPacket.rtpHeader, w, done)
      invariant AllAnswered(socket.answers, old(socket.answers), done)
      invariant Remaining(total, done, rec[..], fp.data[fp.pos..])
      decreases |fp.data| - fp.pos
    {
      ghost var buf: Buffer := rec[..];
      ghost var rest := fp.data[fp.pos..];
      var size := fp.Read(rec, 0, H264_FILE_BUFFER);
      ReadIsWindow(buf, fp.data, |fp.data| - |rest|);
      assert rec[..] == Window(buf, rest) && size == WindowSize(rest);
      if size == 0 {
        UnderwayMeaning(socket.wire, rtpPacket.rtpHeader, socket.answers, w, old(socket.answers), done);
        assert rest == [];
        RemainingNothing(total, done, buf);
        return 0, |FilePlan(done)|;
      }
      RemainingStep(total, done, buf, rest);
      var failed, filesize := ExtractContent(rec, fp, size);
      if failed != 0 {
        UnderwayMeaning(socket.wire, rtpPacket.rtpHeader, socket.answers, w, old(socket.answers), done);
        return -1, |FilePlan(done)|;
      }
      ghost var u := FirstUnit(rest, Step(rec[..]), filesize);
      ghost var more := Split(rec[..], rest[filesize..]).units;
      ret, sent := SendUnit(socket, rtpPacket, rec[..], filesize, w, old(socket.answers), done, u, more);
      if ret == -1 {
        return -1, sent;
      }
      assert fp.data[fp.pos..] == rest[filesize..];
      done := done + [u];
    }
  }

  /** What fread leaves in the buffer is the window on the rest of the file. */
  lemma ReadIsWindow(buf: Buffer, data: seq<byte>, pos: nat)
    requires pos <= |data|
    ensures
      var n := WindowSize(data[pos..]);
      buf[..0] + data[pos..pos + n] + buf[n..] == Window(buf, data[pos..])
  {
    var n := WindowSize(data[pos..]);
    assert data[pos..][..n] == data[pos..pos + n];
  }

  lemma UnderwayMeaning(wire: Wire, header: RtpHeader, answers: seq<bool>,
                        w: Wire, before: seq<bool>, done: seq<NalUnit>)
    requires Underway(wire, header, w, done) && AllAnswered(answers, before, done)
    ensures Answered(answers, before, |FilePlan(done)|, |FilePlan(done)|)
    ensures wire == Transmit(w, 0, H264_HEADER, FilePlan(done)[..|FilePlan(done)|])
  {
    assert FilePlan(done)[..|FilePlan(done)|] == FilePlan(done);
  }

  lemma RemainingAll(buf: Buffer, rest: seq<byte>)
    ensures Remaining(Split(buf, rest), [], buf, rest)
  {}

  lemma RemainingNothing(total: Cut, done: seq<NalUnit>, buf: Buffer)
    requires Remaining(total, done, buf, [])
    ensures total == Cut(done, [])
  {}
}
