/** From the two media files, over one TCP connection shared by two threads, to the receiver. */
module Playback {
  import opened Bytes
  import opened Rtp
  import opened Transmission
  import opened AnnexB
  import opened WholeFile
  import opened H264Sender
  import opened Reassembly
  import opened Video
  import opened AacStream
  import AacSender
  import opened Interleaving

  /** A receiver of an interleaved stream: deframe, take channel 2, parse RTP, read the AU headers. */
  function ReceiveAudio(stream: seq<byte>): Option<seq<seq<byte>>> {
    match Receive(2, stream)
    case None => None
    case Some(payloads) => DecodeAll(payloads)
  }

  /** Blocks an AU header can describe. */
  predicate Describable(blocks: seq<seq<byte>>) {
    forall i :: 0 <= i < |blocks| ==> |blocks[i]| < 0x2000
  }

  function Begin(units: seq<NalUnit>, blocks: seq<seq<byte>>): State {
    Start(H264_HEADER, FilePlan(units), AacSender.AAC_HEADER, AacPlan(blocks))
  }

  lemma PlansSmall(units: seq<NalUnit>, blocks: seq<seq<byte>>)
    requires Describable(blocks)
    ensures Small(FilePlan(units)) && Small(AacPlan(blocks))
  {}

  lemma SelectFront(blocks: seq<seq<byte>>, outcomes: seq<bool>)
    requires |outcomes| <= |blocks| && Describable(blocks)
    ensures
      var plan := Select(AacPlan(blocks)[..|outcomes|], outcomes);
      DecodeAll(Payloads(plan)) == Some(Select(blocks[..|outcomes|], outcomes))
  {
    hide DecodeAll, AuPayload;
    var n := |outcomes|;
    assert AacPlan(blocks)[..n] == AacPlan(blocks[..n]);
    SelectPlan(blocks[..n], outcomes);
    SelectAll(blocks[..n], outcomes);
    var got := Select(blocks[..n], outcomes);
    forall i | 0 <= i < |got|
      ensures |got[i]| < 0x2000
    {
      assert got[i] in blocks[..n];
    }
    PlanDecodes(got);
  }

  /**
   In every state of every run of the two threads, whatever the scheduler does and whichever
   sends fail, the receiver has an initial part of the video units, in order and whole, and
   exactly the audio blocks whose sends succeeded.
   */
  lemma EveryMoment(units: seq<NalUnit>, blocks: seq<seq<byte>>, states: seq<State>, events: seq<Event>, i: nat)
    requires AllCarried(units) && Describable(blocks)
    requires IsRun(states, events) && states[0] == Begin(units, blocks) && i < |states|
    ensures
      var s := states[i];
      && s.wire.Tcp? && |s.outcomes| <= |blocks|
      && ReceiveVideo(s.wire.stream).Receiver?
      && ReceiveVideo(s.wire.stream).units <= Arrivals(units)
      && ReceiveAudio(s.wire.stream) == Some(Select(blocks[..|s.outcomes|], s.outcomes))
  {
    hide Receive, Carried, FilePlan, Describable, Small, IsRun, DecodeAll, Reassemble;
    var s := states[i];
    PlansSmall(units, blocks);
    Separation(states, events, H264_HEADER, FilePlan(units), AacSender.AAC_HEADER, AacPlan(blocks), i);
    var plan, k := FilePlan(units), |s.video.sent|;
    assert s.video.sent == plan[..k];
    CutShortReassembles(units, k);
    SelectFront(blocks, s.outcomes);
  }

  /**
   A complete run delivers both files: from one stream, written to by both threads in any order,
   the receiver recovers every video unit the file loop cuts off, with its one extra octet if it
   was fragmented, and every raw audio block.
   */
  lemma CompleteRun(units: seq<NalUnit>, blocks: seq<seq<byte>>, states: seq<State>, events: seq<Event>, i: nat)
    requires AllCarried(units) && Describable(blocks)
    requires IsRun(states, events) && states[0] == Begin(units, blocks) && i < |states|
    requires Complete(states[i])
    ensures
      var s := states[i];
      && s.wire.Tcp?
      && ReceiveVideo(s.wire.stream) == Receiver(Arrivals(units), None)
      && ReceiveAudio(s.wire.stream) == Some(blocks)
  {
    hide Receive, Carried, FilePlan, Describable, Small, IsRun, DecodeAll, Reassemble;
    var s := states[i];
    EveryMoment(units, blocks, states, events, i);
    PlansSmall(units, blocks);
    Separation(states, events, H264_HEADER, FilePlan(units), AacSender.AAC_HEADER, AacPlan(blocks), i);
    assert s.video.sent + [] == s.video.sent;
    FileReassembles(units);
    assert |s.outcomes| == |blocks| by { assert AacPlan(blocks)[|s.outcomes|..] == []; }
    SelectAll(blocks, s.outcomes);
    assert blocks[..|blocks|] == blocks;
  }

  lemma RawsDescribable(frames: seq<AdtsFrame>)
    requires AllWellFormed(frames)
    ensures Describable(Raws(frames[..Reach(frames, 0)]))
  {
    hide Reach;
    var blocks := Raws(frames[..Reach(frames, 0)]);
    forall k | 0 <= k < |blocks|
      ensures |blocks[k]| < 0x2000
    {
      assert WellFormed(frames[k]);
    }
  }

  /**
   Any two files end to end. For every video file and every file of well-formed ADTS frames,
   whatever the two buffers held at first and however the sends of the two threads interleave, a
   complete run hands the receiver of the one stream, up to trailing zeros, the units of the video
   file as far as they fit the window (if all fit: every unit that a start code follows, and
   perhaps the last), and the raw blocks of all frames the frame buffer has room for.
   */
  lemma AnyFilesEndToEnd(buf: Buffer, file: seq<byte>, frameBuf: FrameBuffer, frames: seq<AdtsFrame>,
                         states: seq<State>, events: seq<Event>, i: nat)
    requires AllCarried(Split(buf, file).units) && AllWellFormed(frames)
    requires
      var video, audio := Split(buf, file).units, Run(frameBuf, 0, FileBytes(frames)).blocks;
      IsRun(states, events) && states[0] == Begin(video, audio)
    requires i < |states| && Complete(states[i])
    ensures
      var s := states[i];
      && s.wire.Tcp?
      && ReceiveVideo(s.wire.stream).Receiver?
      && ReceiveVideo(s.wire.stream).partial.None?
      && AsFarAsFit(FileUnits(file), TrimAll(ReceiveVideo(s.wire.stream).units))
      && ReceiveAudio(s.wire.stream) == Some(Raws(frames[..Reach(frames, 0)]))
  {
    hide ReceiveVideo, ReceiveAudio, Carried, IsRun, Run, Split, Reach, FileUnits, AsFarAsFit, Complete, Begin, WellFormed;
    var units, blocks := Split(buf, file).units, Raws(frames[..Reach(frames, 0)]);
    RunOfFrames(frameBuf, 0, frames);
    RawsDescribable(frames);
    CompleteRun(units, blocks, states, events, i);
    TrimArrivals(units);
    CutAgrees(buf, file);
  }

  /**
   The exact case. For every clean Annex B file of carried units and every file of well-formed
   ADTS frames, a complete run hands the receiver precisely the NAL units the server sends,
   without their trailing zeros, and the raw blocks of all frames the frame buffer has room for.
   */
  lemma FilesEndToEnd(buf: Buffer, units: seq<NalUnit>, frameBuf: FrameBuffer, frames: seq<AdtsFrame>,
                      states: seq<State>, events: seq<Event>, i: nat)
    requires CleanFile(units) && AllCarried(units) && AllWellFormed(frames)
    requires
      var video, audio := Split(buf, Assemble(units)).units, Run(frameBuf, 0, FileBytes(frames)).blocks;
      IsRun(states, events) && states[0] == Begin(video, audio)
    requires i < |states| && Complete(states[i])
    ensures
      var s := states[i];
      && s.wire.Tcp?
      && ReceiveVideo(s.wire.stream).Receiver?
      && ReceiveVideo(s.wire.stream).partial.None?
      && TrimAll(ReceiveVideo(s.wire.stream).units) == Bodies(SentUnits(buf, units))
      && ReceiveAudio(s.wire.stream) == Some(Raws(frames[..Reach(frames, 0)]))
  {
    hide Receive, Carried, Clean, FilePlan, IsRun, DecodeAll, Reassemble, Run, Split, Reach, Fits, Complete, LastIsSent;
    var sent, blocks := SentUnits(buf, units), Raws(frames[..Reach(frames, 0)]);
    SplitClean(buf, units);
    RunOfFrames(frameBuf, 0, frames);
    RawsDescribable(frames);
    CompleteRun(sent, blocks, states, events, i);
    ArrivalsTrim(sent);
  }
}
