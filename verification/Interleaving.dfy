/**
 Two threads, one TCP connection: the video thread sends on channel 0 and the audio thread on
 channel 2, in any order the scheduler picks. A step is one send, complete or failed.
 */
module Interleaving {
  import opened Bytes
  import opened Rtp
  import opened Transmission
  import opened AacStream

  const VIDEO: byte := 0
  const AUDIO: byte := 2

  /** A thread's header, what it has put on the wire, and what it still has to send. */
  datatype Thread = Thread(header: RtpHeader, sent: Plan, pending: Plan)

  /** aborted: a video send failed. outcomes: which of the audio sends so far succeeded. */
  datatype State = State(wire: Wire, video: Thread, aborted: bool, audio: Thread, outcomes: seq<bool>)

  datatype Event = VideoSent | VideoFailed | AudioSent | AudioFailed

  function Start(hv: RtpHeader, video: Plan, ha: RtpHeader, audio: Plan): State {
    State(Tcp([]), Thread(hv, [], video), false, Thread(ha, [], audio), [])
  }

  predicate Enabled(s: State, e: Event) {
    match e
    case VideoSent => s.video.pending != []
    case VideoFailed => s.video.pending != []
    case AudioSent => s.audio.pending != []
    case AudioFailed => s.audio.pending != []
  }

  /** A successful send: one packet under the thread's header, which then moves on. */
  function Sent(t: Thread): Thread
    requires t.pending != []
  {
    Thread(Advance(t.header, 1, t.pending[0].tick), t.sent + [t.pending[0]], t.pending[1..])
  }

  function NextPacket(t: Thread): seq<byte>
    requires t.pending != []
  {
    PacketBytes(t.header, t.pending[0].payload)
  }

  /** A failed video send ends the video thread; a failed audio send only loses its frame. */
  function Next(s: State, e: Event): State
    requires Enabled(s, e)
  {
    match e
    case VideoSent => s.(wire := Deliver(s.wire, VIDEO, NextPacket(s.video)), video := Sent(s.video))
    case VideoFailed => s.(video := s.video.(pending := []), aborted := true)
    case AudioSent => s.(wire := Deliver(s.wire, AUDIO, NextPacket(s.audio)), audio := Sent(s.audio),
                         outcomes := s.outcomes + [true])
    case AudioFailed => s.(audio := s.audio.(pending := s.audio.pending[1..]), outcomes := s.outcomes + [false])
  }

  /** The states a run passes through, from its first to its last. */
  predicate IsRun(states: seq<State>, events: seq<Event>) {
    && |states| == |events| + 1
    && forall i :: 0 <= i < |events| ==> Enabled(states[i], events[i]) && states[i + 1] == Next(states[i], events[i])
  }

  // ----- What every step keeps -----

  /** The wire carries exactly the packets each thread has sent, each on its channel, in order. */
  ghost predicate WireInv(s: State, hv: RtpHeader, ha: RtpHeader) {
    && s.wire.Tcp?
    && Deframe(s.wire.stream).Some?
    && OnChannel(VIDEO, Deframe(s.wire.stream).value) == PacketsOf(hv, s.video.sent)
    && OnChannel(AUDIO, Deframe(s.wire.stream).value) == PacketsOf(ha, s.audio.sent)
  }

  ghost predicate ThreadInv(t: Thread, h: RtpHeader) {
    t.header == HeaderAfter(h, t.sent)
  }

  /** A thread has sent a prefix of its plan, or for audio the part whose sends succeeded. */
  ghost predicate PlanInv(s: State, video: Plan, audio: Plan) {
    && s.video.sent <= video
    && (if s.aborted then s.video.pending == [] else s.video.sent + s.video.pending == video)
    && |s.outcomes| <= |audio|
    && s.audio.pending == audio[|s.outcomes|..]
    && s.audio.sent == Select(audio[..|s.outcomes|], s.outcomes)
  }

  ghost predicate Inv(s: State, hv: RtpHeader, video: Plan, ha: RtpHeader, audio: Plan) {
    && WireInv(s, hv, ha)
    && ThreadInv(s.video, hv) && ThreadInv(s.audio, ha)
    && PlanInv(s, video, audio)
  }

  lemma StartInv(hv: RtpHeader, video: Plan, ha: RtpHeader, audio: Plan)
    ensures Inv(Start(hv, video, ha, audio), hv, video, ha, audio)
  {}

  lemma PlanStep(s: State, e: Event, video: Plan, audio: Plan)
    requires PlanInv(s, video, audio) && Enabled(s, e)
    ensures PlanInv(Next(s, e), video, audio)
  {
    hide Deliver, NextPacket, Advance;
    match e
    case VideoSent =>
      var t := s.video;
      assert t.sent + [t.pending[0]] + t.pending[1..] == video;
    case VideoFailed =>
    case AudioSent => AudioOutcome(s, audio, true);
    case AudioFailed => AudioOutcome(s, audio, false);
  }

  lemma AudioOutcome(s: State, audio: Plan, ok: bool)
    requires |s.outcomes| < |audio|
    ensures Select(audio[..|s.outcomes| + 1], s.outcomes + [ok])
         == Select(audio[..|s.outcomes|], s.outcomes) + if ok then [audio[|s.outcomes|]] else []
  {
    var n := |s.outcomes|;
    SelectOneMore(audio[..n], s.outcomes, audio[n], ok);
    assert audio[..n + 1] == audio[..n] + [audio[n]];
  }

  lemma ThreadStep(t: Thread, h: RtpHeader)
    requires ThreadInv(t, h) && t.pending != []
    ensures ThreadInv(Sent(t), h)
    ensures PacketsOf(h, Sent(t).sent) == PacketsOf(h, t.sent) + [NextPacket(t)]
  {}

  /** One more frame on the stream is one more packet on its channel and none on any other. */
  lemma FrameOnChannel(stream: seq<byte>, c: Chunk, channel: byte)
    requires Deframe(stream).Some? && |c.packet| < 0x1_0000
    ensures Deframe(stream + Interleaved(c)).Some?
    ensures OnChannel(channel, Deframe(stream + Interleaved(c)).value)
         == OnChannel(channel, Deframe(stream).value) + if c.channel == channel then [c.packet] else []
  {
    hide Interleaved, Deframe;
    DeframeAppend(stream, c);
    var chunks := Deframe(stream).value;
    assert (chunks + [c])[..|chunks|] == chunks;
  }

  predicate Small(plan: Plan) {
    forall i :: 0 <= i < |plan| ==> |plan[i].payload| + RTP_HEADER_SIZE < 0x1_0000
  }

  lemma WireStep(s: State, e: Event, hv: RtpHeader, ha: RtpHeader)
    requires WireInv(s, hv, ha) && ThreadInv(s.video, hv) && ThreadInv(s.audio, ha) && Enabled(s, e)
    requires Small(s.video.pending) && Small(s.audio.pending)
    ensures WireInv(Next(s, e), hv, ha)
    ensures ThreadInv(Next(s, e).video, hv) && ThreadInv(Next(s, e).audio, ha)
  {
    hide Interleaved, Deframe, OnChannel, PacketsOf, HeaderAfter, Advance;
    match e
    case VideoSent =>
      PacketShape(s.video.header, s.video.pending[0].payload);
      ThreadStep(s.video, hv);
      hide NextPacket;
      FrameOnChannel(s.wire.stream, Chunk(VIDEO, NextPacket(s.video)), VIDEO);
      FrameOnChannel(s.wire.stream, Chunk(VIDEO, NextPacket(s.video)), AUDIO);
    case AudioSent =>
      PacketShape(s.audio.header, s.audio.pending[0].payload);
      ThreadStep(s.audio, ha);
      hide NextPacket;
      FrameOnChannel(s.wire.stream, Chunk(AUDIO, NextPacket(s.audio)), VIDEO);
      FrameOnChannel(s.wire.stream, Chunk(AUDIO, NextPacket(s.audio)), AUDIO);
    case VideoFailed =>
    case AudioFailed =>
  }

  lemma StepInv(s: State, e: Event, hv: RtpHeader, video: Plan, ha: RtpHeader, audio: Plan)
    requires Inv(s, hv, video, ha, audio) && Enabled(s, e)
    requires Small(video) && Small(audio)
    ensures Inv(Next(s, e), hv, video, ha, audio)
  {
    hide WireInv, ThreadInv, Next, Enabled;
    if s.video.pending != [] {
      assert forall i :: 0 <= i < |s.video.pending| ==> s.video.pending[i] == video[|s.video.sent| + i];
    }
    PlanStep(s, e, video, audio);
    WireStep(s, e, hv, ha);
  }

  /** The invariant holds in every state of every run. */
  lemma {:induction false} RunInv(states: seq<State>, events: seq<Event>,
                                  hv: RtpHeader, video: Plan, ha: RtpHeader, audio: Plan, i: nat)
    requires IsRun(states, events) && states[0] == Start(hv, video, ha, audio)
    requires Small(video) && Small(audio)
    requires i < |states|
    ensures Inv(states[i], hv, video, ha, audio)
    decreases i
  {
    hide Inv, Next, Start, Small;
    if i == 0 {
      StartInv(hv, video, ha, audio);
    } else {
      RunInv(states, events, hv, video, ha, audio, i - 1);
      StepInv(states[i - 1], events[i - 1], hv, video, ha, audio);
    }
  }

  /**
   Separation: in every state of every run, a receiver of the one stream finds on each channel
   exactly the payloads its thread has sent, in order, nothing lost and nothing mixed in.
   */
  lemma Separation(states: seq<State>, events: seq<Event>,
                   hv: RtpHeader, video: Plan, ha: RtpHeader, audio: Plan, i: nat)
    requires IsRun(states, events) && states[0] == Start(hv, video, ha, audio)
    requires Small(video) && Small(audio) && Plain(hv) && Plain(ha)
    requires i < |states|
    ensures
      var s := states[i];
      && s.wire.Tcp?
      && Receive(VIDEO, s.wire.stream) == Some(Payloads(s.video.sent))
      && Receive(AUDIO, s.wire.stream) == Some(Payloads(s.audio.sent))
      && PlanInv(s, video, audio)
  {
    hide Deframe, OnChannel, PacketsOf, ParsePayloads, PlanInv, IsRun, Start, Small, Payloads;
    RunInv(states, events, hv, video, ha, audio, i);
    PayloadsParse(hv, states[i].video.sent);
    PayloadsParse(ha, states[i].audio.sent);
  }

  // ----- One thread alone -----

  predicate OfVideo(e: Event) {
    e == VideoSent || e == VideoFailed
  }

  /** Runs of one thread alone put on the wire what the sender loops are proved to put there. */
  lemma {:induction false} Solo(states: seq<State>, events: seq<Event>,
                                hv: RtpHeader, video: Plan, ha: RtpHeader, audio: Plan, i: nat)
    requires IsRun(states, events) && states[0] == Start(hv, video, ha, audio)
    requires i < |states|
    ensures (forall k :: 0 <= k < i ==> OfVideo(events[k])) ==>
      ThreadInv(states[i].video, hv) && states[i].wire == Transmit(Tcp([]), VIDEO, hv, states[i].video.sent)
    ensures (forall k :: 0 <= k < i ==> !OfVideo(events[k])) ==>
      ThreadInv(states[i].audio, ha) && states[i].wire == Transmit(Tcp([]), AUDIO, ha, states[i].audio.sent)
    decreases i
  {
    if i == 0 {
      NothingSent(Tcp([]), VIDEO, hv);
      NothingSent(Tcp([]), AUDIO, ha);
    } else {
      Solo(states, events, hv, video, ha, audio, i - 1);
      hide Transmit, HeaderAfter, PacketBytes, Deliver, Advance, PacketsOf;
      var s, e := states[i - 1], events[i - 1];
      if e == VideoSent {
        OneMore(Tcp([]), VIDEO, hv, s.video.sent, s.video.pending[0]);
      } else if e == AudioSent {
        OneMore(Tcp([]), AUDIO, ha, s.audio.sent, s.audio.pending[0]);
      }
    }
  }

  // ----- Complete runs -----

  /** Both threads are through and no send has failed. */
  predicate Complete(s: State) {
    !s.aborted && s.video.pending == [] && s.audio.pending == [] && false !in s.outcomes
  }

  /** From every state in which no send has failed, some run completes. */
  lemma {:induction false} CompletionExists(s: State) returns (states: seq<State>, events: seq<Event>)
    requires !s.aborted && false !in s.outcomes
    ensures IsRun(states, events) && states[0] == s && Complete(states[|events|])
    decreases |s.video.pending| + |s.audio.pending|
  {
    hide Deliver, NextPacket, Advance;
    if s.video.pending == [] && s.audio.pending == [] {
      states, events := [s], [];
    } else {
      var e := if s.video.pending != [] then VideoSent else AudioSent;
      var more, rest := CompletionExists(Next(s, e));
      states, events := [s] + more, [e] + rest;
      assert forall i :: 0 <= i < |more| ==> states[i + 1] == more[i];
      forall i | 0 <= i < |events|
        ensures Enabled(states[i], events[i]) && states[i + 1] == Next(states[i], events[i])
      {
        if i > 0 {
          assert states[i] == more[i - 1] && events[i] == rest[i - 1];
        }
      }
    }
  }
}
