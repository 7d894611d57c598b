/**
 The logger: any number of producer threads push entries, one consumer thread writes them to the
 current file and rotates it. Every step below is one uninterrupted access to the shared state.
 */
module LogQueue {
  import opened Bytes

  /** Where the consumer thread stands in its loops. */
  datatype Consumer =
    | AtLoop                  // about to read m_running
    | SawStopped              // read m_running as false, about to look at the queue
    | Waiting                 // in the condition variable's wait
    | AtQueue                 // about to look at the queue in the inner loop
    | Popping                 // saw an entry in the queue
    | Holding(entry: string)  // took it out
    | Written                 // wrote it, about to compare the length with the limit
    | Exited
    | Threw(lost: Option<string>)

  /** A stretch of writing between two rotations. */
  datatype Segment = Segment(file: string, entries: seq<string>)

  /**
   pushed is everything producers ever queued; unseen is what they queued after the consumer
   found the queue empty for the last time.
   */
  datatype State = State(
    filename: string, max: int,
    queue: seq<string>, len: int, running: bool, consumer: Consumer,
    closed: seq<Segment>, current: Segment,
    pushed: seq<string>, unseen: seq<string>)

  datatype Step =
    | Count(size: nat)        // a producer adds the size of its header to m_len
    | Push(header: string, content: string) // a producer queues its entry
    | Stop                    // m_running becomes false
    | Consume(stream: Stream) // the consumer's next step

  /** How the output stream behaves: it works, a write finds it failed, or a rotated file cannot be opened. */
  datatype Stream = Works(stamp: string, size: nat) | Failed

  // ----- Entries -----

  /** What log queues: a format that expands to nothing leaves the whole entry empty, header and all. */
  function LogEntry(header: string, content: string): string {
    if content == "" then "" else header + content + "\n"
  }

  const SUFFIX := ".log"

  predicate SuffixAt(name: string, at: nat) {
    at + 4 <= |name| && name[at..at + 4] == SUFFIX
  }

  /** The first position of ".log" in a file name. */
  function FindSuffix(name: string, from: nat): (at: Option<nat>)
    requires from <= |name|
    ensures at.Some? ==> from <= at.value && SuffixAt(name, at.value)
    ensures at.Some? ==> forall j :: from <= j < at.value ==> !SuffixAt(name, j)
    ensures at.None? ==> forall j :: from <= j ==> !SuffixAt(name, j)
    decreases |name| - from
  {
    if |name| - from < 4 then None
    else if SuffixAt(name, from) then Some(from)
    else FindSuffix(name, from + 1)
  }

  /** The name rotate opens: the time stamp goes in front of the suffix, if there is one. */
  function RotatedName(name: string, stamp: string): string {
    match FindSuffix(name, 0)
    case None => name
    case Some(p) => name[..p] + stamp + name[p..]
  }

  /** With ".log" first behind a, the time stamp goes between them; a name without it stays. */
  lemma RotatedMeaning(a: string, b: string, name: string, stamp: string)
    requires name == a + ".log" + b
    requires forall j :: 0 <= j < |a| ==> name[j] != '.' || name[j + 1..j + 4] != "log"
    ensures RotatedName(name, stamp) == a + stamp + ".log" + b
  {
    assert SuffixAt(name, |a|) by { assert name[|a|..|a| + 4] == ".log"; }
    forall j | 0 <= j < |a|
      ensures !SuffixAt(name, j)
    {
      assert name[j..j + 4][0] == name[j] && name[j..j + 4][1..] == name[j + 1..j + 4];
    }
    assert FindSuffix(name, 0) == Some(|a|);
    assert name[..|a|] == a && name[|a|..] == ".log" + b;
  }

  // ----- Steps -----

  function ConsumerStep(s: State, stream: Stream): State
    requires CanConsume(s)
  {
    match s.consumer
    case AtLoop => s.(consumer := if s.running then Waiting else SawStopped)
    case SawStopped => s.(consumer := if s.queue != [] then Waiting else Exited)
    case Waiting => s.(consumer := AtQueue)
    case AtQueue => s.(consumer := if s.queue != [] then Popping else AtLoop)
    case Popping => s.(consumer := Holding(s.queue[0]), queue := s.queue[1..])
    case Holding(entry) =>
      if stream.Failed? then s.(consumer := Threw(Some(entry)))
      else s.(consumer := Written, current := s.current.(entries := s.current.entries + [entry]))
    case Written =>
      if s.len >= s.max && s.max > 0 then Rotate(s, stream) else s.(consumer := AtQueue)
  }

  function Rotate(s: State, stream: Stream): State {
    match stream
    case Failed => s.(consumer := Threw(None))
    case Works(stamp, size) =>
      s.(consumer := AtQueue, closed := s.closed + [s.current],
         current := Segment(RotatedName(s.filename, stamp), []), len := size)
  }

  /** The wait lets the consumer through when there is work or the logger has stopped. */
  predicate CanConsume(s: State) {
    match s.consumer
    case Waiting => s.queue != [] || !s.running
    case Popping => s.queue != []
    case Exited => false
    case Threw(_) => false
    case _ => true
  }

  predicate Enabled(s: State, step: Step) {
    step.Consume? ==> CanConsume(s)
  }

  function Next(s: State, step: Step): State
    requires Enabled(s, step)
  {
    match step
    case Count(size) => s.(len := s.len + size)
    case Push(header, content) =>
      var entry := LogEntry(header, content);
      s.(queue := s.queue + [entry], pushed := s.pushed + [entry],
         unseen := if s.consumer.Exited? then s.unseen + [entry] else s.unseen)
    case Stop => s.(running := false)
    case Consume(stream) => ConsumerStep(s, stream)
  }

  function Start(filename: string, max: int, size: nat): State {
    State(filename, max, [], size, true, AtLoop, [], Segment(filename, []), [], [])
  }

  predicate IsRun(states: seq<State>, steps: seq<Step>) {
    && |states| == |steps| + 1
    && forall i :: 0 <= i < |steps| ==> Enabled(states[i], steps[i]) && states[i + 1] == Next(states[i], steps[i])
  }

  // ----- What every step keeps -----

  function Entries(segments: seq<Segment>): seq<string> {
    if segments == [] then []
    else Entries(segments[..|segments| - 1]) + segments[|segments| - 1].entries
  }

  /** Everything written, across all files, in the order it was written. */
  function AllWritten(s: State): seq<string> {
    Entries(s.closed) + s.current.entries
  }

  function InHand(s: State): seq<string> {
    match s.consumer
    case Holding(entry) => [entry]
    case Threw(Some(entry)) => [entry]
    case _ => []
  }

  ghost predicate Inv(s: State) {
    && s.pushed == AllWritten(s) + InHand(s) + s.queue
    && (s.consumer.Popping? ==> s.queue != [])
    && (s.consumer.SawStopped? || s.consumer.Exited? ==> !s.running)
    && (if s.consumer.Exited? then s.queue == s.unseen else s.unseen == [])
  }

  lemma EntriesOneMore(segments: seq<Segment>, last: Segment)
    ensures Entries(segments + [last]) == Entries(segments) + last.entries
  {}

  lemma PushKeeps(s: State, header: string, content: string)
    requires Inv(s)
    ensures Inv(Next(s, Push(header, content)))
  {}

  lemma TakeKeeps(s: State, stream: Stream)
    requires Inv(s) && s.consumer.Popping?
    ensures Inv(ConsumerStep(s, stream))
  {}

  lemma WriteKeeps(s: State, stream: Stream)
    requires Inv(s) && s.consumer.Holding?
    ensures Inv(ConsumerStep(s, stream))
  {}

  lemma RotateKeeps(s: State, stream: Stream)
    requires Inv(s) && s.consumer.Written?
    ensures Inv(ConsumerStep(s, stream))
  {
    hide RotatedName, Entries;
    EntriesOneMore(s.closed, s.current);
    var s', w := ConsumerStep(s, stream), AllWritten(s);
    assert w + [] == w;
    assert AllWritten(s') == w;
  }

  lemma ConsumeKeeps(s: State, stream: Stream)
    requires Inv(s) && CanConsume(s)
    ensures Inv(ConsumerStep(s, stream))
  {
    match s.consumer
    case Popping => TakeKeeps(s, stream);
    case Holding(_) => WriteKeeps(s, stream);
    case Written => RotateKeeps(s, stream);
    case _ =>
  }

  lemma {:induction false} RunKeeps(states: seq<State>, steps: seq<Step>, filename: string, max: int, size: nat, i: nat)
    requires IsRun(states, steps) && states[0] == Start(filename, max, size)
    requires i < |states|
    ensures Inv(states[i])
  {
    hide Inv, Start, Next, Enabled;
    if i == 0 {
      StartInv(filename, max, size);
    } else {
      RunKeeps(states, steps, filename, max, size, i - 1);
      NextKeeps(states[i - 1], steps[i - 1]);
    }
  }

  lemma StartInv(filename: string, max: int, size: nat)
    ensures Inv(Start(filename, max, size))
  {}

  lemma NextKeeps(s: State, step: Step)
    requires Inv(s) && Enabled(s, step)
    ensures Inv(Next(s, step))
  {
    match step
    case Push(header, content) => PushKeeps(s, header, content);
    case Consume(stream) => ConsumeKeeps(s, stream);
    case _ =>
  }

  /** The messages logged, as they are to be written: header, content and line end, or nothing at all. */
  function Logged(steps: seq<Step>): seq<string> {
    if steps == [] then []
    else
      var step := steps[|steps| - 1];
      Logged(steps[..|steps| - 1])
      + if !step.Push? then []
        else if step.content == "" then [""]
        else [step.header + step.content + "\n"]
  }

  lemma {:induction false} PushedMeaning(states: seq<State>, steps: seq<Step>,
                                         filename: string, max: int, size: nat, i: nat)
    requires IsRun(states, steps) && states[0] == Start(filename, max, size)
    requires i < |states|
    ensures states[i].pushed == Logged(steps[..i])
  {
    hide RotatedName;
    if i > 0 {
      PushedMeaning(states, steps, filename, max, size, i - 1);
      assert states[i] == Next(states[i - 1], steps[i - 1]);
      assert steps[..i][..i - 1] == steps[..i - 1];
    }
  }

  /**
   Over every interleaving of producers, stopper and consumer, and every rotation: the messages
   logged are what was written across all files, then what the consumer holds, then what is still
   queued, in that order.
   */
  lemma FifoAcrossFiles(states: seq<State>, steps: seq<Step>, filename: string, max: int, size: nat, i: nat)
    requires IsRun(states, steps) && states[0] == Start(filename, max, size)
    requires i < |states|
    ensures Logged(steps[..i]) == AllWritten(states[i]) + InHand(states[i]) + states[i].queue
  {
    hide IsRun, Start, AllWritten, InHand;
    RunKeeps(states, steps, filename, max, size, i);
    PushedMeaning(states, steps, filename, max, size, i);
  }

  // ----- Rotation -----

  /** The step closes the current file: an entry was just written and the length has reached the limit. */
  predicate Rotates(s: State, step: Step) {
    step.Consume? && step.stream.Works? && s.consumer.Written? && 0 < s.max <= s.len
  }

  /**
   A step closes the file exactly then, with all its entries, and goes on with an empty stretch of
   the renamed one; the length starts over there, and otherwise moves only by what is counted.
   */
  lemma RotatesExactly(s: State, step: Step)
    requires Enabled(s, step)
    ensures
      var s' := Next(s, step);
      && s'.closed == (if Rotates(s, step) then s.closed + [s.current] else s.closed)
      && (Rotates(s, step) ==> s'.current == Segment(RotatedName(s.filename, step.stream.stamp), []))
      && (!Rotates(s, step) ==> s'.current.file == s.current.file && s.current.entries <= s'.current.entries)
      && s'.len == if Rotates(s, step) then step.stream.size else if step.Count? then s.len + step.size else s.len
  {
    hide RotatedName;
  }

  /** No file is closed without an entry in it. */
  ghost predicate NoneEmpty(s: State) {
    && (forall k :: 0 <= k < |s.closed| ==> s.closed[k].entries != [])
    && (s.consumer.Written? ==> s.current.entries != [])
  }

  lemma {:induction false} ClosedFilesHoldEntries(states: seq<State>, steps: seq<Step>,
                                                  filename: string, max: int, size: nat, i: nat)
    requires IsRun(states, steps) && states[0] == Start(filename, max, size)
    requires i < |states|
    ensures NoneEmpty(states[i])
  {
    hide RotatedName, LogEntry;
    if i > 0 {
      ClosedFilesHoldEntries(states, steps, filename, max, size, i - 1);
      assert states[i] == Next(states[i - 1], steps[i - 1]);
    }
  }

  // ----- Draining -----

  /** Steps the consumer has left at most, if it is let run alone. */
  function Distance(s: State): nat {
    20 * |s.queue| +
    match s.consumer
    case AtLoop => if s.queue != [] then 10 else 6
    case SawStopped => if s.queue != [] then 9 else 5
    case Waiting => if s.queue == [] && s.running then 0 else 8
    case AtQueue => 7
    case Popping => 1
    case Holding(_) => 15
    case Written => 14
    case _ => 0
  }

  /** The consumer waits for more work or has left, and everything is written. */
  predicate Idle(s: State) {
    s.queue == [] && if s.running then s.consumer.Waiting? else s.consumer.Exited?
  }

  lemma ConsumerCloser(s: State, stream: Stream)
    requires Inv(s) && stream.Works? && !Idle(s) && !s.consumer.Exited? && !s.consumer.Threw?
    ensures CanConsume(s)
    ensures
      var s' := ConsumerStep(s, stream);
      && Distance(s') < Distance(s) && s'.pushed == s.pushed && s'.running == s.running
      && !s'.consumer.Threw? && (s'.consumer.Exited? ==> Idle(s'))
  {
    hide RotatedName, AllWritten;
  }

  /**
   The logger does write: let run alone with a stream that works, the consumer gets from any state
   to where everything logged is written, and then waits, or leaves if the logger was stopped.
   */
  lemma {:induction false} Drains(s: State, stream: Stream) returns (states: seq<State>, steps: seq<Step>)
    requires Inv(s) && stream.Works? && !s.consumer.Exited? && !s.consumer.Threw?
    ensures IsRun(states, steps) && states[0] == s
    ensures forall i :: 0 <= i < |steps| ==> steps[i] == Consume(stream)
    ensures Idle(states[|steps|]) && AllWritten(states[|steps|]) == s.pushed
    decreases Distance(s)
  {
    hide Inv, ConsumerStep, Distance, AllWritten, CanConsume;
    if Idle(s) {
      states, steps := [s], [];
      assert AllWritten(s) == s.pushed by { IdleWritten(s); }
    } else {
      ConsumerCloser(s, stream);
      ConsumeKeeps(s, stream);
      var s' := ConsumerStep(s, stream);
      if s'.consumer.Exited? {
        states, steps := [s, s'], [Consume(stream)];
        IdleWritten(s');
      } else {
        var more, rest := Drains(s', stream);
        states, steps := [s] + more, [Consume(stream)] + rest;
        forall i | 0 <= i < |steps|
          ensures Enabled(states[i], steps[i]) && states[i + 1] == Next(states[i], steps[i])
        {
          if i > 0 {
            assert states[i] == more[i - 1] && states[i + 1] == more[i] && steps[i] == rest[i - 1];
          }
        }
      }
    }
  }

  lemma IdleWritten(s: State)
    requires Inv(s) && Idle(s)
    ensures AllWritten(s) == s.pushed
  {
    assert AllWritten(s) + [] + [] == AllWritten(s);
  }

  /** What is unseen are the entries queued after the consumer had exited. */
  lemma {:induction false} UnseenMeaning(states: seq<State>, steps: seq<Step>,
                                         filename: string, max: int, size: nat, i: nat)
    requires IsRun(states, steps) && states[0] == Start(filename, max, size)
    requires i < |states|
    ensures states[i].unseen == [] <==> forall j :: 0 <= j < i && states[j].consumer.Exited? ==> !steps[j].Push?
  {
    hide LogEntry, RotatedName;
    if i > 0 {
      UnseenMeaning(states, steps, filename, max, size, i - 1);
      var s, step := states[i - 1], steps[i - 1];
      assert states[i] == Next(s, step);
      if s.consumer.Exited? && step.Push? {
        assert states[i].unseen != [];
      } else {
        assert states[i].unseen == s.unseen;
      }
    }
  }

  /** Once the consumer has exited, everything is written exactly if no producer queued anything since. */
  lemma ExitWritesAll(states: seq<State>, steps: seq<Step>, filename: string, max: int, size: nat, i: nat)
    requires IsRun(states, steps) && states[0] == Start(filename, max, size)
    requires i < |states| && states[i].consumer.Exited?
    ensures AllWritten(states[i]) == Logged(steps[..i])
       <==> forall j :: 0 <= j < i && states[j].consumer.Exited? ==> !steps[j].Push?
  {
    var s := states[i];
    UnseenMeaning(states, steps, filename, max, size, i);
    PushedMeaning(states, steps, filename, max, size, i);
    hide IsRun;
    RunKeeps(states, steps, filename, max, size, i);
    assert AllWritten(s) + [] == AllWritten(s);
    if s.unseen != [] {
      assert |AllWritten(s) + s.unseen| > |AllWritten(s)|;
    }
  }

  /** The logger runs until it is stopped, and never again. */
  lemma {:induction false} RunningMeaning(states: seq<State>, steps: seq<Step>,
                                          filename: string, max: int, size: nat, i: nat)
    requires IsRun(states, steps) && states[0] == Start(filename, max, size)
    requires i < |states|
    ensures states[i].running <==> forall j :: 0 <= j < i ==> !steps[j].Stop?
  {
    hide LogEntry, RotatedName;
    if i > 0 {
      RunningMeaning(states, steps, filename, max, size, i - 1);
      assert states[i] == Next(states[i - 1], steps[i - 1]);
    }
  }

  /** A logger nobody writes to after stopping it loses nothing. */
  lemma NoLateEntries(states: seq<State>, steps: seq<Step>, filename: string, max: int, size: nat, i: nat)
    requires IsRun(states, steps) && states[0] == Start(filename, max, size)
    requires i < |states| && states[i].consumer.Exited?
    requires forall j, k :: 0 <= k < j < i && steps[k].Stop? ==> !steps[j].Push?
    ensures AllWritten(states[i]) == Logged(steps[..i])
  {
    hide IsRun, Start, AllWritten, InHand;
    ExitWritesAll(states, steps, filename, max, size, i) by { IsRunLength(states, steps); }
    IsRunLength(states, steps);
    forall j | 0 <= j < i && states[j].consumer.Exited?
      ensures !steps[j].Push?
    {
      RunKeeps(states, steps, filename, max, size, j);
      RunningMeaning(states, steps, filename, max, size, j);
    }
  }

  lemma IsRunLength(states: seq<State>, steps: seq<Step>)
    requires IsRun(states, steps)
    ensures |states| == |steps| + 1
  {}
}
