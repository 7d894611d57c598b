/**
 The windowed splitter of an Annex B byte stream (H.264 section B.1).

 The server reads a window of the file, looks for the next start code behind the one at the
 front, and moves the file position back to it. The scan runs up to four octets past what was
 read, over octets left in the buffer by earlier windows; the buffer is modelled with the four
 octets of memory that follow it, which no read ever fills.
 */
module AnnexB {
  import opened Bytes

  const H264_FILE_BUFFER: nat := 650000
  const OVERSCAN: nat := 4

  /** One NAL unit behind a start code of three or four octets. */
  datatype NalUnit = NalUnit(long: bool, body: seq<byte>)

  function StartCode(long: bool): (code: seq<byte>)
    ensures |code| == if long then 4 else 3
  {
    if long then [0, 0, 0, 1] else [0, 0, 1]
  }

  predicate StartCode3(rec: seq<byte>, at: nat)
    requires at + 3 <= |rec|
  {
    rec[at] == 0x00 && rec[at + 1] == 0x00 && rec[at + 2] == 0x01
  }

  predicate StartCode4(rec: seq<byte>, at: nat)
    requires at + 4 <= |rec|
  {
    rec[at] == 0x00 && rec[at + 1] == 0x00 && rec[at + 2] == 0x00 && rec[at + 3] == 0x01
  }

  predicate CodeAt(rec: seq<byte>, at: nat)
    requires at + 4 <= |rec|
  {
    StartCode3(rec, at) || StartCode4(rec, at)
  }

  /** Length of the start code at the front of the window; 0 if there is none. */
  function Step(rec: seq<byte>): (step: nat)
    requires |rec| >= 4
    ensures step in {0, 3, 4}
  {
    if StartCode3(rec, 0) then 3 else if StartCode4(rec, 0) then 4 else 0
  }

  /** The least position from `from` up to `limit` at which a start code begins. */
  function FindCode(rec: seq<byte>, from: nat, limit: nat): (found: Option<nat>)
    requires from <= limit && limit + 3 <= |rec|
    ensures found.None? ==> forall j :: from <= j < limit ==> !CodeAt(rec, j)
    ensures found.Some? ==> from <= found.value < limit && CodeAt(rec, found.value)
    ensures found.Some? ==> forall j :: from <= j < found.value ==> !CodeAt(rec, j)
    decreases limit - from
  {
    if from == limit then None
    else if CodeAt(rec, from) then Some(from)
    else FindCode(rec, from + 1, limit)
  }

  type Buffer = rec: seq<byte> | |rec| == H264_FILE_BUFFER + OVERSCAN
    witness seq(H264_FILE_BUFFER + OVERSCAN, _ => 0)

  /** The end of the first unit of a window into which size octets were read. */
  function Extract(rec: Buffer, size: nat): (end: Option<nat>)
    requires size <= H264_FILE_BUFFER
    ensures end.Some? ==> 3 <= Step(rec) <= end.value <= size && CodeAt(rec, end.value)
  {
    var step := Step(rec);
    if step == 0 || size <= 3 then None else FindCode(rec, step, step + size - 3)
  }

  /** The octets 0 0 1, or 0 0 0 1. */
  predicate CodeBegins(rec: seq<byte>, at: nat)
    requires at + 4 <= |rec|
  {
    rec[at..at + 3] == [0, 0, 1] || rec[at..at + 4] == [0, 0, 0, 1]
  }

  lemma SameCode(rec: seq<byte>, at: nat)
    requires at + 4 <= |rec|
    ensures CodeBegins(rec, at) <==> CodeAt(rec, at)
    ensures rec[at..at + 3] == [0, 0, 1] <==> StartCode3(rec, at)
  {
    var three, four := rec[at..at + 3], rec[at..at + 4];
    assert rec[at] == four[0] == three[0] && rec[at + 1] == four[1] == three[1];
    assert rec[at + 2] == four[2] == three[2] && rec[at + 3] == four[3];
  }

  /**
   Where a scan ends, for any contents of the buffer: behind the code at the front, at the first
   position where another one begins, of which there are three fewer than octets read.
   */
  lemma ExtractMeaning(rec: Buffer, size: nat, end: nat)
    requires size <= H264_FILE_BUFFER && end <= H264_FILE_BUFFER
    ensures
      var step := if rec[0..3] == [0, 0, 1] then 3 else 4;
      Extract(rec, size) == Some(end) <==>
        && CodeBegins(rec, 0)
        && step <= end && end + 3 < step + size
        && CodeBegins(rec, end)
        && forall j :: step <= j < end ==> !CodeBegins(rec, j)
  {
    hide StartCode3, StartCode4, CodeBegins, CodeAt;
    SameCode(rec, 0);
    assert StartCode3(rec, 0) || StartCode4(rec, 0) <==> CodeAt(rec, 0) by { CodeOfEither(rec); }
    forall j | 0 <= j <= end
      ensures CodeBegins(rec, j) <==> CodeAt(rec, j)
    {
      SameCode(rec, j);
    }
  }

  lemma CodeOfEither(rec: seq<byte>)
    requires |rec| >= 4
    ensures StartCode3(rec, 0) || StartCode4(rec, 0) <==> CodeAt(rec, 0)
  {}

  function WindowSize(rest: seq<byte>): nat {
    if |rest| <= H264_FILE_BUFFER then |rest| else H264_FILE_BUFFER
  }

  /** The buffer after fread: a prefix of the rest of the file over what the buffer held. */
  function Window(buf: Buffer, rest: seq<byte>): Buffer {
    rest[..WindowSize(rest)] + buf[WindowSize(rest)..]
  }

  /** What the file loop cuts off the rest of the file, and what it leaves. */
  datatype Cut = Cut(units: seq<NalUnit>, left: seq<byte>)

  function FirstUnit(rest: seq<byte>, step: nat, end: nat): NalUnit
    requires step <= end <= |rest|
  {
    NalUnit(step == 4, rest[step..end])
  }

  function Split(buf: Buffer, rest: seq<byte>): Cut
    decreases |rest|
  {
    if rest == [] then Cut([], []) else
      var rec := Window(buf, rest);
      match Extract(rec, WindowSize(rest))
      case None => Cut([], rest)
      case Some(end) =>
        var tail := Split(rec, rest[end..]);
        Cut([FirstUnit(rest, Step(rec), end)] + tail.units, tail.left)
  }

  function Assemble(units: seq<NalUnit>): seq<byte> {
    if units == [] then []
    else StartCode(units[0].long) + units[0].body + Assemble(units[1..])
  }

  lemma AssembleCons(u: NalUnit, units: seq<NalUnit>)
    ensures Assemble([u] + units) == StartCode(u.long) + u.body + Assemble(units)
  {}

  lemma AssembleOne(u: NalUnit)
    ensures Assemble([u]) == StartCode(u.long) + u.body
  {}

  lemma WindowSlice(buf: Buffer, rest: seq<byte>, from: nat, to: nat)
    requires from <= to <= WindowSize(rest)
    ensures Window(buf, rest)[from..to] == rest[from..to]
  {}

  // ----- Conservation -----

  lemma WindowFront(buf: Buffer, rest: seq<byte>, end: nat)
    requires end <= WindowSize(rest)
    requires Step(Window(buf, rest)) in {3, 4} && Step(Window(buf, rest)) <= end
    ensures rest[..end] == StartCode(Step(Window(buf, rest)) == 4) + FirstUnit(rest, Step(Window(buf, rest)), end).body
  {}

  /** Nothing of any file is lost or invented: codes, units and the part left over are the file. */
  lemma {:induction false} Conservation(buf: Buffer, rest: seq<byte>)
    ensures Assemble(Split(buf, rest).units) + Split(buf, rest).left == rest
    decreases |rest|
  {
    hide Step, StartCode, Assemble, Window, Extract;
    if rest == [] {
      assert Assemble([]) == [] by { NothingAssembled(); }
    } else {
      var rec := Window(buf, rest);
      var found := Extract(rec, WindowSize(rest));
      if found.Some? {
        var end := found.value;
        var tail := Split(rec, rest[end..]);
        var first := FirstUnit(rest, Step(rec), end);
        Conservation(rec, rest[end..]);
        WindowFront(buf, rest, end);
        AssembleCons(first, tail.units);
        Concatenation(rest, end, Assemble(tail.units), tail.left);
      } else {
        NothingAssembled();
      }
    }
  }

  lemma NothingAssembled()
    ensures Assemble([]) == []
  {}

  lemma Concatenation(rest: seq<byte>, end: nat, a: seq<byte>, b: seq<byte>)
    requires end <= |rest| && a + b == rest[end..]
    ensures rest[..end] + a + b == rest
  {}

  // ----- Splitting what was assembled -----

  /** No start code begins inside the unit when the next unit's code follows it. */
  predicate Scannable(body: seq<byte>, next: bool) {
    var s := body + StartCode(next);
    forall q :: 0 <= q < |body| ==> !CodeAt(s, q)
  }

  function Size(u: NalUnit): nat {
    |StartCode(u.long)| + |u.body|
  }

  /** The unit and the code behind it are seen in one window. */
  predicate Fits(u: NalUnit, next: bool) {
    Size(u) + |StartCode(next)| <= 650000
  }

  lemma CodeIsCode(rec: seq<byte>, at: nat, long: bool)
    requires at + 4 <= |rec|
    requires rec[at..at + |StartCode(long)|] == StartCode(long)
    ensures CodeAt(rec, at)
    ensures at == 0 ==> Step(rec) == |StartCode(long)|
  {
    var code := rec[at..at + |StartCode(long)|];
    assert rec[at] == code[0] && rec[at + 1] == code[1] && rec[at + 2] == code[2];
    if long {
      assert rec[at + 3] == code[3];
    }
  }

  lemma CodeMoves(rec: seq<byte>, from: nat, s: seq<byte>, at: nat)
    requires from + |s| <= |rec| && rec[from..from + |s|] == s
    requires at + 4 <= |s|
    ensures CodeAt(rec, from + at) == CodeAt(s, at)
  {}

  predicate StartsWith(rec: seq<byte>, u: NalUnit, next: bool) {
    var end := Size(u) + |StartCode(next)|;
    end <= |rec| && rec[..end] == StartCode(u.long) + (u.body + StartCode(next))
  }

  lemma Parts(rec: seq<byte>, u: NalUnit, next: bool)
    requires StartsWith(rec, u, next)
    ensures
      var step, end, s := |StartCode(u.long)|, Size(u), u.body + StartCode(next);
      && rec[0..0 + step] == StartCode(u.long)
      && rec[end..end + |StartCode(next)|] == StartCode(next)
      && rec[step..step + |s|] == s
  {}

  /** The scan of one window finds the end of its first unit, neither sooner nor later. */
  lemma ExtractFirst(rec: Buffer, size: nat, u: NalUnit, next: bool)
    requires Scannable(u.body, next)
    requires Size(u) + |StartCode(next)| <= size <= H264_FILE_BUFFER
    requires StartsWith(rec, u, next)
    ensures Step(rec) == |StartCode(u.long)| && Extract(rec, size) == Some(Size(u))
  {
    hide StartCode, StartsWith, CodeAt, Step;
    var step, end, s := |StartCode(u.long)|, Size(u), u.body + StartCode(next);
    Parts(rec, u, next);
    CodeIsCode(rec, 0, u.long);
    CodeIsCode(rec, end, next);
    forall j | step <= j < end
      ensures !CodeAt(rec, j)
    {
      CodeMoves(rec, step, s, j - step);
    }
  }

  /** What follows the first code and unit begins with the next code. */
  lemma SplitFirst(buf: Buffer, u: NalUnit, next: bool, tail: seq<byte>)
    requires Scannable(u.body, next) && Fits(u, next)
    ensures
      var rest := StartCode(u.long) + u.body + (StartCode(next) + tail);
      var cut := Split(Window(buf, rest), StartCode(next) + tail);
      Split(buf, rest) == Cut([u] + cut.units, cut.left)
  {
    hide StartCode, Extract;
    var code := StartCode(u.long);
    var rest := code + u.body + (StartCode(next) + tail);
    var rec, end := Window(buf, rest), Size(u);
    var front := end + |StartCode(next)|;
    assert rec[..front] == rest[..front];
    assert rest[..front] == code + (u.body + StartCode(next));
    ExtractFirst(rec, WindowSize(rest), u, next);
    assert rest[end..] == StartCode(next) + tail;
    assert rest[|code|..end] == u.body;
    assert FirstUnit(rest, |code|, end) == u;
  }

  /** The buffer when the window reaches the last unit. */
  function LastBuffer(buf: Buffer, units: seq<NalUnit>): Buffer
    requires units != []
    decreases |units|
  {
    if |units| == 1 then buf else LastBuffer(Window(buf, Assemble(units)), units[1..])
  }

  predicate Splittable(units: seq<NalUnit>) {
    forall i :: 0 <= i < |units| - 1 ==>
      Scannable(units[i].body, units[i + 1].long) && Fits(units[i], units[i + 1].long)
  }

  lemma AssembleFront(units: seq<NalUnit>)
    requires units != []
    ensures StartCode(units[0].long) <= Assemble(units)
  {}

  /** Every unit but the last is cut off as it was assembled, from any file and any buffer. */
  lemma {:induction false} SplitAssembled(buf: Buffer, units: seq<NalUnit>)
    requires units != [] && Splittable(units)
    ensures
      var n := |units| - 1;
      var last := Split(LastBuffer(buf, units), Assemble([units[n]]));
      Split(buf, Assemble(units)) == Cut(units[..n] + last.units, last.left)
    decreases |units|
  {
    hide StartCode, Window, Split, Scannable, Fits, Assemble;
    var n := |units| - 1;
    if n == 0 {
      assert units == [units[0]];
      assert units[..0] == [];
    } else {
      var u, next := units[0], units[1].long;
      assert units == [u] + units[1..];
      AssembleCons(u, units[1..]);
      var more := Assemble(units[1..]);
      AssembleFront(units[1..]);
      var tail := more[|StartCode(next)|..];
      assert more == StartCode(next) + tail;
      SplitFirst(buf, u, next, tail);
      assert Assemble(units) == StartCode(u.long) + u.body + (StartCode(next) + tail);
      SplitAssembled(Window(buf, Assemble(units)), units[1..]);
      assert units[1..][..n - 1] == units[1..n];
      var last := Split(LastBuffer(buf, units), Assemble([units[n]]));
      assert units[1..][n - 1] == units[n];
      assert [u] + (units[1..n] + last.units) == units[..n] + last.units;
    }
  }

  // ----- NAL units as H.264 section 7.4.1 has them, and the fate of the last one -----

  /** Not empty, not ending in 0x00, and free of the three octets that emulate a start code. */
  predicate Clean(body: seq<byte>) {
    && body != []
    && body[|body| - 1] != 0x00
    && forall i :: 0 <= i <= |body| - 3 ==> !StartCode3(body, i)
  }

  predicate CleanFile(units: seq<NalUnit>) {
    && units != []
    && (forall i :: 0 <= i < |units| ==> Clean(units[i].body))
    && (forall i :: 0 <= i < |units| - 1 ==> Fits(units[i], units[i + 1].long))
    && Size(units[|units| - 1]) <= 650000
  }

  lemma CleanIsScannable(body: seq<byte>, next: bool)
    requires Clean(body)
    ensures Scannable(body, next)
  {
    var s := body + StartCode(next);
    forall q | 0 <= q < |body|
      ensures !CodeAt(s, q)
    {
      if q + 3 <= |body| {
        assert !StartCode3(body, q);
      }
      if q + 4 <= |body| {
        assert !StartCode3(body, q + 1);
      }
      assert s[|body| - 1] == body[|body| - 1];
    }
  }

  /** No start code begins in the last unit of a clean file, nor, read on, before its end. */
  lemma NoCodeInLast(rec: seq<byte>, at: nat, body: seq<byte>, j: nat)
    requires Clean(body)
    requires at <= j < at + |body|
    requires at + |body| + 3 <= |rec|
    requires rec[at..at + |body|] == body
    ensures !CodeAt(rec, j)
  {
    var q, n := j - at, |body|;
    var s := rec[at..at + n];
    assert forall k :: 0 <= k < n ==> rec[at + k] == s[k];
    if q + 3 <= n {
      assert !StartCode3(body, q);
      assert rec[j] == body[q] && rec[j + 1] == body[q + 1] && rec[j + 2] == body[q + 2];
    }
    if q + 4 <= n {
      assert !StartCode3(body, q + 1);
      assert rec[j + 3] == body[q + 3];
    }
    assert rec[at + n - 1] == body[n - 1];
  }

  /**
   Alone in the window, a clean unit is cut off if and only if it has a four-octet code and the
   octets the buffer holds behind it happen to be a start code.
   */
  lemma SplitLast(buf: Buffer, u: NalUnit)
    requires Clean(u.body) && Size(u) <= H264_FILE_BUFFER
    ensures
      var rest := Assemble([u]);
      && |rest| == Size(u)
      && Split(buf, rest) == if u.long && CodeAt(buf, Size(u)) then Cut([u], []) else Cut([], rest)
  {
    hide StartCode, CodeAt, Extract, Step;
    var code, rest := StartCode(u.long), Assemble([u]);
    var rec, step, size := Window(buf, rest), |StartCode(u.long)|, Size(u);
    assert Assemble([u][1..]) == [];
    assert rest == code + u.body;
    assert rec[0..0 + step] == code;
    assert rec[step..step + |u.body|] == u.body;
    CodeIsCode(rec, 0, u.long);
    ExtractLast(rec, u);
    assert rec[size..size + 4] == buf[size..size + 4];
    CodeMoves(rec, size, buf[size..size + 4], 0);
    CodeMoves(buf, size, buf[size..size + 4], 0);
    if u.long && CodeAt(rec, size) {
      assert rest[size..] == [];
      assert FirstUnit(rest, step, size) == u;
      assert Split(rec, []) == Cut([], []);
    }
  }

  lemma ExtractLast(rec: Buffer, u: NalUnit)
    requires Clean(u.body) && Size(u) <= H264_FILE_BUFFER
    requires Step(rec) == |StartCode(u.long)|
    requires rec[Step(rec)..Size(u)] == u.body
    ensures Extract(rec, Size(u)) == if u.long && CodeAt(rec, Size(u)) then Some(Size(u)) else None
  {
    hide CodeAt, Step, Clean;
    var step, size := Step(rec), Size(u);
    forall j | step <= j < size
      ensures !CodeAt(rec, j)
    {
      NoCodeInLast(rec, step, u.body, j);
    }
    NotEmpty(u.body);
  }

  lemma NotEmpty(body: seq<byte>)
    requires Clean(body)
    ensures body != []
  {}

  lemma AssembleTwo(p: NalUnit, u: NalUnit)
    ensures Assemble([p, u]) == StartCode(p.long) + p.body + (StartCode(u.long) + u.body)
    ensures |Assemble([p, u])| == Size(p) + Size(u)
  {
    hide StartCode;
    assert [p, u][1..] == [u] && [u][1..] == [];
    assert StartCode(u.long) + u.body + [] == StartCode(u.long) + u.body;
    assert Assemble([u]) == StartCode(u.long) + u.body;
  }

  /**
   In two clean units, the second behind a four-octet code, a start code begins at the distance
   Size(u) from the front only if that is where the second unit, or its code's last three
   octets, begin.
   */
  lemma CodeBehindLast(p: NalUnit, u: NalUnit)
    requires Clean(p.body) && Clean(u.body) && u.long
    ensures |Assemble([p, u])| >= Size(u) + 4
    ensures CodeAt(Assemble([p, u]), Size(u)) <==> Size(u) == Size(p) || Size(u) == Size(p) + 1
  {
    hide StartCode, CodeAt, Clean, Assemble;
    var s, k, start := Assemble([p, u]), Size(u), Size(p);
    AssembleTwo(p, u);
    FourParts(s, StartCode(p.long), p.body, StartCode(u.long), u.body);
    NotEmpty(p.body);
    NotEmpty(u.body);
    if k < start {
      var step := |StartCode(p.long)|;
      var t := p.body + StartCode(true);
      CleanIsScannable(p.body, true);
      CodeMoves(s, step, t, k - step);
    } else if k < start + 4 {
      CodesInCode(s, start, k);
    } else {
      CleanCode(s, start + 4, u.body, k);
    }
  }

  lemma FourParts(s: seq<byte>, a: seq<byte>, b: seq<byte>, c: seq<byte>, d: seq<byte>)
    requires s == a + b + (c + d)
    ensures s[|a|..|a| + |b + c|] == b + c
    ensures s[|a| + |b|..|a| + |b| + |c|] == c
    ensures s[|a| + |b| + |c|..] == d
  {
    assert s == a + ((b + c) + d);
    assert s[|a|..] == (b + c) + d;
    assert s[|a|..][..|b + c|] == b + c;
  }

  lemma CodesInCode(s: seq<byte>, at: nat, k: nat)
    requires at <= k < at + 4 && k + 4 <= |s|
    requires at + 4 <= |s| && s[at..at + 4] == StartCode(true)
    ensures CodeAt(s, k) <==> k == at || k == at + 1
  {}

  lemma CleanCode(s: seq<byte>, at: nat, body: seq<byte>, k: nat)
    requires Clean(body)
    requires at + |body| <= |s| && s[at..at + |body|] == body
    requires at <= k && k + 4 <= at + |body|
    ensures !CodeAt(s, k)
  {
    CodeMoves(s, at, body, k - at);
    assert !StartCode3(body, k - at) && !StartCode3(body, k - at + 1);
  }

  /** The octets in reach of the scan behind a unit depend only on what was read there and on the slack. */
  lemma WindowReach(buf: Buffer, buf': Buffer, rest: seq<byte>, size: nat)
    requires buf[H264_FILE_BUFFER..] == buf'[H264_FILE_BUFFER..]
    requires size <= H264_FILE_BUFFER && size + 4 <= |rest|
    ensures Window(buf, rest)[size..size + 4] == Window(buf', rest)[size..size + 4]
  {
    var n := WindowSize(rest);
    assert n == |rest| || n == H264_FILE_BUFFER;
    forall i | size <= i < size + 4
      ensures Window(buf, rest)[i] == Window(buf', rest)[i]
    {
      if i >= n {
        var k := i - H264_FILE_BUFFER;
        assert buf[i] == buf[H264_FILE_BUFFER..][k] && buf'[i] == buf'[H264_FILE_BUFFER..][k];
      }
    }
  }

  lemma WindowSlack(buf: Buffer, rest: seq<byte>)
    ensures Window(buf, rest)[H264_FILE_BUFFER..] == buf[H264_FILE_BUFFER..]
  {}

  /** The buffer the scan of the last unit reads on into: set by the window of the unit before, if any. */
  function BehindLast(buf: Buffer, units: seq<NalUnit>): Buffer
    requires units != []
  {
    if |units| == 1 then buf else Window(buf, Assemble(units[|units| - 2..]))
  }

  lemma {:induction false} LastBufferHolds(buf: Buffer, units: seq<NalUnit>)
    requires CleanFile(units)
    ensures
      var size := Size(units[|units| - 1]);
      LastBuffer(buf, units)[size..size + 4] == BehindLast(buf, units)[size..size + 4]
    decreases |units|
  {
    var n := |units| - 1;
    if n == 1 {
      assert units[0..] == units;
    } else if n > 1 {
      hide StartCode, Fits, Assemble, Window, Clean, BehindLast;
      var rec := Window(buf, Assemble(units));
      WindowSlack(buf, Assemble(units));
      LastBufferHolds(rec, units[1..]);
      BehindLastSame(buf, rec, units);
    }
  }

  lemma BehindLastSame(buf: Buffer, buf': Buffer, units: seq<NalUnit>)
    requires |units| >= 3 && CleanFile(units)
    requires buf'[H264_FILE_BUFFER..] == buf[H264_FILE_BUFFER..]
    ensures
      var size := Size(units[|units| - 1]);
      BehindLast(buf', units[1..])[size..size + 4] == BehindLast(buf, units)[size..size + 4]
  {
    hide StartCode, Fits, Assemble, Window;
    var n := |units| - 1;
    var two := [units[n - 1], units[n]];
    assert units[1..][n - 2..] == two && units[n - 1..] == two;
    AssembleTwo(units[n - 1], units[n]);
    NotEmpty(units[n - 1].body);
    WindowReach(buf, buf', Assemble(two), Size(units[n]));
  }

  /** Whether the last unit of a file is sent: the buffer passes for a start code right behind it. */
  predicate LastIsSent(buf: Buffer, units: seq<NalUnit>)
    requires units != [] && Size(units[|units| - 1]) <= H264_FILE_BUFFER
  {
    var u := units[|units| - 1];
    u.long && CodeAt(BehindLast(buf, units), Size(u))
  }

  /**
   In a clean file of two or more units whose last one leaves four octets of the window free, that
   is a question of two sizes and one start code, whatever the buffer held.
   */
  lemma LastIsSentBySize(buf: Buffer, units: seq<NalUnit>)
    requires |units| >= 2 && CleanFile(units)
    requires Size(units[|units| - 1]) + 4 <= 650000
    ensures
      var u, p := units[|units| - 1], units[|units| - 2];
      LastIsSent(buf, units) <==> u.long && (Size(u) == Size(p) || Size(u) == Size(p) + 1)
  {
    hide CodeAt, Assemble, Window, StartCode, Fits;
    var n := |units| - 1;
    var p, u, size := units[n - 1], units[n], Size(units[n]);
    var two := Assemble([p, u]);
    assert units[n - 1..] == [p, u];
    AssembleTwo(p, u);
    NotEmpty(p.body);
    WindowSlice(buf, two, size, size + 4);
    CodeMoves(Window(buf, two), size, two[size..size + 4], 0);
    CodeMoves(two, size, two[size..size + 4], 0);
    if u.long {
      CodeBehindLast(p, u);
    }
  }

  /**
   What the loop cuts off a clean file: all units but the last, unless the octets in the buffer
   pass for a start code behind the last one; then all of them.
   */
  lemma SplitClean(buf: Buffer, units: seq<NalUnit>)
    requires CleanFile(units)
    ensures
      var n := |units| - 1;
      Split(buf, Assemble(units))
      == if LastIsSent(buf, units) then Cut(units, []) else Cut(units[..n], Assemble([units[n]]))
  {
    hide CodeAt, Split, Scannable, StartCode, LastBuffer, BehindLast;
    var n := |units| - 1;
    forall i | 0 <= i < n
      ensures Scannable(units[i].body, units[i + 1].long)
    {
      CleanIsScannable(units[i].body, units[i + 1].long);
    }
    SplitAssembled(buf, units);
    var last, rec, behind := units[n], LastBuffer(buf, units), BehindLast(buf, units);
    SplitLast(rec, last);
    LastBufferHolds(buf, units);
    var size := Size(last);
    CodeMoves(rec, size, behind[size..size + 4], 0);
    CodeMoves(behind, size, behind[size..size + 4], 0);
    assert units[..n] + [last] == units && units[..n] + [] == units[..n];
  }

  /** A file whose last unit is sent: two units of one octet, each behind a four-octet code. */
  lemma LastUnitSent(buf: Buffer)
    ensures
      var units := [NalUnit(true, [0x65]), NalUnit(true, [0x41])];
      Assemble(units) == [0, 0, 0, 1, 0x65, 0, 0, 0, 1, 0x41] && Split(buf, Assemble(units)) == Cut(units, [])
  {
    hide Split;
    var p, u := NalUnit(true, [0x65]), NalUnit(true, [0x41]);
    AssembleTwo(p, u);
    SplitClean(buf, [p, u]);
    LastIsSentBySize(buf, [p, u]);
  }
}
