/** The file cut up without any window, and how close the windowed loop comes to it on every file. */
module WholeFile {
  import opened Bytes
  import opened AnnexB

  /** Length of a start code at a position of a file; 0 if none begins there. */
  function CodeLength(file: seq<byte>, at: nat): (n: nat)
    requires at <= |file|
    ensures n in {0, 3, 4} && at + n <= |file|
  {
    if at + 3 <= |file| && StartCode3(file, at) then 3
    else if at + 4 <= |file| && StartCode4(file, at) then 4
    else 0
  }

  /** Where the next start code begins, or the end of the file. */
  function NextCode(file: seq<byte>, from: nat): (next: nat)
    requires from <= |file|
    ensures from <= next <= |file|
    ensures forall j :: from <= j < next ==> CodeLength(file, j) == 0
    ensures next < |file| ==> CodeLength(file, next) > 0
    decreases |file| - from
  {
    if from == |file| || CodeLength(file, from) > 0 then from else NextCode(file, from + 1)
  }

  /** The NAL units of a file that begins with a start code, each up to the next code. */
  function Units(file: seq<byte>): (units: seq<NalUnit>)
    requires CodeLength(file, 0) > 0
    ensures units != []
    decreases |file|
  {
    var step := CodeLength(file, 0);
    var end := NextCode(file, step);
    if end == |file| then [NalUnit(step == 4, file[step..end])]
    else
      CodeMovesTo(file, end);
      [NalUnit(step == 4, file[step..end])] + Units(file[end..])
  }

  lemma CodeMovesTo(file: seq<byte>, at: nat)
    requires at <= |file|
    ensures CodeLength(file[at..], 0) == CodeLength(file, at)
  {}

  lemma FrontIsCode(file: seq<byte>)
    requires CodeLength(file, 0) > 0
    ensures
      var n := CodeLength(file, 0);
      file[..n] == StartCode(n == 4)
  {}

  /** The units with their codes are the file. */
  lemma {:induction false} UnitsAssemble(file: seq<byte>)
    requires CodeLength(file, 0) > 0
    ensures Assemble(Units(file)) == file
    decreases |file|
  {
    hide StartCode, Assemble;
    var step := CodeLength(file, 0);
    var end := NextCode(file, step);
    var u := NalUnit(step == 4, file[step..end]);
    FrontIsCode(file);
    assert file[..step] + file[step..end] == file[..end];
    if end == |file| {
      AssembleOne(u);
      assert Units(file) == [u];
    } else {
      CodeMovesTo(file, end);
      UnitsAssemble(file[end..]);
      AssembleCons(u, Units(file[end..]));
      assert file[..end] + file[end..] == file;
    }
  }

  /** No code begins inside a unit that ends where the next code begins. */
  lemma UnitScannable(file: seq<byte>, from: nat, end: nat)
    requires from <= end <= |file| && end == NextCode(file, from) && CodeLength(file, end) > 0
    ensures Scannable(file[from..end], CodeLength(file, end) == 4)
  {
    var body, next := file[from..end], CodeLength(file, end) == 4;
    var s := body + StartCode(next);
    CodeMovesTo(file, end);
    FrontIsCode(file[end..]);
    assert s == file[from..from + |s|] by {
      assert file[end..][..|StartCode(next)|] == StartCode(next);
    }
    forall q | 0 <= q < |body|
      ensures !CodeAt(s, q)
    {
      assert CodeLength(file, from + q) == 0;
      CodeMoves(file, from, s, q);
    }
  }

  lemma {:induction false} UnitsSplittable(file: seq<byte>)
    requires CodeLength(file, 0) > 0
    ensures
      var units := Units(file);
      && (forall i :: 0 <= i < |units| - 1 ==> Scannable(units[i].body, units[i + 1].long))
      && NoCode(units[|units| - 1].body)
      && units[0].long == (CodeLength(file, 0) == 4)
    decreases |file|
  {
    hide Scannable, NoCode;
    var step := CodeLength(file, 0);
    var end := NextCode(file, step);
    var units := Units(file);
    if end == |file| {
      LastUnitNoCode(file, step);
      assert file[step..end] == file[step..];
    } else {
      CodeMovesTo(file, end);
      UnitScannable(file, step, end);
      UnitsSplittable(file[end..]);
      var rest := Units(file[end..]);
      assert units == [NalUnit(step == 4, file[step..end])] + rest;
      forall i | 0 <= i < |units| - 1
        ensures Scannable(units[i].body, units[i + 1].long)
      {
        if i > 0 {
          assert units[i] == rest[i - 1] && units[i + 1] == rest[i];
        }
      }
    }
  }

  /** The body of a last unit: no three-octet start code anywhere in it. */
  predicate NoCode(body: seq<byte>) {
    forall i :: 0 <= i <= |body| - 3 ==> !StartCode3(body, i)
  }

  lemma LastUnitNoCode(file: seq<byte>, from: nat)
    requires from <= |file| && NextCode(file, from) == |file|
    ensures NoCode(file[from..])
  {
    var body := file[from..];
    forall i | 0 <= i <= |body| - 3
      ensures !StartCode3(body, i)
    {
      assert CodeLength(file, from + i) == 0;
      assert body[i] == file[from + i] && body[i + 1] == file[from + i + 1] && body[i + 2] == file[from + i + 2];
    }
  }

  predicate AllZero(s: seq<byte>) {
    forall i :: 0 <= i < |s| ==> s[i] == 0x00
  }

  /** What the loop makes of the last unit: nothing, or all of it but for at most three zeros at its end. */
  predicate LastCut(cut: Cut, u: NalUnit) {
    || (cut.units == [] && cut.left == StartCode(u.long) + u.body)
    || (|cut.units| == 1 && cut.units[0].long == u.long
        && cut.units[0].body + cut.left == u.body && |cut.left| <= 3 && AllZero(cut.left))
  }

  lemma SplitTail(buf: Buffer, rest: seq<byte>)
    requires |rest| <= 3
    ensures Split(buf, rest) == Cut([], rest)
  {}

  /** A start code found in the last unit runs over its end: what it leaves of the unit are zeros. */
  lemma LastEnd(rec: Buffer, u: NalUnit, end: nat)
    requires NoCode(u.body) && Size(u) <= H264_FILE_BUFFER
    requires rec[..Size(u)] == StartCode(u.long) + u.body
    requires |StartCode(u.long)| <= end <= Size(u) && CodeAt(rec, end)
    ensures Size(u) <= end + 3 && AllZero(rec[end..Size(u)])
  {
    hide NoCode;
    if end + 3 <= Size(u) {
      NoCodeInBody(rec, u, end);
    }
    if end + 4 <= Size(u) {
      NoCodeInBody(rec, u, end + 1);
    }
  }

  lemma NoCodeInBody(rec: Buffer, u: NalUnit, at: nat)
    requires NoCode(u.body) && Size(u) <= H264_FILE_BUFFER
    requires rec[..Size(u)] == StartCode(u.long) + u.body
    requires |StartCode(u.long)| <= at && at + 3 <= Size(u)
    ensures !StartCode3(rec, at)
  {
    var front, q := rec[..Size(u)], at - |StartCode(u.long)|;
    assert !StartCode3(u.body, q);
    assert front[at] == u.body[q] && front[at + 1] == u.body[q + 1] && front[at + 2] == u.body[q + 2];
  }

  lemma SplitAnyLast(buf: Buffer, u: NalUnit)
    requires NoCode(u.body) && Size(u) <= H264_FILE_BUFFER
    ensures LastCut(Split(buf, Assemble([u])), u)
  {
    hide StartCode, Extract, NoCode, CodeAt, Step, AllZero;
    AssembleOne(u);
    var code, rest := StartCode(u.long), StartCode(u.long) + u.body;
    var rec, step := Window(buf, rest), |StartCode(u.long)|;
    WindowSlice(buf, rest, 0, |rest|);
    assert rec[0..|rest|] == rec[..|rest|];
    assert rec[0..0 + step] == code by { assert rec[0..0 + step] == rec[..|rest|][..step]; }
    CodeIsCode(rec, 0, u.long);
    var found := Extract(rec, WindowSize(rest));
    if found.Some? {
      var end := found.value;
      LastEnd(rec, u, end);
      WindowSlice(buf, rest, end, |rest|);
      assert rest[end..|rest|] == rest[end..];
      SplitTail(rec, rest[end..]);
      assert rest[step..end] + rest[end..] == u.body;
      assert FirstUnit(rest, step, end).body == rest[step..end];
      LongCode(u.long);
    }
  }

  lemma LongCode(long: bool)
    ensures |StartCode(long)| == 4 <==> long
  {}

  // ----- The windowed loop against the whole-file split -----

  /** The units of any file; none if it does not begin with a start code. */
  function FileUnits(file: seq<byte>): seq<NalUnit> {
    if CodeLength(file, 0) > 0 then Units(file) else []
  }

  /** Each of the first k units is followed by another and fits the window together with its code. */
  predicate FitUpTo(units: seq<NalUnit>, k: nat) {
    k < |units| && forall i :: 0 <= i < k ==> Fits(units[i], units[i + 1].long)
  }

  predicate AllFit(units: seq<NalUnit>) {
    units != [] ==> FitUpTo(units, |units| - 1) && Size(units[|units| - 1]) <= 650000
  }

  /** The first k units of a list are cut off if they can be; what comes after them does not matter. */
  lemma {:induction false} SplitPrefix(buf: Buffer, units: seq<NalUnit>, k: nat)
    requires FitUpTo(units, k)
    requires forall i :: 0 <= i < k ==> Scannable(units[i].body, units[i + 1].long)
    ensures k <= |Split(buf, Assemble(units)).units| && Split(buf, Assemble(units)).units[..k] == units[..k]
    decreases k
  {
    hide StartCode, Window, Split, Scannable, Fits, Assemble;
    if k > 0 {
      var u, next, more := units[0], units[1].long, Assemble(units[1..]);
      AssembleFront(units[1..]);
      var tail := more[|StartCode(next)|..];
      assert more == StartCode(next) + tail;
      assert units == [u] + units[1..];
      AssembleCons(u, units[1..]);
      SplitFirst(buf, u, next, tail);
      SplitPrefix(Window(buf, Assemble(units)), units[1..], k - 1);
      assert units[..k] == [u] + units[1..][..k - 1];
    }
  }

  /**
   On every file, whatever comes later: while the units of the whole-file split fit the window with
   the code behind them, they are the ones the loop cuts off.
   */
  lemma WindowedPrefix(buf: Buffer, file: seq<byte>, k: nat)
    requires FitUpTo(FileUnits(file), k)
    ensures k <= |Split(buf, file).units| && Split(buf, file).units[..k] == FileUnits(file)[..k]
  {
    hide Split, Scannable, FitUpTo, NoCode, CodeLength, Units;
    FitNeedsUnits(file, k);
    UnitsAssemble(file);
    UnitsSplittable(file);
    SplitPrefix(buf, Units(file), k);
  }

  lemma FitNeedsUnits(file: seq<byte>, k: nat)
    requires FitUpTo(FileUnits(file), k)
    ensures CodeLength(file, 0) > 0 && k < |Units(file)|
  {}

  /**
   The windowed loop refines the whole-file split, on every file. A file that does not begin with
   a start code gives nothing. Any other gives the very units of the whole-file split as far as
   they fit the window. If all do, it gives all of them but the last; and of the last, nothing, or
   all but at most three zeros at its end.
   */
  lemma WindowedIsWhole(buf: Buffer, file: seq<byte>)
    ensures FileUnits(file) == [] ==> Split(buf, file) == Cut([], file)
    ensures forall k: nat :: FitUpTo(FileUnits(file), k) ==>
      k <= |Split(buf, file).units| && Split(buf, file).units[..k] == FileUnits(file)[..k]
    ensures FileUnits(file) != [] && AllFit(FileUnits(file)) ==>
      var n, cut := |FileUnits(file)| - 1, Split(buf, file);
      n <= |cut.units| && LastCut(Cut(cut.units[n..], cut.left), FileUnits(file)[n])
  {
    if FileUnits(file) == [] {
      NoFrontCode(buf, file);
    } else if AllFit(FileUnits(file)) {
      AllButLast(buf, file);
    }
    hide FileUnits, FitUpTo, Split;
    forall k: nat | FitUpTo(FileUnits(file), k)
      ensures k <= |Split(buf, file).units| && Split(buf, file).units[..k] == FileUnits(file)[..k]
    {
      WindowedPrefix(buf, file, k);
    }
  }

  lemma AllButLast(buf: Buffer, file: seq<byte>)
    requires CodeLength(file, 0) > 0 && AllFit(Units(file))
    ensures
      var n, cut := |Units(file)| - 1, Split(buf, file);
      n <= |cut.units| && LastCut(Cut(cut.units[n..], cut.left), Units(file)[n])
  {
    hide Split, Scannable, Fits, LastCut, NoCode, CodeLength, StartCode, LastBuffer, Units;
    var units := Units(file);
    var n := |units| - 1;
    UnitsAssemble(file);
    UnitsSplittable(file);
    SplitAssembled(buf, units);
    SplitAnyLast(LastBuffer(buf, units), units[n]);
    var last := Split(LastBuffer(buf, units), Assemble([units[n]]));
    assert (units[..n] + last.units)[n..] == last.units;
  }

  lemma NoFrontCode(buf: Buffer, file: seq<byte>)
    requires CodeLength(file, 0) == 0
    ensures Split(buf, file) == Cut([], file)
  {}
}
