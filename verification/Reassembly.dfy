/** The H.264 receiver: single NAL unit packets and FU-A fragments (RFC 6184 sections 5.6 and 5.8). */
module Reassembly {
  import opened Bytes
  import opened Transmission
  import opened FuA

  /** The units recovered so far and the one being put together. Broken: the payloads break the rules. */
  datatype Receiver = Receiver(units: seq<seq<byte>>, partial: Option<seq<byte>>) | Broken

  function Accept(rx: Receiver, payload: seq<byte>): Receiver {
    if rx.Broken? || payload == [] then Broken
    else if 1 <= payload[0] % 0x20 <= 23 then
      if rx.partial.None? then Receiver(rx.units + [payload], None) else Broken
    else if payload[0] % 0x20 == FU_A && |payload| >= 2 then
      AcceptFragment(rx, payload[0] / 0x20 * 0x20 + payload[1] % 0x20,
                     payload[1] / 0x80 == 1, payload[1] / 0x40 % 2 == 1, payload[2..])
    else Broken
  }

  /** A fragment must start exactly when no unit is open, and must carry the open unit's header. */
  function AcceptFragment(rx: Receiver, header: byte, start: bool, end: bool, data: seq<byte>): Receiver
    requires rx.Receiver?
  {
    match rx.partial
    case None =>
      if start && !end then Receiver(rx.units, Some([header] + data)) else Broken
    case Some(unit) =>
      if start || unit == [] || unit[0] != header then Broken
      else if end then Receiver(rx.units + [unit + data], None)
      else Receiver(rx.units, Some(unit + data))
  }

  function Reassemble(rx: Receiver, payloads: seq<seq<byte>>): Receiver {
    if payloads == [] then rx
    else Accept(Reassemble(rx, payloads[..|payloads| - 1]), payloads[|payloads| - 1])
  }

  lemma {:induction false} ReassembleConcat(rx: Receiver, a: seq<seq<byte>>, b: seq<seq<byte>>)
    ensures Reassemble(rx, a + b) == Reassemble(Reassemble(rx, a), b)
  {
    hide Accept;
    if b == [] {
      assert a + b == a;
    } else {
      assert (a + b)[..|a + b| - 1] == a + b[..|b| - 1];
      ReassembleConcat(rx, a, b[..|b| - 1]);
    }
  }

  lemma AcceptGrows(rx: Receiver, payload: seq<byte>)
    ensures Accept(rx, payload).Receiver? ==> rx.Receiver? && rx.units <= Accept(rx, payload).units
  {}

  /** Units once recovered stay: a receiver that is not broken only ever adds to them. */
  lemma {:induction false} ReassembleGrows(rx: Receiver, payloads: seq<seq<byte>>)
    ensures Reassemble(rx, payloads).Receiver? ==> rx.Receiver? && rx.units <= Reassemble(rx, payloads).units
  {
    hide Accept;
    if payloads != [] {
      var front := payloads[..|payloads| - 1];
      ReassembleGrows(rx, front);
      AcceptGrows(Reassemble(rx, front), payloads[|payloads| - 1]);
    }
  }

  // ----- One NAL unit -----

  /** The bits of the two octets in front of a fragment. */
  lemma FuFields(first: byte, start: bool, end: bool)
    requires !(start && end)
    ensures
      var indicator, header := FuIndicator(first), FuHeader(first, start, end);
      && indicator % 0x20 == FU_A
      && indicator / 0x20 * 0x20 + header % 0x20 == first % 0x80
      && (header / 0x80 == 1 <==> start)
      && (header / 0x40 % 2 == 1 <==> end)
  {
    DivMod(FuIndicator(first), first / 0x20 % 4, FU_A, 0x20);
    var s, e := if start then 1 else 0, if end then 1 else 0;
    var t := first % 0x20;
    DivMod(FuHeader(first, start, end), 4 * s + 2 * e, t, 0x20);
    DivMod(FuHeader(first, start, end), s, 0x40 * e + t, 0x80);
    DivMod(FuHeader(first, start, end), 2 * s + e, t, 0x40);
    DivMod(2 * s + e, s, e, 2);
    DivMod(first, first / 0x20 / 4, first / 0x20 % 4 * 0x20 + t, 0x80);
  }

  /**
   RFC 6184 section 5.8 for every unit over 1400 octets, remainder or not: at least two
   fragments, exactly the first starts, exactly the last ends, none does both, and all carry
   the unit's NRI and type with the reserved bit clear.
   */
  lemma FragmentDiscipline(x: seq<byte>, i: nat)
    requires |x| - 1 > 1400 && i < |FragmentPlan(x)|
    ensures
      var n, p := |FragmentPlan(x)|, FragmentPlan(x)[i].payload;
      && n >= 2 && |p| > 2
      && p[0] / 0x20 == x[0] / 0x20 % 4 && p[0] % 0x20 == FU_A
      && (p[1] / 0x80 == 1 <==> i == 0)
      && (p[1] / 0x40 % 2 == 1 <==> i == n - 1)
      && p[1] / 0x20 % 2 == 0 && p[1] % 0x20 == x[0] % 0x20
  {}

  lemma AcceptsFragment(rx: Receiver, x: seq<byte>, i: nat, n: nat)
    requires rx.Receiver? && 1 + 1400 * i <= |x| && n >= 2
    ensures Accept(rx, Fragment(x, i, n))
         == AcceptFragment(rx, x[0] % 0x80, i == 0, i == n - 1, FragmentData(x, i))
  {
    hide FuIndicator, FuHeader, AcceptFragment, FragmentData;
    FuFields(x[0], i == 0, i == n - 1);
    var p := Fragment(x, i, n);
    assert p[2..] == FragmentData(x, i);
  }

  /** The unit as far as i fragments carry it, without the forbidden bit the indicator masks away. */
  function Gathered(x: seq<byte>, i: nat): seq<byte>
    requires x != []
  {
    [x[0] % 0x80] + if 1 + 1400 * i <= |x| then x[1..1 + 1400 * i] else x[1..]
  }

  lemma GatherOneMore(x: seq<byte>, i: nat)
    requires 1 + 1400 * i <= |x|
    ensures Gathered(x, i) + FragmentData(x, i) == Gathered(x, i + 1)
    ensures [x[0] % 0x80] + FragmentData(x, 0) == Gathered(x, 1)
  {}

  lemma {:induction false} FragmentsGather(units: seq<seq<byte>>, x: seq<byte>, i: nat)
    requires |x| - 1 > 1400
    requires 1 <= i <= |FragmentPlan(x)|
    ensures Reassemble(Receiver(units, None), Payloads(FragmentPlan(x)[..i]))
         == if i < |FragmentPlan(x)| then Receiver(units, Some(Gathered(x, i)))
            else Receiver(units + [Gathered(x, i)], None)
  {
    hide Accept, Fragment, FragmentPlan, Gathered, FragmentData, FragmentCount;
    var plan := FragmentPlan(x);
    var n, k := |plan|, i - 1;
    FragmentAt(x, k);
    FragmentBounds(|x| - 1, k);
    assert Payloads(plan[..i])[..k] == Payloads(plan[..k]);
    assert Payloads(plan[..i])[k] == Fragment(x, k, n);
    GatherOneMore(x, k);
    if k == 0 {
      AcceptsFragment(Receiver(units, None), x, 0, n);
    } else {
      FragmentsGather(units, x, k);
      AcceptsFragment(Receiver(units, Some(Gathered(x, k))), x, k, n);
      assert Gathered(x, k)[0] == x[0] % 0x80 by { FirstGathered(x, k); }
    }
  }

  lemma FirstGathered(x: seq<byte>, i: nat)
    requires x != []
    ensures Gathered(x, i) != [] && Gathered(x, i)[0] == x[0] % 0x80
  {}

  /**
   What the receiver makes of one unit: a fragmented one comes back with the octet that follows
   it in the window, and without its forbidden bit.
   */
  lemma UnitReassembles(units: seq<seq<byte>>, x: seq<byte>)
    requires x != []
    ensures
      Reassemble(Receiver(units, None), Payloads(UnitPlan(x)))
      == if |x| - 1 <= 1400 then Accept(Receiver(units, None), x[..|x| - 1])
         else Receiver(units + [[x[0] % 0x80] + x[1..]], None)
  {
    if |x| - 1 <= 1400 {
      var p := Payloads(UnitPlan(x));
      assert p == [x[..|x| - 1]];
      assert p[..0] == [];
    } else {
      var plan := FragmentPlan(x);
      FragmentBounds(|x| - 1, |plan|);
      FragmentsGather(units, x, |plan|);
      assert plan[..|plan|] == plan;
      assert Gathered(x, |plan|) == [x[0] % 0x80] + x[1..];
    }
  }

  /** The units this server's packets can carry, decided by size and first octet. */
  predicate Carried(unit: seq<byte>) {
    unit != [] && if |unit| <= 1400 then 1 <= unit[0] % 0x20 <= 23 else unit[0] < 0x80
  }

  /** What arrives for a carried unit that is followed by the given octet. */
  function Received(unit: seq<byte>, next: byte): seq<byte> {
    if |unit| <= 1400 then unit else unit + [next]
  }

  /** A unit survives the trip, with its one extra octet when fragmented, exactly if it is carried. */
  lemma UnitRoundTrip(units: seq<seq<byte>>, unit: seq<byte>, next: byte)
    ensures
      Reassemble(Receiver(units, None), Payloads(UnitPlan(unit + [next])))
        == Receiver(units + [Received(unit, next)], None)
      <==> Carried(unit)
  {
    hide UnitPlan, Payloads, Reassemble;
    var x := unit + [next];
    UnitReassembles(units, x);
    assert x[..|x| - 1] == unit;
    if |unit| > 1400 {
      var got := [x[0] % 0x80] + x[1..];
      assert got[0] == unit[0] % 0x80 && Received(unit, next)[0] == unit[0];
      if Carried(unit) {
        assert got == Received(unit, next);
      } else {
        var all, want := units + [got], units + [Received(unit, next)];
        assert all[|units|] != want[|units|];
      }
    }
  }

  /** A unit of 1401 octets with forbidden_zero_bit set arrives with the bit cleared. */
  lemma ForbiddenBitLost(next: byte)
    ensures
      var rest := seq(1400, _ => 1);
      var unit, got := [0xE5] + rest, [0x65] + rest + [next];
      Reassemble(Receiver([], None), Payloads(UnitPlan(unit + [next]))) == Receiver([got], None)
  {
    hide UnitPlan, Payloads, Reassemble;
    var rest := seq(1400, _ => 1);
    var x := [0xE5] + rest + [next];
    UnitReassembles([], x);
    assert x[1..] == rest + [next];
    assert [0x65] + (rest + [next]) == [0x65] + rest + [next];
    assert [] + [[0x65] + x[1..]] == [[0x65] + x[1..]];
  }
}
