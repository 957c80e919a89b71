/**
  The parity-checking decoder (class `Wiegand34`). It shares the edge handling
  and the accumulator with the generic decoder, but after the frame gap it only
  accepts 34-bit frames, and only when both of its parity tests pass.
 */
module Wiegand34 {

  import opened Words
  import opened WiegandFrame
  import Wiegand

  /** `0xFFFF`. */
  const LOW_HALF: Word := Zeros(16) + AllSet(16)

  lemma MaskValue()
    ensures Value(LOW_HALF) == 0xFFFF
  {
    LeadingZeros(16, AllSet(16));
    ValueAllSet(16);
    Pow2Values();
  }

  /** The decoder's fields: the accumulator and the last card code. */
  datatype Decoder = Decoder(frame: Frame, code: Word)

  /** The static initialisers: every field 0. */
  const INITIAL: Decoder := Decoder(Frame(ZERO, ZERO, 0, 0), ZERO)

  /** At power-up the accumulator is cleared, so the results about trains
      "from a cleared decoder" apply to the first frame read. */
  lemma InitialIsClear()
    ensures IsClear(INITIAL.frame) && INITIAL.code == ZERO
  {
  }

  /** The DATA0 interrupt: a 0 bit is shifted in; the code is untouched. */
  function ReadD0(d: Decoder, now: bv32): (r: Decoder)
    ensures r.frame.bitCount == d.frame.bitCount + 1 && r.frame.lastPulseTime == now
    ensures r.frame.cardTemp == d.frame.cardTemp[1..31] + [d.frame.cardTemp[31], false]
    ensures r.code == d.code
  {
    d.(frame := ReadBit(d.frame, D0, now))
  }

  /** The DATA1 interrupt: a 1 bit is shifted in; the code is untouched. */
  function ReadD1(d: Decoder, now: bv32): (r: Decoder)
    ensures r.frame.bitCount == d.frame.bitCount + 1 && r.frame.lastPulseTime == now
    ensures r.frame.cardTemp == d.frame.cardTemp[1..31] + [true, false]
    ensures r.code == d.code
  {
    d.(frame := ReadBit(d.frame, D1, now))
  }

  /** The interrupt for one edge. */
  function Receive(d: Decoder, p: Pulse): Decoder {
    if p.line == D0 then ReadD0(d, p.at) else ReadD1(d, p.at)
  }

  /** A train of edges, oldest first, with no conversion in between. */
  function ReceiveAll(d: Decoder, ps: seq<Pulse>): (r: Decoder)
    ensures r == d.(frame := Feed(d.frame, ps))
  {
    if |ps| == 0 then d else Receive(ReceiveAll(d, ps[..|ps| - 1]), ps[|ps| - 1])
  }

  /** The 34-bit code: bits 1 and 0 of `codehigh` become bits 31 and 30, over
      `codelow` shifted down one place. It is the generic decoder's 34-bit
      extraction. */
  function GetCardId(codehigh: Word, codelow: Word): (r: Word)
    ensures r == [codehigh[30], codehigh[31] || codelow[0]] + codelow[1..31]
    ensures r == Wiegand.GetCardId(codehigh, codelow, Wiegand.WIEGAND34)
  {
    var r := Or(Shl(And(codehigh, Wiegand.LOW_TWO), 30), Shr(codelow, 1));
    assert r == [codehigh[30], codehigh[31] || codelow[0]] + codelow[1..31];
    r
  }

  /** How many of the lowest bits `parityCalc(v, n, parityType)` adds up: its loop
      runs for i = 0 to n, and after 32 shifts only zeros are left. */
  function Visited(n: int): nat {
    if n < 0 then 0 else if n >= 32 then 32 else n + 1
  }

  /** What `parityCalc(v, n, parityType)` returns: with `parityType` true, whether the
      number of set bits among the n + 1 lowest is odd; with `parityType` false,
      whether it is even. */
  function ParityOf(v: Word, n: int, parityType: bool): bool {
    var count := Ones(v[32 - Visited(n)..]);
    if parityType then Odd(count) else !Odd(count)
  }

  /** `v & 1`, an `unsigned long` that is 0 or 1. */
  lemma LowBitValue(v: Word)
    ensures Value(And(v, ONE)) == if v[31] then 1 else 0
  {
    assert And(v, ONE) == Zeros(31) + [v[31]];
    LeadingZeros(31, [v[31]]);
    assert [v[31]][..0] == [];
  }

  /** The loop of `parityCalc`: add bit 0, shift right, n + 1 times. */
  method ParityCalc(v: Word, n: int, parityType: bool) returns (r: bool)
    ensures r == ParityOf(v, n, parityType)
    ensures parityType ==> (r <==> Odd(Ones(v[32 - Visited(n)..])))
    ensures !parityType ==> (r <==> !Odd(Ones(v[32 - Visited(n)..])))
  {
    var count: nat := 0;
    var w := v;
    var i := 0;
    while i <= n
      invariant 0 <= i && (n >= 0 ==> i <= n + 1) && (n < 0 ==> i == 0)
      invariant LoopState(v, w, count, Visited(i - 1))
    {
      ParityStep(v, w, count, i);
      count := count + Value(And(w, ONE));
      w := Shr(w, 1);
      i := i + 1;
    }
    ParityDone(v, w, count, n, i);
    r := if parityType then count % 2 == 1 else !(count % 2 == 1);
  }

  /** After `k` turns of the loop, the value has been shifted down `k` places
      and the count holds the ones among the `k` lowest bits of `v`. */
  predicate LoopState(v: Word, w: Word, count: nat, k: nat) {
    k <= 32 && w == ShiftedDown(v, k) && count == Ones(v[32 - k..])
  }

  /** `v` shifted right `k` places, one place at a time. */
  function ShiftedDown(v: Word, k: nat): (r: Word)
    requires k <= 32
    ensures r == Zeros(k) + v[..32 - k]
  {
    if k == 0 then (assert v[..32] == v; v)
    else var r := Shr(ShiftedDown(v, k - 1), 1);
      assert r == Zeros(k) + v[..32 - k];
      r
  }

  /** The bit the `k`-th turn adds is bit `k` of `v`, or 0 once all 32 are
      shifted out. */
  lemma StepCount(v: Word, k: nat)
    requires k <= 32
    ensures k < 32 ==> Ones(v[32 - k..]) + Value(And(ShiftedDown(v, k), ONE)) == Ones(v[31 - k..])
    ensures k == 32 ==> Value(And(ShiftedDown(v, k), ONE)) == 0 && Shr(ShiftedDown(v, k), 1) == ShiftedDown(v, k)
  {
    var w := ShiftedDown(v, k);
    LowBitValue(w);
    if k < 32 {
      assert w[31] == v[31 - k];
      assert v[31 - k..] == [v[31 - k]] + v[32 - k..];
      OnesAppend([v[31 - k]], v[32 - k..]);
      assert [v[31 - k]][..0] == [];
    } else {
      assert w == ZERO;
    }
  }

  /** One turn of the loop, the `i`-th, keeps the loop state. */
  lemma ParityStep(v: Word, w: Word, count: nat, i: nat)
    requires LoopState(v, w, count, Visited(i - 1))
    ensures LoopState(v, Shr(w, 1), count + Value(And(w, ONE)), Visited(i))
  {
    var k := Visited(i - 1);
    StepCount(v, k);
    if k < 32 {
      assert Visited(i) == k + 1;
      assert ShiftedDown(v, k + 1) == Shr(w, 1);
    } else {
      assert Visited(i) == 32;
    }
  }

  /** When the loop stops, the count covers the `Visited(n)` lowest bits. */
  lemma ParityDone(v: Word, w: Word, count: nat, n: int, i: nat)
    requires LoopState(v, w, count, Visited(i - 1))
    requires (n >= 0 ==> i == n + 1) && (n < 0 ==> i == 0)
    ensures count == Ones(v[32 - Visited(n)..])
  {
  }

  /** The right parity test read off the registers before conversion: bit 1 of
      `cardTemp`, the last bit received, against whether bits 17 to 2 hold an
      odd number of ones. */
  predicate RightCheck(f: Frame) {
    f.cardTemp[30] == Odd(Ones(f.cardTemp[14..30]))
  }

  /** The left parity test read off the registers before conversion: bit 2 of
      `cardTempHigh` against whether bits 2 to 0 of `cardTempHigh` and bits 31
      to 18 of `cardTemp` hold an even number of ones. */
  predicate LeftCheck(f: Frame) {
    f.cardTempHigh[29] == !Odd(Ones(f.cardTempHigh[29..] + f.cardTemp[..14]))
  }

  /** `rightParity == rpar` in terms of the registers. */
  lemma RightTest(f: Frame)
    ensures var low := Shr(f.cardTemp, 1);
      (Truth(And(low, ONE)) == ParityOf(And(Shr(low, 1), LOW_HALF), 16, true)) == RightCheck(f)
  {
    var low := Shr(f.cardTemp, 1);
    TruthOfBit0(And(low, ONE));
    var window := And(Shr(low, 1), LOW_HALF);
    assert window[15..] == [false] + f.cardTemp[14..30];
    OnesAppend([false], f.cardTemp[14..30]);
    assert [false][..0] == [];
  }

  /** `leftParity == lpar` in terms of the registers. */
  lemma LeftTest(f: Frame)
    ensures var low := Shr(f.cardTemp, 1);
      (Truth(And(Shr(f.cardTempHigh, 2), ONE)) ==
       ParityOf(Or(Shl(f.cardTempHigh, 14), Shr(low, 17)), 16, false)) == LeftCheck(f)
  {
    var low := Shr(f.cardTemp, 1);
    TruthOfBit0(And(Shr(f.cardTempHigh, 2), ONE));
    var window := Or(Shl(f.cardTempHigh, 14), Shr(low, 17));
    assert window[15..] == f.cardTempHigh[29..] + f.cardTemp[..14];
  }

  /** The result of `DoWiegandConversion`: the new decoder and whether a code
      became available. */
  datatype Conversion = Conversion(decoder: Decoder, available: bool)

  /** The conversion `available()` runs with interrupts off, taken as one atomic
      step at clock reading `now`. Within the frame gap nothing happens. After
      it, a 34-bit frame whose two parity tests pass yields a code; a 34-bit
      frame that fails them is dropped without touching the clock reading; any
      other frame is dropped and the accumulator stamped with `now`. Whatever
      happens after the gap, the accumulator is zeroed. */
  function DoWiegandConversion(d: Decoder, now: bv32): (r: Conversion)
    ensures r.available <==>
      Silent(d.frame, now) && d.frame.bitCount == Wiegand.WIEGAND34 && RightCheck(d.frame) && LeftCheck(d.frame)
    ensures !Silent(d.frame, now) ==> r.decoder == d
    ensures Silent(d.frame, now) ==> IsClear(r.decoder.frame)
    ensures r.available ==> r.decoder.frame.lastPulseTime == d.frame.lastPulseTime
    ensures Silent(d.frame, now) && d.frame.bitCount == Wiegand.WIEGAND34 && !r.available ==>
      r.decoder == Decoder(Cleared(d.frame), d.code)
    ensures Silent(d.frame, now) && d.frame.bitCount != Wiegand.WIEGAND34 ==>
      !r.available && r.decoder == Decoder(Frame(ZERO, ZERO, 0, now), d.code)
  {
    if !Silent(d.frame, now) then
      Conversion(d, false)
    else if d.frame.bitCount == Wiegand.WIEGAND34 then
      var low := Shr(d.frame.cardTemp, 1);
      var high := d.frame.cardTempHigh;
      var rightParity := Truth(And(low, ONE));
      var leftParity := Truth(And(Shr(high, 2), ONE));
      var n := (d.frame.bitCount - 2) / 2;
      var rpar := ParityOf(And(Shr(low, 1), LOW_HALF), n, true);
      var lpar := ParityOf(Or(Shl(high, 14), Shr(low, 17)), n, false);
      RightTest(d.frame);
      LeftTest(d.frame);
      if leftParity == lpar && rightParity == rpar then
        Conversion(Decoder(Cleared(d.frame), GetCardId(high, low)), true)
      else
        Conversion(Decoder(Cleared(d.frame), d.code), false)
    else
      Conversion(Decoder(Rearmed(d.frame, now), d.code), false)
  }

  function GetCode(d: Decoder): Word {
    d.code
  }

  function GetCodeInBuffer(d: Decoder): seq<byte> {
    BigEndianBytes(d.code)
  }

  /** The buffer is the code's bytes, most significant first. */
  lemma CodeInBufferIsBigEndian(d: Decoder)
    ensures |GetCodeInBuffer(d)| == 4
    ensures var b := GetCodeInBuffer(d);
      Value(GetCode(d)) == ((b[0] as int * 0x100 + b[1] as int) * 0x100 + b[2] as int) * 0x100 + b[3] as int
  {
    BigEndianRecombines(d.code);
  }

  /** A code is only ever accepted from a 34-bit frame after the gap, and it is
      the code the generic decoder extracts from the same accumulator. */
  lemma AcceptedCode(d: Decoder, now: bv32, code: Word, wiegandType: int)
    requires DoWiegandConversion(d, now).available
    ensures d.frame.bitCount == Wiegand.WIEGAND34 && Silent(d.frame, now)
    ensures var g := Wiegand.DoWiegandConversion(Wiegand.Decoder(d.frame, code, wiegandType), now);
      g.available && g.decoder.code == DoWiegandConversion(d, now).decoder.code
  {
    Wiegand.ConvertedCode(Wiegand.Decoder(d.frame, code, wiegandType), now);
  }

  /** The two tests on a complete frame b1..b34: the right test passes exactly
      when b18..b34 hold an even number of ones, the left test exactly when
      b3..b17 hold an odd number. b1 and b2 play no part. */
  lemma ChecksOnFrame(f: Frame, s: seq<bool>)
    requires Holds(f, s) && |s| == 34
    ensures RightCheck(f) <==> !Odd(Ones(s[17..]))
    ensures LeftCheck(f) <==> Odd(Ones(s[2..17]))
  {
    RightOnFrame(f, s);
    LeftOnFrame(f, s);
  }

  lemma RightOnFrame(f: Frame, s: seq<bool>)
    requires Holds(f, s) && |s| == 34
    ensures f.cardTemp[30] == s[33]
    ensures Ones(f.cardTemp[14..30]) + (if s[33] then 1 else 0) == Ones(s[17..])
  {
    assert f.cardTemp == s[3..] + [false];
    assert f.cardTemp[14..30] == s[17..33];
    assert s[17..] == s[17..33] + [s[33]];
    OnesAppend(s[17..33], [s[33]]);
    assert [s[33]][..0] == [];
  }

  lemma LeftOnFrame(f: Frame, s: seq<bool>)
    requires Holds(f, s) && |s| == 34
    ensures f.cardTempHigh[29] == s[1]
    ensures Ones(f.cardTempHigh[29..] + f.cardTemp[..14]) == (if s[1] then 1 else 0) + Ones(s[2..17])
  {
    RegShort(s[..3] + [false]);
    assert f.cardTemp == s[3..] + [false];
    assert f.cardTempHigh[29..] + f.cardTemp[..14] == [s[1], s[2]] + [false] + s[3..17];
    OnesAppend([s[1], s[2]] + [false], s[3..17]);
    OnesAppend([s[1], s[2]], [false]);
    assert [false][..0] == [];
    OnesAppend([s[1], s[2]], s[3..17]);
    assert [s[1], s[2]] + s[3..17] == [s[1]] + s[2..17];
    OnesAppend([s[1]], s[2..17]);
    assert [s[1]][..0] == [];
  }

  /** 34 edges b1..b34 from a cleared accumulator, then the frame gap: a code
      is available exactly when b3..b17 hold an odd number of ones and b18..b34
      an even number; it is then b3 in bit 31, 0 in bit 30 and b4..b33 below.
      Otherwise the code is unchanged. */
  lemma Decode34(d: Decoder, ps: seq<Pulse>, now: bv32)
    requires IsClear(d.frame) && |ps| == 34
    requires Elapsed(now, ps[33].at) > SILENCE_MS
    ensures var r := DoWiegandConversion(ReceiveAll(d, ps), now);
      var s := BitsOf(ps);
      && (r.available <==> Odd(Ones(s[2..17])) && !Odd(Ones(s[17..])))
      && (r.available ==> GetCode(r.decoder) == [s[2], false] + s[3..33])
      && (!r.available ==> GetCode(r.decoder) == d.code)
  {
    var f := Feed(d.frame, ps);
    FeedHolds(d.frame, ps);
    ChecksOnFrame(f, BitsOf(ps));
    Wiegand.Card34(f, BitsOf(ps));
  }

  /** Neither the verdict on a 34-bit frame nor the code it stores depends on
      its first two bits: the left test compares b2 with a count that itself
      includes b2, b1 is never looked at, and neither reaches the code. */
  lemma VerdictIgnoresFirstTwo(d: Decoder, ps: seq<Pulse>, qs: seq<Pulse>, now: bv32)
    requires IsClear(d.frame) && |ps| == 34 && |qs| == 34
    requires Elapsed(now, ps[33].at) > SILENCE_MS && Elapsed(now, qs[33].at) > SILENCE_MS
    requires forall i :: 2 <= i < 34 ==> ps[i].line == qs[i].line
    ensures DoWiegandConversion(ReceiveAll(d, ps), now).available ==
      DoWiegandConversion(ReceiveAll(d, qs), now).available
    ensures GetCode(DoWiegandConversion(ReceiveAll(d, ps), now).decoder) ==
      GetCode(DoWiegandConversion(ReceiveAll(d, qs), now).decoder)
  {
    Decode34(d, ps, now);
    Decode34(d, qs, now);
    SameLateBits(ps, qs);
    Wiegand.SameLateBits(ps, qs);
  }

  lemma SameLateBits(ps: seq<Pulse>, qs: seq<Pulse>)
    requires |ps| == 34 && |qs| == 34
    requires forall i :: 2 <= i < 34 ==> ps[i].line == qs[i].line
    ensures BitsOf(ps)[2..17] == BitsOf(qs)[2..17]
    ensures BitsOf(ps)[17..] == BitsOf(qs)[17..]
  {
  }
}
