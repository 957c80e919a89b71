/**
  The generic decoder (class `Wiegand`). After the frame gap it accepts a frame
  of 26 or 34 bits, stores the card code and the frame length, and re-arms; any
  other length is dropped as noise. It checks no parity.
 */
module Wiegand {

  import opened Words
  import opened WiegandFrame

  const WIEGAND26: nat := 26
  const WIEGAND34: nat := 34

  /** `0x03`. */
  const LOW_TWO: Word := Zeros(30) + AllSet(2)

  /** `0x1FFFFFE`: bits 1 to 24. */
  const CARD26_MASK: Word := Zeros(7) + AllSet(24) + [false]

  lemma MaskValues()
    ensures Value(LOW_TWO) == 3
    ensures Value(CARD26_MASK) == 0x1FF_FFFE
  {
    LeadingZeros(30, AllSet(2));
    ValueAllSet(2);
    ValueAppend(Zeros(7) + AllSet(24), [false]);
    LeadingZeros(7, AllSet(24));
    ValueAllSet(24);
    Pow2Values();
  }

  /** The decoder's fields: the accumulator, the last card code and the length
      of the frame it came from. */
  datatype Decoder = Decoder(frame: Frame, code: Word, wiegandType: int)

  /** The static initialisers: every field 0. */
  const INITIAL: Decoder := Decoder(Frame(ZERO, ZERO, 0, 0), ZERO, 0)

  /** At power-up the accumulator is cleared, so the results about trains
      "from a cleared decoder" apply to the first frame read. */
  lemma InitialIsClear()
    ensures IsClear(INITIAL.frame) && INITIAL.code == ZERO && INITIAL.wiegandType == 0
  {
  }

  /** The DATA0 interrupt: a 0 bit is shifted in; code and type are untouched. */
  function ReadD0(d: Decoder, now: bv32): (r: Decoder)
    ensures r.frame.bitCount == d.frame.bitCount + 1 && r.frame.lastPulseTime == now
    ensures r.frame.cardTemp == d.frame.cardTemp[1..31] + [d.frame.cardTemp[31], false]
    ensures r.code == d.code && r.wiegandType == d.wiegandType
  {
    d.(frame := ReadBit(d.frame, D0, now))
  }

  /** The DATA1 interrupt: a 1 bit is shifted in; code and type are untouched. */
  function ReadD1(d: Decoder, now: bv32): (r: Decoder)
    ensures r.frame.bitCount == d.frame.bitCount + 1 && r.frame.lastPulseTime == now
    ensures r.frame.cardTemp == d.frame.cardTemp[1..31] + [true, false]
    ensures r.code == d.code && r.wiegandType == d.wiegandType
  {
    d.(frame := ReadBit(d.frame, D1, now))
  }

  /** The interrupt for one edge. */
  function Receive(d: Decoder, p: Pulse): Decoder {
    if p.line == D0 then ReadD0(d, p.at) else ReadD1(d, p.at)
  }

  /** A train of edges, oldest first, with no conversion in between. */
  function ReceiveAll(d: Decoder, ps: seq<Pulse>): (r: Decoder)
    ensures r == d.(frame := Feed(d.frame, ps))
  {
    if |ps| == 0 then d else Receive(ReceiveAll(d, ps[..|ps| - 1]), ps[|ps| - 1])
  }

  /** The code from the two registers. For 34 bits, bits 1 and 0 of `codehigh`
      become bits 31 and 30, over `codelow` shifted down one place (its bit 0 is
      dropped). Otherwise bits 24 to 1 of `codelow` become bits 23 to 0. */
  function GetCardId(codehigh: Word, codelow: Word, bitlength: int): (r: Word)
    ensures bitlength == WIEGAND34 ==>
      r == [codehigh[30], codehigh[31] || codelow[0]] + codelow[1..31]
    ensures bitlength != WIEGAND34 ==> r == Zeros(8) + codelow[7..31]
  {
    if bitlength == WIEGAND34 then
      var r := Or(Shl(And(codehigh, LOW_TWO), 30), Shr(codelow, 1));
      assert r == [codehigh[30], codehigh[31] || codelow[0]] + codelow[1..31];
      r
    else
      var r := Shr(And(codelow, CARD26_MASK), 1);
      assert r == Zeros(8) + codelow[7..31];
      r
  }

  /** The result of `DoWiegandConversion`: the new decoder and whether a code
      became available. */
  datatype Conversion = Conversion(decoder: Decoder, available: bool)

  /** The conversion `available()` runs with interrupts off, taken as one atomic
      step at clock reading `now`. Within the frame gap nothing happens. After it,
      a 26- or 34-bit frame yields a code and its length, and the accumulator is
      zeroed with its clock reading kept; any other frame is dropped, the
      accumulator is zeroed and stamped with `now`, and the code and type stay. */
  function DoWiegandConversion(d: Decoder, now: bv32): (r: Conversion)
    ensures r.available <==>
      Silent(d.frame, now) && (d.frame.bitCount == WIEGAND26 || d.frame.bitCount == WIEGAND34)
    ensures !Silent(d.frame, now) ==> r.decoder == d
    ensures r.available ==>
      && IsClear(r.decoder.frame)
      && r.decoder.frame.lastPulseTime == d.frame.lastPulseTime
      && r.decoder.wiegandType == d.frame.bitCount
    ensures Silent(d.frame, now) && !r.available ==>
      r.decoder == Decoder(Frame(ZERO, ZERO, 0, now), d.code, d.wiegandType)
  {
    if !Silent(d.frame, now) then
      Conversion(d, false)
    else if d.frame.bitCount == WIEGAND26 || d.frame.bitCount == WIEGAND34 then
      var low := Shr(d.frame.cardTemp, 1);
      var code := GetCardId(d.frame.cardTempHigh, low, d.frame.bitCount);
      Conversion(Decoder(Cleared(d.frame), code, d.frame.bitCount), true)
    else
      Conversion(Decoder(Rearmed(d.frame, now), d.code, d.wiegandType), false)
  }

  function GetCode(d: Decoder): Word {
    d.code
  }

  function GetCodeInBuffer(d: Decoder): seq<byte> {
    BigEndianBytes(d.code)
  }

  function GetWiegandType(d: Decoder): int {
    d.wiegandType
  }

  /** The buffer is the code's bytes, most significant first. */
  lemma CodeInBufferIsBigEndian(d: Decoder)
    ensures |GetCodeInBuffer(d)| == 4
    ensures var b := GetCodeInBuffer(d);
      Value(GetCode(d)) == ((b[0] as int * 0x100 + b[1] as int) * 0x100 + b[2] as int) * 0x100 + b[3] as int
  {
    BigEndianRecombines(d.code);
  }

  /** The code a successful conversion stores, read off the registers as they
      were before it: for 34 bits, bits 1 and 0 of `_cardTempHigh` over
      `_cardTemp` shifted down two places; for 26 bits, bits 25 to 2 of
      `_cardTemp` moved down to bit 0. */
  lemma ConvertedCode(d: Decoder, now: bv32)
    requires DoWiegandConversion(d, now).available
    ensures d.frame.bitCount == WIEGAND34 ==>
      DoWiegandConversion(d, now).decoder.code ==
        [d.frame.cardTempHigh[30], d.frame.cardTempHigh[31]] + d.frame.cardTemp[..30]
    ensures d.frame.bitCount == WIEGAND26 ==>
      DoWiegandConversion(d, now).decoder.code == Zeros(8) + d.frame.cardTemp[6..30]
  {
    var low := Shr(d.frame.cardTemp, 1);
    assert low[1..31] == d.frame.cardTemp[..30];
    assert low[7..31] == d.frame.cardTemp[6..30];
  }

  /** The code a complete 26-bit frame b1..b26 leaves: b2..b25, the bits
      between the two parity bits. */
  lemma Card26(f: Frame, s: seq<bool>)
    requires Holds(f, s) && |s| == 26
    ensures GetCardId(f.cardTempHigh, Shr(f.cardTemp, 1), WIEGAND26) == Zeros(8) + s[1..25]
  {
    Compensated(s);
    RegShort(s);
    assert (Zeros(6) + s)[7..31] == s[1..25];
  }

  /** The code a complete 34-bit frame b1..b34 leaves: b3 in bit 31, 0 in bit
      30 and b4..b33 below. */
  lemma Card34(f: Frame, s: seq<bool>)
    requires Holds(f, s) && |s| == 34
    ensures GetCardId(f.cardTempHigh, Shr(f.cardTemp, 1), WIEGAND34) == [s[2], false] + s[3..33]
  {
    Compensated(s);
    RegShort(s[3..]);
    RegShort(s[..3] + [false]);
    assert ([false] + s[3..])[1..31] == s[3..33];
  }

  /** 26 edges b1..b26 from a cleared accumulator, then the frame gap: a code
      is available, the type is 26, and the code is b2..b25, so it is below
      2^24. */
  lemma Decode26(d: Decoder, ps: seq<Pulse>, now: bv32)
    requires IsClear(d.frame) && |ps| == 26
    requires Elapsed(now, ps[25].at) > SILENCE_MS
    ensures var r := DoWiegandConversion(ReceiveAll(d, ps), now);
      && r.available
      && GetWiegandType(r.decoder) == 26
      && GetCode(r.decoder) == Zeros(8) + BitsOf(ps)[1..25]
      && Value(GetCode(r.decoder)) == Value(BitsOf(ps)[1..25]) < Pow2(24)
  {
    var s := BitsOf(ps);
    FeedHolds(d.frame, ps);
    Card26(Feed(d.frame, ps), s);
    ConvertedCode(ReceiveAll(d, ps), now);
    LeadingZeros(8, s[1..25]);
  }

  /** 34 edges b1..b34 from a cleared accumulator, then the frame gap: a code
      is available, the type is 34, and the code is b3 in bit 31, 0 in bit 30
      and b4..b33 below. */
  lemma Decode34(d: Decoder, ps: seq<Pulse>, now: bv32)
    requires IsClear(d.frame) && |ps| == 34
    requires Elapsed(now, ps[33].at) > SILENCE_MS
    ensures var r := DoWiegandConversion(ReceiveAll(d, ps), now);
      && r.available
      && GetWiegandType(r.decoder) == 34
      && GetCode(r.decoder) == [BitsOf(ps)[2], false] + BitsOf(ps)[3..33]
  {
    FeedHolds(d.frame, ps);
    Card34(Feed(d.frame, ps), BitsOf(ps));
    ConvertedCode(ReceiveAll(d, ps), now);
  }

  /** Bit 30 of a 34-bit code is always 0, and b1 and b2 never reach the code:
      two trains that differ only there give the same code. */
  lemma Decode34Loses(d: Decoder, ps: seq<Pulse>, qs: seq<Pulse>, now: bv32)
    requires IsClear(d.frame) && |ps| == 34 && |qs| == 34
    requires Elapsed(now, ps[33].at) > SILENCE_MS && Elapsed(now, qs[33].at) > SILENCE_MS
    requires forall i :: 2 <= i < 34 ==> ps[i].line == qs[i].line
    ensures !GetCode(DoWiegandConversion(ReceiveAll(d, ps), now).decoder)[1]
    ensures GetCode(DoWiegandConversion(ReceiveAll(d, ps), now).decoder) ==
      GetCode(DoWiegandConversion(ReceiveAll(d, qs), now).decoder)
  {
    Decode34(d, ps, now);
    Decode34(d, qs, now);
    SameLateBits(ps, qs);
  }

  lemma SameLateBits(ps: seq<Pulse>, qs: seq<Pulse>)
    requires |ps| == 34 && |qs| == 34
    requires forall i :: 2 <= i < 34 ==> ps[i].line == qs[i].line
    ensures [BitsOf(ps)[2], false] + BitsOf(ps)[3..33] == [BitsOf(qs)[2], false] + BitsOf(qs)[3..33]
  {
    assert BitsOf(ps)[3..33] == BitsOf(qs)[3..33];
  }
}
