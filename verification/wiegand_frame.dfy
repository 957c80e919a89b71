/**
  The pulse accumulator both Wiegand decoders share. A reader sends a card
  number as a train of falling edges: one on DATA0 for a 0 bit, one on DATA1 for
  a 1 bit. Each edge shifts its bit into the 32-bit register `cardTemp`; once
  more than 31 bits have arrived, the bit that leaves the top of `cardTemp` is
  carried into a second register, `cardTempHigh`. A frame is complete when the
  lines have been quiet for more than 25 ms.
 */
module WiegandFrame {

  import opened Words

  /** The reader line an edge arrived on: DATA0 sends 0, DATA1 sends 1. */
  datatype Line = D0 | D1

  /** One edge and the millisecond clock reading when it was handled. */
  datatype Pulse = Pulse(line: Line, at: bv32)

  /** The accumulator fields: the two registers, the number of edges taken since
      the last re-arm, and the clock reading of the last edge. */
  datatype Frame = Frame(cardTempHigh: Word, cardTemp: Word, bitCount: nat, lastPulseTime: bv32)

  /** Quiet time, in milliseconds, that ends a frame. */
  const SILENCE_MS: bv32 := 25

  /** `0x80000000`. */
  const TOP_BIT: Word := [true] + Zeros(31)

  /** `1`. */
  const ONE: Word := Zeros(31) + [true]

  /** `0xFF`. */
  const LOW_BYTE: Word := Zeros(24) + AllSet(8)

  lemma LiteralValues()
    ensures Value(TOP_BIT) == 0x8000_0000
    ensures Value(ONE) == 1
    ensures Value(LOW_BYTE) == 0xFF
  {
    ValueAppend([true], Zeros(31));
    ValueZeros(31);
    assert Value([true]) == 1;
    Pow2Values();
    LeadingZeros(31, [true]);
    LeadingZeros(24, AllSet(8));
    ValueAllSet(8);
  }

  /** Milliseconds from `since` to `now` on the 32-bit millisecond clock, which
      wraps around. */
  function Elapsed(now: bv32, since: bv32): bv32 {
    now - since
  }

  /** The lines have been quiet for longer than the frame gap. */
  predicate Silent(f: Frame, now: bv32) {
    Elapsed(now, f.lastPulseTime) > SILENCE_MS
  }

  /** The edge handler: the count goes up by one, the new bit enters `cardTemp`
      one place above the bottom (the bottom bit is always left 0), from the 32nd
      edge on the bit leaving the top of `cardTemp` is carried into the bottom of
      `cardTempHigh` and `cardTempHigh` moves up one place, and the clock reading
      is kept. */
  function ReadBit(f: Frame, line: Line, now: bv32): (r: Frame)
    ensures r.bitCount == f.bitCount + 1 && r.lastPulseTime == now
    ensures r.cardTemp == f.cardTemp[1..31] + [line == D1 || f.cardTemp[31], false]
    ensures r.bitCount > 31 ==>
      r.cardTempHigh == f.cardTempHigh[1..31] + [f.cardTempHigh[31] || f.cardTemp[0], false]
    ensures r.bitCount <= 31 ==> r.cardTempHigh == f.cardTempHigh
  {
    var count := f.bitCount + 1;
    var high :=
      if count > 31 then Shl(Or(f.cardTempHigh, Shr(And(TOP_BIT, f.cardTemp), 31)), 1)
      else f.cardTempHigh;
    var low := if line == D1 then Shl(Or(f.cardTemp, ONE), 1) else Shl(f.cardTemp, 1);
    assert low == f.cardTemp[1..31] + [line == D1 || f.cardTemp[31], false];
    assert count > 31 ==>
      high == f.cardTempHigh[1..31] + [f.cardTempHigh[31] || f.cardTemp[0], false];
    Frame(high, low, count, now)
  }

  /** The registers and the count zeroed; the clock reading is kept. */
  function Cleared(f: Frame): Frame {
    f.(cardTempHigh := ZERO, cardTemp := ZERO, bitCount := 0)
  }

  /** Zeroed and stamped with the current clock reading. */
  function Rearmed(f: Frame, now: bv32): Frame {
    Cleared(f).(lastPulseTime := now)
  }

  predicate IsClear(f: Frame) {
    f.cardTempHigh == ZERO && f.cardTemp == ZERO && f.bitCount == 0
  }

  /** The frame after a train of edges, oldest first. */
  function Feed(f: Frame, ps: seq<Pulse>): (r: Frame)
    ensures r.bitCount == f.bitCount + |ps|
    ensures |ps| > 0 ==> r.lastPulseTime == ps[|ps| - 1].at
  {
    if |ps| == 0 then f else ReadBit(Feed(f, ps[..|ps| - 1]), ps[|ps| - 1].line, ps[|ps| - 1].at)
  }

  /** The bits a train of edges sends, first edge first. */
  function BitsOf(ps: seq<Pulse>): (r: seq<bool>)
    ensures |r| == |ps|
    ensures forall i :: 0 <= i < |ps| ==> r[i] == (ps[i].line == D1)
  {
    seq(|ps|, i requires 0 <= i < |ps| => ps[i].line == D1)
  }

  /** A register holding the last 32 bits of `s`, zero-filled at the top when `s`
      is shorter. */
  function Reg(s: seq<bool>): (r: Word)
    ensures forall i :: 0 <= i < 32 ==> r[i] == (|s| - 32 + i >= 0 && s[|s| - 32 + i])
  {
    (Zeros(32) + s)[|s|..]
  }

  /** How many of the first bits of an `n`-bit train have been carried into
      `cardTempHigh`. */
  function Carried(n: nat): nat {
    if n > 31 then n - 31 else 0
  }

  /** `f` is what a cleared frame becomes after the bits `s`: `cardTemp` holds
      the bits shifted up one place, and `cardTempHigh` holds the carried prefix
      shifted up one place. */
  predicate Holds(f: Frame, s: seq<bool>) {
    && f.bitCount == |s|
    && f.cardTemp == Reg(s + [false])
    && f.cardTempHigh == Reg(s[..Carried(|s|)] + [false])
  }

  lemma ReadBitHolds(f: Frame, s: seq<bool>, line: Line, now: bv32)
    requires Holds(f, s)
    ensures Holds(ReadBit(f, line, now), s + [line == D1])
  {
    var r := ReadBit(f, line, now);
    var s' := s + [line == D1];
    ShiftInto(s, line == D1);
    if |s| >= 31 {
      assert s'[..Carried(|s'|)] == s[..Carried(|s|)] + [s[|s| - 31]];
      ShiftInto(s[..Carried(|s|)], s[|s| - 31]);
    } else {
      assert s'[..Carried(|s'|)] == s[..Carried(|s|)];
    }
  }

  /** Shifting a register of bits `s` (then a 0) up by one with `b` in bit 1
      gives the register of bits `s + [b]` (then a 0). */
  lemma ShiftInto(s: seq<bool>, b: bool)
    ensures Reg(s + [false])[1..31] + [b || Reg(s + [false])[31], false] == Reg(s + [b] + [false])
  {
  }

  /** The register contents after any train of edges from a cleared frame. */
  lemma {:induction false} FeedHolds(f: Frame, ps: seq<Pulse>)
    requires IsClear(f)
    ensures Holds(Feed(f, ps), BitsOf(ps))
  {
    if |ps| == 0 {
      assert Reg([false]) == ZERO;
    } else {
      var ps' := ps[..|ps| - 1];
      FeedHolds(f, ps');
      assert BitsOf(ps) == BitsOf(ps') + [ps[|ps| - 1].line == D1];
      ReadBitHolds(Feed(f, ps'), BitsOf(ps'), ps[|ps| - 1].line, ps[|ps| - 1].at);
    }
  }

  /** Up to 31 edges from a cleared frame: `cardTemp` is the bits shifted up one
      place and `cardTempHigh` is still 0. */
  lemma ShortTrain(f: Frame, ps: seq<Pulse>)
    requires IsClear(f) && |ps| <= 31
    ensures Feed(f, ps).cardTemp == Zeros(31 - |ps|) + BitsOf(ps) + [false]
    ensures Feed(f, ps).cardTempHigh == ZERO
  {
    FeedHolds(f, ps);
    assert BitsOf(ps)[..0] == [];
    assert Reg([false]) == ZERO;
  }

  /** Bit 0 of `cardTemp` is 0 after every edge, and bit 0 of `cardTempHigh`
      stays 0 once it is 0. */
  lemma ReadBitKeepsBit0Clear(f: Frame, line: Line, now: bv32)
    ensures !ReadBit(f, line, now).cardTemp[31]
    ensures !f.cardTempHigh[31] ==> !ReadBit(f, line, now).cardTempHigh[31]
  {
  }

  /** A register of at most 32 bits is those bits with zeros above. */
  lemma RegShort(s: seq<bool>)
    requires |s| <= 32
    ensures Reg(s) == Zeros(32 - |s|) + s
  {
  }

  /** `cardTemp >>= 1` at the end of a frame of bits `s`: the register then
      holds the last 31 bits of `s`. */
  lemma Compensated(s: seq<bool>)
    ensures Shr(Reg(s + [false]), 1) == Reg(if |s| > 31 then s[|s| - 31..] else s)
  {
  }

  /** `(code >> 24) & 0xFF`, `(code >> 16) & 0xFF`, `(code >> 8) & 0xFF` and
      `code & 0xFF`, each stored into an `unsigned char`. */
  function BigEndianBytes(code: Word): (r: seq<byte>)
    ensures |r| == 4
  {
    [ToByte(And(Shr(code, 24), LOW_BYTE)), ToByte(And(Shr(code, 16), LOW_BYTE)),
     ToByte(And(Shr(code, 8), LOW_BYTE)), ToByte(And(code, LOW_BYTE))]
  }

  lemma ByteField(code: Word, k: nat)
    requires k < 32 && k % 8 == 0
    ensures ToByte(And(Shr(code, k), LOW_BYTE)) as int == Value(code[24 - k..32 - k])
  {
    assert And(Shr(code, k), LOW_BYTE) == Zeros(24) + code[24 - k..32 - k];
    LeadingZeros(24, code[24 - k..32 - k]);
    assert Pow2(8) == 0x100;
  }

  /** The buffer holds bits 31..24, 23..16, 15..8 and 7..0 of the code. */
  lemma BigEndianFields(code: Word)
    ensures BigEndianBytes(code)[0] as int == Value(code[..8])
    ensures BigEndianBytes(code)[1] as int == Value(code[8..16])
    ensures BigEndianBytes(code)[2] as int == Value(code[16..24])
    ensures BigEndianBytes(code)[3] as int == Value(code[24..])
  {
    ByteField(code, 24);
    ByteField(code, 16);
    ByteField(code, 8);
    ByteField(code, 0);
    assert Shr(code, 0) == code;
    assert code[24..32] == code[24..];
  }

  /** Putting the four bytes back together, most significant first, gives the
      code's value. */
  lemma BigEndianRecombines(code: Word)
    ensures var b := BigEndianBytes(code);
      Value(code) == ((b[0] as int * 0x100 + b[1] as int) * 0x100 + b[2] as int) * 0x100 + b[3] as int
  {
    BigEndianFields(code);
    var p0, p1, p2, p3 := code[..8], code[8..16], code[16..24], code[24..];
    Quarters(code);
    AppendByte(p0, p1);
    AppendByte(p0 + p1, p2);
    AppendByte(p0 + p1 + p2, p3);
  }

  lemma Quarters(code: Word)
    ensures code == code[..8] + code[8..16] + code[16..24] + code[24..]
  {
  }

  lemma AppendByte(s: seq<bool>, t: seq<bool>)
    requires |t| == 8
    ensures Value(s + t) == Value(s) * 0x100 + Value(t)
  {
    ValueAppend(s, t);
    assert Pow2(8) == 0x100;
  }
}
