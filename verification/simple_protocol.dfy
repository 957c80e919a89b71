/**
  The serial frame the firmware sends for each card read (class
  `SimpleProtocol`). The payload is seven bytes: device id, message counter
  high and low byte, and four bytes of card data. A frame is START, the payload
  with every reserved byte masked, the masked checksum of what was sent, then
  STOP. A reserved byte b is sent as the pair 10, b + 20, so that START and STOP
  never occur inside a frame.
 */
module SimpleProtocol {

  import opened Words

  const START: byte := 0x01
  const STOP: byte := 0x04
  const MASK_CHAR: byte := 0x0A

  /** The bytes `send` masks: START, STOP and 10 (`MASK_CHAR`). */
  predicate Reserved(b: byte) {
    b == START || b == STOP || b == 10
  }

  /** `mask(value)`: the two-byte array `msk` with `msk[1] = 10` and
      `msk[0] = value + 20` as an `unsigned char` (wrapping modulo 256).
      Subtracting 20 from `msk[0]` gives the value back, and for a reserved
      value `msk[0]` is 21, 24 or 30, itself not reserved. */
  function Mask(value: byte): (msk: seq<byte>)
    ensures |msk| == 2 && msk[1] == MASK_CHAR
    ensures (msk[0] as int - 20) % 0x100 == value as int
    ensures Reserved(value) ==> msk[0] in {21, 24, 30} && !Reserved(msk[0])
  {
    [((value as int + 20) % 0x100) as byte, 10]
  }

  /** One byte as sent: a reserved byte becomes `msk[1]`, `msk[0]`, any other
      byte is sent as it is. */
  function Escape(b: byte): (r: seq<byte>)
    ensures Reserved(b) <==> |r| == 2
    ensures Reserved(b) ==> r == [MASK_CHAR, ((b as int + 20) % 0x100) as byte]
    ensures !Reserved(b) ==> r == [b]
  {
    if Reserved(b) then var msk := Mask(b); [msk[1], msk[0]] else [b]
  }

  /** A byte string as sent, each byte escaped in order. */
  function EscapeAll(bs: seq<byte>): (r: seq<byte>)
    ensures |bs| <= |r| <= 2 * |bs|
  {
    if |bs| == 0 then [] else EscapeAll(bs[..|bs| - 1]) + Escape(bs[|bs| - 1])
  }

  /** Writing the escape of `b` at `start`, just after the escape of `p`, leaves
      the escape of `p + [b]` in front of the buffer. */
  lemma WriteEscaped(before: seq<byte>, start: nat, p: seq<byte>, b: byte, after: seq<byte>)
    requires start <= |before| == |after| && before[..start] == EscapeAll(p)
    requires start + |Escape(b)| <= |after|
    requires after[..start] == before[..start]
    requires after[start..start + |Escape(b)|] == Escape(b)
    ensures after[..start + |Escape(b)|] == EscapeAll(p + [b])
  {
    assert (p + [b])[..|p|] == p;
    assert after[..start + |Escape(b)|] == after[..start] + after[start..start + |Escape(b)|];
  }

  /** The sum of a byte string, as the `int` accumulator of `checksum` holds
      it; it never exceeds 255 per byte. */
  function Sum(bs: seq<byte>): (r: nat)
    ensures r <= 255 * |bs|
  {
    if |bs| == 0 then 0 else Sum(bs[..|bs| - 1]) + bs[|bs| - 1] as int
  }

  /** `sum & 0xFF` for the non-negative sum: its low byte. */
  function LowByte(sum: nat): byte {
    (sum % 0x100) as byte
  }

  /** `checksum(buffer, size)`: the low byte of the sum of the first `size`
      bytes; 0 when `size` is not positive. The sum stays below 2^31 for any
      buffer shorter than eight million bytes. */
  method Checksum(buffer: seq<byte>, size: int) returns (r: byte)
    requires size <= |buffer|
    ensures size <= 0 ==> r == 0
    ensures size > 0 ==> r == LowByte(Sum(buffer[..size]))
  {
    var sum: nat := 0;
    var i := 0;
    while i < size
      invariant 0 <= i && (size >= 0 ==> i <= size) && (size < 0 ==> i == 0)
      invariant sum == Sum(buffer[..i]) && sum <= 255 * i
    {
      assert buffer[..i + 1][..i] == buffer[..i];
      sum := sum + buffer[i] as int;
      i := i + 1;
    }
    r := LowByte(sum);
  }

  /** The payload of `send`: `tmpBuffer`. */
  function Payload(id: byte, cHigh: byte, cLow: byte, data: seq<byte>): (r: seq<byte>)
    requires |data| >= 4
    ensures |r| == 7
  {
    [id, cHigh, cLow, data[0], data[1], data[2], data[3]]
  }

  /** The frame `send` writes, as a reference definition: START, the escaped
      payload, the escaped checksum of the escaped payload, STOP. */
  function FrameOf(payload: seq<byte>): seq<byte> {
    var body := EscapeAll(payload);
    [START] + body + Escape(LowByte(Sum(body))) + [STOP]
  }

  /** One pass of the escaping loop of `send`: a reserved byte is written as
      `msk[1]`, `msk[0]` and advances `index` by two, any other byte is copied
      and advances it by one. Nothing before `index` changes. */
  method PutByte(sendBuffer: seq<byte>, index: nat, b: byte) returns (buffer: seq<byte>, next: nat)
    requires index + |Escape(b)| <= |sendBuffer|
    ensures |buffer| == |sendBuffer| && next == index + |Escape(b)|
    ensures buffer[..index] == sendBuffer[..index]
    ensures buffer[index..next] == Escape(b)
  {
    if b == START || b == STOP || b == 10 {
      var msk := Mask(b);
      buffer := sendBuffer[index := msk[1]][index + 1 := msk[0]];
      next := index + 2;
      assert buffer[index..next] == [msk[1], msk[0]];
    } else {
      buffer := sendBuffer[index := b];
      next := index + 1;
      assert buffer[index..next] == [b];
    }
  }

  /** The escaping loop of `send`: each payload byte goes into the 14-byte
      `sendBuffer`, masked if reserved. Every write stays inside the buffer and
      `index` ends between 7 and 14. */
  method EscapePayload(tmpBuffer: seq<byte>) returns (sendBuffer: seq<byte>, index: nat)
    requires |tmpBuffer| == 7
    ensures |sendBuffer| == 14 && 7 <= index <= 14
    ensures sendBuffer[..index] == EscapeAll(tmpBuffer)
  {
    sendBuffer := seq(14, _ => 0);
    index := 0;
    var i := 0;
    while i < 7
      invariant 0 <= i <= 7 && i <= index <= 2 * i
      invariant |sendBuffer| == 14
      invariant sendBuffer[..index] == EscapeAll(tmpBuffer[..i])
    {
      ghost var before, start := sendBuffer, index;
      sendBuffer, index := PutByte(sendBuffer, index, tmpBuffer[i]);
      WriteEscaped(before, start, tmpBuffer[..i], tmpBuffer[i], sendBuffer);
      assert tmpBuffer[..i + 1] == tmpBuffer[..i] + [tmpBuffer[i]];
      i := i + 1;
    }
    assert tmpBuffer[..7] == tmpBuffer;
  }

  /** `send`: every `Serial.write` appends to `written`. The bytes written are
      the frame of the payload. */
  method Send(id: byte, cHigh: byte, cLow: byte, data: seq<byte>) returns (written: seq<byte>)
    requires |data| >= 4
    ensures written == FrameOf(Payload(id, cHigh, cLow, data))
  {
    var tmpBuffer := Payload(id, cHigh, cLow, data);
    var sendBuffer, index := EscapePayload(tmpBuffer);
    written := [START];
    var i := 0;
    while i < index
      invariant 0 <= i <= index
      invariant written == [START] + sendBuffer[..i]
    {
      written := written + [sendBuffer[i]];
      i := i + 1;
    }
    var cksum := Checksum(sendBuffer, index);
    if cksum == START || cksum == STOP || cksum == 10 {
      var msk := Mask(cksum);
      written := written + [msk[1]];
      written := written + [msk[0]];
    } else {
      written := written + [cksum];
    }
    written := written + [STOP];
  }

  /** What a receiver does with the interior of a frame: a 10 followed by a
      byte x stands for x - 20 (modulo 256); any other byte stands for itself. */
  function Unescape(bs: seq<byte>): (r: seq<byte>)
    ensures |r| <= |bs|
  {
    if |bs| == 0 then []
    else if bs[0] == MASK_CHAR && |bs| >= 2 then
      [((bs[1] as int - 20) % 0x100) as byte] + Unescape(bs[2..])
    else [bs[0]] + Unescape(bs[1..])
  }

  /** Escaping a prefix one byte longer appends that byte's escape. */
  lemma EscapeAllSnoc(p: seq<byte>, k: nat)
    requires k < |p|
    ensures EscapeAll(p[..k + 1]) == EscapeAll(p[..k]) + Escape(p[k])
  {
    assert p[..k + 1][..k] == p[..k];
  }

  /** Escaping distributes over a leading byte. */
  lemma {:induction false} EscapeAllCons(b: byte, p: seq<byte>)
    ensures EscapeAll([b] + p) == Escape(b) + EscapeAll(p)
  {
    if |p| == 0 {
      assert [b] + p == [b];
      assert EscapeAll([b]) == EscapeAll([]) + Escape(b);
    } else {
      var init := p[..|p| - 1];
      assert ([b] + p)[..|[b] + p| - 1] == [b] + init;
      EscapeAllCons(b, init);
    }
  }

  /** Un-escaping undoes escaping, for every byte string. */
  lemma {:induction false} UnescapeEscapeAll(p: seq<byte>)
    ensures Unescape(EscapeAll(p)) == p
  {
    if |p| > 0 {
      assert p == [p[0]] + p[1..];
      EscapeAllCons(p[0], p[1..]);
      var rest := EscapeAll(p[1..]);
      UnescapeEscapeAll(p[1..]);
      var e := Escape(p[0]) + rest;
      if Reserved(p[0]) {
        assert e[2..] == rest;
      } else {
        assert e[1..] == rest;
      }
    }
  }

  /** The frame interior discipline: no START or STOP, and every 10 is the
      first byte of a pair whose second byte is 21, 24 or 30. */
  predicate Clean(bs: seq<byte>) {
    forall i :: 0 <= i < |bs| ==>
      bs[i] != START && bs[i] != STOP &&
      (bs[i] == MASK_CHAR ==> i + 1 < |bs| && bs[i + 1] in {21, 24, 30})
  }

  lemma CleanAppend(a: seq<byte>, b: seq<byte>)
    requires Clean(a) && Clean(b)
    ensures Clean(a + b)
  {
    forall i | 0 <= i < |a + b|
      ensures (a + b)[i] != START && (a + b)[i] != STOP
      ensures (a + b)[i] == MASK_CHAR ==> i + 1 < |a + b| && (a + b)[i + 1] in {21, 24, 30}
    {
      if i < |a| {
        assert (a + b)[i] == a[i];
        if a[i] == MASK_CHAR {
          assert i + 1 < |a| && a[i + 1] in {21, 24, 30};
          assert (a + b)[i + 1] == a[i + 1];
        }
      } else {
        assert (a + b)[i] == b[i - |a|];
        if b[i - |a|] == MASK_CHAR {
          assert i - |a| + 1 < |b| && b[i - |a| + 1] in {21, 24, 30};
          assert (a + b)[i + 1] == b[i - |a| + 1];
        }
      }
    }
  }

  /** Every escaped byte string is clean. */
  lemma {:induction false} EscapeAllClean(p: seq<byte>)
    ensures Clean(EscapeAll(p))
  {
    if |p| > 0 {
      EscapeAllClean(p[..|p| - 1]);
      CleanAppend(EscapeAll(p[..|p| - 1]), Escape(p[|p| - 1]));
    }
  }

  /** The shape of every frame `send` writes: 10 to 18 bytes, START first,
      STOP last, a clean interior, and an interior that un-escapes to the
      payload followed by the checksum of the escaped body. */
  lemma FrameShape(payload: seq<byte>)
    requires |payload| == 7
    ensures var f := FrameOf(payload);
      && 10 <= |f| <= 18
      && f[0] == START && f[|f| - 1] == STOP
      && Clean(f[1..|f| - 1])
      && Unescape(f[1..|f| - 1]) == payload + [LowByte(Sum(EscapeAll(payload)))]
  {
    var f := FrameOf(payload);
    var body := EscapeAll(payload);
    var cksum := LowByte(Sum(body));
    assert f[1..|f| - 1] == body + Escape(cksum);
    EscapeAllClean(payload);
    CleanAppend(body, Escape(cksum));
    assert payload + [cksum] == (payload + [cksum])[..7] + [cksum];
    assert EscapeAll(payload + [cksum]) == body + Escape(cksum);
    UnescapeEscapeAll(payload + [cksum]);
  }

  /** The escape of a seven-byte payload is the escapes of its bytes in order. */
  lemma EscapeSeven(p: seq<byte>)
    requires |p| == 7
    ensures EscapeAll(p) == Escape(p[0]) + Escape(p[1]) + Escape(p[2]) + Escape(p[3])
                          + Escape(p[4]) + Escape(p[5]) + Escape(p[6])
  {
    var e0, e1, e2, e3 := Escape(p[0]), Escape(p[1]), Escape(p[2]), Escape(p[3]);
    var e4, e5, e6 := Escape(p[4]), Escape(p[5]), Escape(p[6]);
    assert p[..0] == [];
    assert EscapeAll(p[..1]) == e0 by { EscapeAllSnoc(p, 0); }
    assert EscapeAll(p[..2]) == e0 + e1 by { EscapeAllSnoc(p, 1); }
    assert EscapeAll(p[..3]) == e0 + e1 + e2 by { EscapeAllSnoc(p, 2); }
    assert EscapeAll(p[..4]) == e0 + e1 + e2 + e3 by { EscapeAllSnoc(p, 3); }
    assert EscapeAll(p[..5]) == e0 + e1 + e2 + e3 + e4 by { EscapeAllSnoc(p, 4); }
    assert EscapeAll(p[..6]) == e0 + e1 + e2 + e3 + e4 + e5 by { EscapeAllSnoc(p, 5); }
    assert EscapeAll(p[..7]) == e0 + e1 + e2 + e3 + e4 + e5 + e6 by { EscapeAllSnoc(p, 6); }
    assert p[..7] == p;
  }

  /** The escaped body of the payload C5 00 01 04 01 10 04: each of its four
      reserved bytes becomes a pair, giving 11 bytes. */
  lemma ExampleBody()
    ensures EscapeAll([0xC5, 0x00, 0x01, 0x04, 0x01, 0x10, 0x04])
         == [0xC5, 0x00, 0x0A, 0x15, 0x0A, 0x18, 0x0A, 0x15, 0x10, 0x0A, 0x18]
  {
    EscapeSeven([0xC5, 0x00, 0x01, 0x04, 0x01, 0x10, 0x04]);
    assert Escape(0x01) == [0x0A, 0x15] && Escape(0x04) == [0x0A, 0x18];
    assert Escape(0xC5) == [0xC5] && Escape(0x00) == [0x00] && Escape(0x10) == [0x10];
  }

  lemma SumSnoc(s: seq<byte>, k: nat)
    requires k < |s|
    ensures Sum(s[..k + 1]) == Sum(s[..k]) + s[k] as int
  {
    assert s[..k + 1][..k] == s[..k];
  }

  /** The sum of that body is 343, whose low byte is 0x57. */
  lemma ExampleSum()
    ensures Sum([0xC5, 0x00, 0x0A, 0x15, 0x0A, 0x18, 0x0A, 0x15, 0x10, 0x0A, 0x18]) == 343
    ensures LowByte(343) == 0x57
  {
    var b: seq<byte> := [0xC5, 0x00, 0x0A, 0x15, 0x0A, 0x18, 0x0A, 0x15, 0x10, 0x0A, 0x18];
    assert b[..0] == [];
    SumSnoc(b, 0);
    SumSnoc(b, 1);
    SumSnoc(b, 2);
    SumSnoc(b, 3);
    SumSnoc(b, 4);
    SumSnoc(b, 5);
    SumSnoc(b, 6);
    SumSnoc(b, 7);
    SumSnoc(b, 8);
    SumSnoc(b, 9);
    SumSnoc(b, 10);
    assert b[..11] == b;
  }

  /** The whole frame of that payload: 14 bytes, checksum 0x57. */
  lemma ExampleFrame()
    ensures FrameOf(Payload(0xC5, 0x00, 0x01, [0x04, 0x01, 0x10, 0x04]))
         == [0x01, 0xC5, 0x00, 0x0A, 0x15, 0x0A, 0x18, 0x0A, 0x15, 0x10, 0x0A, 0x18, 0x57, 0x04]
  {
    ExampleBody();
    ExampleSum();
  }
}
