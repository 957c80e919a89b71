/**
  The machine types of the firmware. An `unsigned long` is 32 bits wide on the
  target. The card accumulators are only ever shifted, masked and combined, so
  such a register is modelled by its 32 bits, most significant first: index 0
  holds bit 31 and index 31 holds bit 0. This module gives the C++ operators
  `<<`, `>>`, `&` and `|` on registers, the number a bit string denotes, and the
  number of set bits in one.
 */
module Words {

  /** An `unsigned char`. */
  newtype byte = b: int | 0 <= b < 0x100

  /** An `unsigned long` register, most significant bit first. */
  type Word = w: seq<bool> | |w| == 32 witness Zeros(32)

  function Zeros(n: nat): (r: seq<bool>)
    ensures |r| == n
    ensures forall i :: 0 <= i < n ==> !r[i]
  {
    seq(n, _ => false)
  }

  function AllSet(n: nat): (r: seq<bool>)
    ensures |r| == n
    ensures forall i :: 0 <= i < n ==> r[i]
  {
    seq(n, _ => true)
  }

  /** The register holding 0. */
  const ZERO: Word := Zeros(32)

  /** `w << k`, for a shift amount below the width: bit `j` moves to bit `j + k`
      and the `k` lowest bits become 0. */
  function Shl(w: Word, k: nat): (r: Word)
    requires k < 32
    ensures forall i :: 0 <= i < 32 ==> r[i] == (i + k < 32 && w[i + k])
  {
    w[k..] + Zeros(k)
  }

  /** `w >> k` on an unsigned register: bit `j` moves to bit `j - k` and the `k`
      highest bits become 0. */
  function Shr(w: Word, k: nat): (r: Word)
    requires k < 32
    ensures forall i :: 0 <= i < 32 ==> r[i] == (k <= i && w[i - k])
  {
    Zeros(k) + w[..32 - k]
  }

  /** `a & b`. */
  function And(a: Word, b: Word): (r: Word)
    ensures forall i :: 0 <= i < 32 ==> r[i] == (a[i] && b[i])
  {
    seq(32, i requires 0 <= i < 32 => a[i] && b[i])
  }

  /** `a | b`. */
  function Or(a: Word, b: Word): (r: Word)
    ensures forall i :: 0 <= i < 32 ==> r[i] == (a[i] || b[i])
  {
    seq(32, i requires 0 <= i < 32 => a[i] || b[i])
  }

  /** The C++ conversion of an `unsigned long` to `unsigned char`: the value
      modulo 256. */
  function ToByte(w: Word): byte {
    (Value(w) % 0x100) as byte
  }

  /** The C++ conversion of an `unsigned long` to `bool`: true unless 0. */
  predicate Truth(w: Word) {
    w != ZERO
  }

  lemma TruthOfBit0(w: Word)
    requires forall i :: 0 <= i < 31 ==> !w[i]
    ensures Truth(w) == w[31]
  {
    if !w[31] {
      assert w == ZERO;
    }
  }

  function Pow2(n: nat): (r: nat)
    ensures r > 0
  {
    if n == 0 then 1 else 2 * Pow2(n - 1)
  }

  lemma Pow2Values()
    ensures Pow2(8) == 0x100
    ensures Pow2(16) == 0x1_0000
    ensures Pow2(24) == 0x100_0000
    ensures Pow2(31) == 0x8000_0000
  {
    assert Pow2(8) == 0x100;
    assert Pow2(16) == 0x1_0000;
    assert Pow2(24) == 0x100_0000;
  }

  /** The number a bit string denotes, most significant bit first. */
  function Value(s: seq<bool>): (r: nat)
    ensures r < Pow2(|s|)
  {
    if |s| == 0 then 0 else 2 * Value(s[..|s| - 1]) + (if s[|s| - 1] then 1 else 0)
  }

  /** The number of set bits in a bit string. */
  function Ones(s: seq<bool>): (r: nat)
    ensures r <= |s|
  {
    if |s| == 0 then 0 else Ones(s[..|s| - 1]) + (if s[|s| - 1] then 1 else 0)
  }

  predicate Odd(n: nat) {
    n % 2 == 1
  }

  /** Appending bits below a bit string multiplies its value by a power of two. */
  lemma {:induction false} ValueAppend(s: seq<bool>, t: seq<bool>)
    ensures Value(s + t) == Value(s) * Pow2(|t|) + Value(t)
  {
    if |t| == 0 {
      assert s + t == s;
    } else {
      var t' := t[..|t| - 1];
      assert (s + t)[..|s + t| - 1] == s + t';
      ValueAppend(s, t');
      var c := if t[|t| - 1] then 1 else 0;
      assert Pow2(|t|) == 2 * Pow2(|t'|);
      Distribute(Value(s), Pow2(|t'|), Value(t'), c);
    }
  }

  lemma Distribute(a: int, p: int, b: int, c: int)
    ensures 2 * (a * p + b) + c == a * (2 * p) + (2 * b + c)
  {
  }

  lemma {:induction false} ValueZeros(n: nat)
    ensures Value(Zeros(n)) == 0
  {
    if n > 0 {
      assert Zeros(n)[..n - 1] == Zeros(n - 1);
      ValueZeros(n - 1);
    }
  }

  lemma {:induction false} ValueAllSet(n: nat)
    ensures Value(AllSet(n)) == Pow2(n) - 1
  {
    if n > 0 {
      assert AllSet(n)[..n - 1] == AllSet(n - 1);
      ValueAllSet(n - 1);
    }
  }

  /** Leading zero bits do not change the value. */
  lemma LeadingZeros(n: nat, s: seq<bool>)
    ensures Value(Zeros(n) + s) == Value(s)
  {
    ValueAppend(Zeros(n), s);
    ValueZeros(n);
  }

  lemma {:induction false} OnesAppend(s: seq<bool>, t: seq<bool>)
    ensures Ones(s + t) == Ones(s) + Ones(t)
  {
    if |t| == 0 {
      assert s + t == s;
    } else {
      var t' := t[..|t| - 1];
      assert (s + t)[..|s + t| - 1] == s + t';
      OnesAppend(s, t');
    }
  }

  lemma {:induction false} OnesZeros(n: nat)
    ensures Ones(Zeros(n)) == 0
  {
    if n > 0 {
      assert Zeros(n)[..n - 1] == Zeros(n - 1);
      OnesZeros(n - 1);
    }
  }
}
