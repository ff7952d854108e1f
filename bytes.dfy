/** Fixed-width integers and the byte encodings the ring relies on:
    the little-endian reading of a 32-bit word out of a digest, and the
    ASCII decimal rendering of a round index (`usize::to_string`). */
module Bytes {

  const BYTE_LIMIT := 0x100
  const U32_LIMIT := 0x1_0000_0000

  /** Rust `u8`. */
  type u8 = x: int | 0 <= x < 0x100

  /** Rust `u32`. */
  type u32 = x: int | 0 <= x < 0x1_0000_0000

  /** ASCII code of '0' and of the separator '-' used by `Ketama::add`. */
  const ASCII_ZERO: u8 := 48
  const ASCII_DASH: u8 := 45

  // ---------------------------------------------------------------------
  // Little-endian 32-bit words
  // ---------------------------------------------------------------------

  /** The unsigned 32-bit integer whose little-endian bytes are `b`. */
  function LeDecode(b: seq<u8>): (w: u32)
    requires |b| == 4
    ensures w % BYTE_LIMIT == b[0]
    ensures w / 0x100_0000 == b[3]
  {
    b[0] as int + 0x100 * b[1] as int + 0x1_0000 * b[2] as int + 0x100_0000 * b[3] as int
  }

  /** The four little-endian bytes of `w`, least significant first. */
  function LeEncode(w: u32): (b: seq<u8>)
    ensures |b| == 4
  {
    [w % 0x100, w / 0x100 % 0x100, w / 0x100 / 0x100 % 0x100, w / 0x100 / 0x100 / 0x100]
  }

  lemma DecodeEncode(w: u32)
    ensures LeDecode(LeEncode(w)) == w
  {
  }

  lemma EncodeDecode(b: seq<u8>)
    requires |b| == 4
    ensures LeEncode(LeDecode(b)) == b
  {
    var w := LeDecode(b);
    var w2 := b[2] as int + 0x100 * b[3] as int;
    var w1 := b[1] as int + 0x100 * w2;
    assert w == b[0] as int + 0x100 * w1;
    ByteSplit(b[0], w1);
    ByteSplit(b[1], w2);
    ByteSplit(b[2], b[3]);
  }

  /** A byte plus a multiple of 256: the byte is the remainder, the
      multiplier the quotient. */
  lemma ByteSplit(lo: u8, hi: nat)
    ensures (lo + 0x100 * hi) % 0x100 == lo
    ensures (lo + 0x100 * hi) / 0x100 == hi
  {
  }

  /** Word `j` of `d`: the 32-bit integer read little-endian from bytes
      `4*j .. 4*j+3`. */
  function WordAt(d: seq<u8>, j: nat): (w: u32)
    requires 4 * j + 4 <= |d|
    ensures LeEncode(w) == d[4 * j .. 4 * j + 4]
  {
    var b := d[4 * j .. 4 * j + 4];
    EncodeDecode(b);
    LeDecode(b)
  }

  // ---------------------------------------------------------------------
  // Decimal rendering of a non-negative integer
  // ---------------------------------------------------------------------

  predicate IsDigit(c: u8) {
    ASCII_ZERO <= c < ASCII_ZERO + 10
  }

  predicate AllDigits(s: seq<u8>) {
    forall i :: 0 <= i < |s| ==> IsDigit(s[i])
  }

  /** The ASCII decimal digits of `n`, most significant first, without
      leading zeros ("0" for zero), as `usize::to_string` renders it. */
  function Decimal(n: nat): (s: seq<u8>)
    ensures 1 <= |s| && AllDigits(s)
    ensures |s| > 1 ==> s[0] != ASCII_ZERO
    ensures n < 10 <==> |s| == 1
  {
    if n < 10 then [ASCII_ZERO + n] else Decimal(n / 10) + [ASCII_ZERO + n % 10]
  }

  /** The value of a string of decimal digits, most significant first. */
  function DecimalValue(s: seq<u8>): nat
    requires AllDigits(s)
  {
    if s == [] then 0
    else DecimalValue(s[..|s| - 1]) * 10 + (s[|s| - 1] - ASCII_ZERO)
  }

  lemma {:induction false} DecimalRoundTrip(n: nat)
    ensures DecimalValue(Decimal(n)) == n
  {
    if n >= 10 {
      DecimalRoundTrip(n / 10);
      var s := Decimal(n);
      assert s[..|s| - 1] == Decimal(n / 10);
    }
  }

  /** Distinct round indices render as distinct strings. */
  lemma DecimalInjective(m: nat, n: nat)
    requires Decimal(m) == Decimal(n)
    ensures m == n
  {
    DecimalRoundTrip(m);
    DecimalRoundTrip(n);
  }
}
