/** The BKDR key hash (`hash::bkdr`): a rolling polynomial hash over the
    bytes of a key with seed 313131 and 32-bit wrap-around arithmetic. */
module Hash {
  import opened Bytes

  const SEED: nat := 313131

  /** One step of the hash: `h * SEED + b`, both operations wrapping at
      2^32. Reducing once at the end gives the same value as reducing the
      product and the sum separately, as `Wrapping<u32>` does. */
  function Step(h: u32, b: u8): u32 {
    (h * SEED + b) % U32_LIMIT
  }

  /** The hash as a left fold of `Step` over `s`, starting from 0. */
  function Bkdr(s: seq<u8>): u32 {
    if s == [] then 0 else Step(Bkdr(s[..|s| - 1]), s[|s| - 1])
  }

  /** The loop of `hash::bkdr`. */
  method ComputeBkdr(s: seq<u8>) returns (h: u32)
    ensures h == Bkdr(s)
    ensures s == [] ==> h == 0
  {
    h := 0;
    var i := 0;
    while i < |s|
      invariant 0 <= i <= |s|
      invariant h == Bkdr(s[..i])
    {
      assert s[..i + 1][..i] == s[..i];
      h := (h * SEED + s[i]) % U32_LIMIT;
      i := i + 1;
    }
    assert s[..i] == s;
  }

  // ---------------------------------------------------------------------
  // Closed form: the hash is a base-SEED polynomial in the bytes, mod 2^32
  // ---------------------------------------------------------------------

  function Pow(b: nat, e: nat): nat {
    if e == 0 then 1 else b * Pow(b, e - 1)
  }

  /** `s[0] * SEED^(n-1) + s[1] * SEED^(n-2) + ... + s[n-1]`, without
      any wrap-around. */
  function Poly(s: seq<u8>): nat {
    if s == [] then 0 else s[0] * Pow(SEED, |s| - 1) + Poly(s[1..])
  }

  lemma {:induction false} PolySnoc(s: seq<u8>, b: u8)
    ensures Poly(s + [b]) == Poly(s) * SEED + b
  {
    if s == [] {
      assert [b][1..] == [];
    } else {
      var t := s + [b];
      assert t[1..] == s[1..] + [b];
      PolySnoc(s[1..], b);
      calc {
        Poly(t);
        s[0] * Pow(SEED, |s|) + Poly(s[1..] + [b]);
        s[0] * (SEED * Pow(SEED, |s| - 1)) + Poly(s[1..]) * SEED + b;
        { MulAssoc(s[0], SEED, Pow(SEED, |s| - 1)); }
        (s[0] * Pow(SEED, |s| - 1) + Poly(s[1..])) * SEED + b;
      }
    }
  }

  lemma MulAssoc(a: int, b: int, c: int)
    ensures a * (b * c) == (a * c) * b
  {
  }

  /** Reducing the accumulator before the next step does not change the
      result modulo 2^32. */
  lemma ModStep(a: nat, b: nat)
    ensures ((a % U32_LIMIT) * SEED + b) % U32_LIMIT == (a * SEED + b) % U32_LIMIT
  {
    var q := a / U32_LIMIT;
    var r := a % U32_LIMIT;
    assert a == q * U32_LIMIT + r;
    assert a * SEED + b == (r * SEED + b) + (q * SEED) * U32_LIMIT;
    ModMultiple(r * SEED + b, q * SEED);
  }

  lemma ModMultiple(x: nat, k: nat)
    ensures (x + k * U32_LIMIT) % U32_LIMIT == x % U32_LIMIT
  {
  }

  /** The BKDR hash of `s` is its base-313131 polynomial value reduced
      modulo 2^32. */
  lemma {:induction false} BkdrIsPolynomial(s: seq<u8>)
    ensures Bkdr(s) == Poly(s) % U32_LIMIT
  {
    if s != [] {
      var init, last := s[..|s| - 1], s[|s| - 1];
      assert s == init + [last];
      BkdrIsPolynomial(init);
      PolySnoc(init, last);
      ModStep(Poly(init), last);
    }
  }
}
