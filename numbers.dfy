/** Machine integer ranges and powers of two. */
module Numbers {

  const I64_MIN: int := -0x8000_0000_0000_0000
  const I64_MAX: int := 0x7FFF_FFFF_FFFF_FFFF
  const U64_MAX: int := 0xFFFF_FFFF_FFFF_FFFF

  /** Rust's `i64`. */
  type I64 = x: int | I64_MIN <= x <= I64_MAX

  /** Rust's `u64`. */
  type U64 = x: int | 0 <= x <= U64_MAX

  /** Rust's `u8`. */
  type Byte = x: int | 0 <= x < 256

  predicate IsI64(x: int) {
    I64_MIN <= x <= I64_MAX
  }

  function Pow2(n: nat): (r: nat)
    ensures r >= 1
  {
    if n == 0 then 1 else 2 * Pow2(n - 1)
  }

  lemma {:induction false} Pow2Add(a: nat, b: nat)
    ensures Pow2(a + b) == Pow2(a) * Pow2(b)
  {
    if a > 0 {
      Pow2Add(a - 1, b);
    }
  }

  lemma {:induction false} Pow2Monotonic(a: nat, b: nat)
    ensures a <= b ==> Pow2(a) <= Pow2(b)
  {
    if a < b {
      Pow2Monotonic(a, b - 1);
    }
  }

  lemma Pow2SmallLiterals()
    ensures Pow2(4) == 0x10 && Pow2(8) == 0x100
  {
  }

  /** Powers of two used as literals elsewhere: 2^52, 2^53, 2^63 and 2^64. */
  lemma Pow2Literals()
    ensures Pow2(52) == 0x10_0000_0000_0000
    ensures Pow2(53) == 0x20_0000_0000_0000
    ensures Pow2(63) == 0x8000_0000_0000_0000
    ensures Pow2(64) == U64_MAX + 1
  {
    Pow2SmallLiterals();
    Pow2Add(8, 8);
    assert Pow2(16) == 0x1_0000;
    Pow2Add(16, 16);
    assert Pow2(32) == 0x1_0000_0000;
    Pow2Add(32, 16);
    assert Pow2(48) == 0x1_0000_0000_0000;
    Pow2Add(48, 4);
    Pow2Add(52, 1);
    Pow2Add(48, 8);
    Pow2Add(56, 8);
    assert Pow2(64) == 0x1_0000_0000_0000_0000;
    assert Pow2(64) == 2 * Pow2(63);
  }

  /** The position of the highest set bit of a positive number. */
  function Log2(u: nat): (e: nat)
    requires u >= 1
    ensures Pow2(e) <= u < Pow2(e + 1)
  {
    if u == 1 then 0 else 1 + Log2(u / 2)
  }
}
