/**
 * IEEE 754 binary64 numbers, kept as their 64-bit patterns. Both value models
 * carry floats only as payloads that are copied, so the bit pattern is all the
 * transcoder needs; the one arithmetic operation it performs is Rust's
 * `u as f64` on an unsigned 64-bit identifier.
 */
module Float64 {
  import opened Numbers

  const BIAS: int := 1023
  const FRACTION_BITS: int := 52
  const TWO_11: nat := 0x800
  const TWO_52: nat := 0x10_0000_0000_0000
  const TWO_53: nat := 0x20_0000_0000_0000
  const TWO_63: nat := 0x8000_0000_0000_0000

  /** Sign bit, 11-bit biased exponent and 52-bit fraction, most significant first. */
  datatype F64 = F64(bits: U64) {

    function Sign(): nat {
      bits / TWO_63
    }

    function BiasedExponent(): nat {
      bits / TWO_52 % TWO_11
    }

    function Fraction(): nat {
      bits % TWO_52
    }

    /** Neither an infinity nor a NaN: the biased exponent is not all ones. */
    predicate IsFinite() {
      BiasedExponent() < TWO_11 - 1
    }

    /** A finite number's magnitude is `Significand() * 2^Exponent()`. */
    function Significand(): nat {
      if BiasedExponent() == 0 then Fraction() else TWO_52 + Fraction()
    }

    function Exponent(): int {
      (if BiasedExponent() == 0 then 1 else BiasedExponent()) - BIAS - FRACTION_BITS
    }
  }

  /** The finite number `f` is exactly the integer `n`. */
  ghost predicate Denotes(f: F64, n: int)
    requires f.IsFinite()
  {
    var magnitude := if f.Sign() == 0 then n else -n;
    && magnitude >= 0
    && if f.Exponent() >= 0 then magnitude == f.Significand() * Pow2(f.Exponent())
       else magnitude * Pow2(-f.Exponent()) == f.Significand()
  }

  /** The positive normal number `sig * 2^(e - 52)`, for a 53-bit significand `sig`. */
  function Normal(e: nat, sig: nat): (f: F64)
    requires e <= 64 && TWO_52 <= sig < TWO_53
    ensures f.IsFinite() && f.Sign() == 0
    ensures f.Significand() == sig && f.Exponent() == e as int - FRACTION_BITS
  {
    var bits := (e + BIAS) * TWO_52 + (sig - TWO_52);
    assert bits / TWO_52 == e + BIAS && bits % TWO_52 == sig - TWO_52;
    F64(bits)
  }

  lemma MulMonotonic(a: nat, b: nat, k: nat)
    ensures a <= b ==> a * k <= b * k
  {
  }

  /** `2^e <= u < 2^(e+1)` scaled by `2^(52-e)` lands in the 53-bit significand range. */
  lemma ScaleUp(u: nat, e: nat)
    requires e <= 52 && Pow2(e) <= u < Pow2(e + 1)
    ensures TWO_52 <= u * Pow2(52 - e) < TWO_53
  {
    Pow2Literals();
    var k := Pow2(52 - e);
    Pow2Add(e, 52 - e);
    Pow2Add(e + 1, 52 - e);
    MulMonotonic(Pow2(e), u, k);
    MulMonotonic(u + 1, Pow2(e + 1), k);
    assert (u + 1) * k == u * k + k;
  }

  /** Dividing a number in `[lo * k, hi * k)` by `k` gives a quotient in `[lo, hi)`. */
  lemma QuotientBounds(u: nat, k: nat, lo: nat, hi: nat)
    requires k > 0 && lo * k <= u < hi * k
    ensures lo <= u / k < hi
  {
    var q := u / k;
    assert q * k <= u < q * k + k;
    MulMonotonic(q + 1, lo, k);
    assert (q + 1) * k == q * k + k;
    MulMonotonic(hi, q, k);
  }

  /** `2^e <= u < 2^(e+1)` divided by `2^(e-52)` lands in the 53-bit significand range. */
  lemma ScaleDown(u: nat, e: nat)
    requires 52 < e && Pow2(e) <= u < Pow2(e + 1)
    ensures TWO_52 <= u / Pow2(e - 52) < TWO_53
  {
    var k := Pow2(e - 52);
    Pow2Literals();
    Pow2Add(52, e - 52);
    Pow2Add(53, e - 52);
    QuotientBounds(u, k, TWO_52, TWO_53);
  }

  lemma Log2OfU64(u: U64)
    requires u >= 1
    ensures Log2(u) <= 63
  {
    Pow2Literals();
    Pow2Monotonic(64, Log2(u));
  }

  /** A number of at most 53 significant bits, `2^e <= u < 2^(e+1)` with `e <= 52`: no rounding. */
  function ShiftedUp(u: nat, e: nat): (f: F64)
    requires e <= 52 && Pow2(e) <= u < Pow2(e + 1)
    ensures f.IsFinite() && Denotes(f, u)
  {
    ScaleUp(u, e);
    Normal(e, u * Pow2(52 - e))
  }

  /**
   * The 53-bit quotient `u / 2^(e-52)` rounded to the nearest integer, a tie going to
   * the even one; it may reach 2^53.
   */
  function RoundedSignificand(u: nat, e: nat): (sig: nat)
    requires 52 < e
  {
    var k := Pow2(e - 52);
    var q := u / k;
    var r := u % k;
    var half := Pow2(e - 53);
    if r > half || (r == half && q % 2 == 1) then q + 1 else q
  }

  /**
   * A number of more than 53 significant bits, `2^e <= u < 2^(e+1)` with `52 < e < 64`:
   * the low `e - 52` bits are rounded off; rounding up past 53 bits moves to the next
   * exponent.
   */
  function RoundedDown(u: nat, e: nat): (f: F64)
    requires 52 < e < 64 && Pow2(e) <= u < Pow2(e + 1)
    ensures f.IsFinite()
  {
    ScaleDown(u, e);
    var sig := RoundedSignificand(u, e);
    if sig == TWO_53 then Normal(e + 1, TWO_52) else Normal(e, sig)
  }

  /**
   * Rust's `u as f64` for a `u64`: the binary64 value nearest to `u`, a tie going
   * to the even significand.
   */
  function FromU64(u: U64): (f: F64)
    ensures f.IsFinite() && f.Sign() == 0
  {
    if u == 0 then F64(0)
    else
      Log2OfU64(u);
      var e := Log2(u);
      if e <= 52 then ShiftedUp(u, e) else RoundedDown(u, e)
  }

  /** The all-zero bit pattern, positive zero, is exactly the integer 0. */
  lemma ZeroDenotes(f: F64)
    requires f.bits == 0
    ensures f.IsFinite() && Denotes(f, 0)
  {
    assert f.bits / TWO_52 == 0 && f.bits / TWO_63 == 0 && f.bits % TWO_52 == 0;
    assert f.Sign() == 0 && f.Significand() == 0;
  }

  /** Every integer below 2^53 converts exactly. */
  lemma FromU64Exact(u: U64)
    requires u < Pow2(53)
    ensures Denotes(FromU64(u), u)
  {
    if u == 0 {
      ZeroDenotes(F64(0));
    } else {
      var e := Log2(u);
      Pow2Monotonic(53, e);
      assert FromU64(u) == ShiftedUp(u, e);
    }
  }

  lemma RoundedSignificandNearest(u: nat, e: nat)
    requires 52 < e
    ensures u - Pow2(e - 53) <= RoundedSignificand(u, e) * Pow2(e - 52) <= u + Pow2(e - 53)
  {
    var k := Pow2(e - 52);
    var half := Pow2(e - 53);
    var q := u / k;
    var r := u % k;
    assert u == q * k + r && 0 <= r < k;
    assert k == 2 * half;
    if RoundedSignificand(u, e) == q {
      assert RoundedSignificand(u, e) * k == u - r;
    } else {
      assert RoundedSignificand(u, e) * k == q * k + k;
    }
  }

  /** A normal number with a non-negative exponent is the integer `sig * 2^(e-52)`. */
  lemma NormalDenotes(e: nat, sig: nat)
    requires 52 <= e <= 64 && TWO_52 <= sig < TWO_53
    ensures Denotes(Normal(e, sig), sig * Pow2(e - 52))
  {
  }

  /** Rounding up to 2^53 carries into the exponent: `2^52 * 2^(e+1-52)` is `2^53 * 2^(e-52)`. */
  lemma CarryDenotes(e: nat)
    requires 52 < e < 64
    ensures Denotes(Normal(e + 1, TWO_52), TWO_53 * Pow2(e - 52))
  {
    NormalDenotes(e + 1, TWO_52);
    Pow2Add(1, e - 52);
    assert Pow2(1) == 2;
    assert TWO_52 * Pow2(e + 1 - 52) == TWO_53 * Pow2(e - 52);
  }

  lemma RoundedDownDenotes(u: nat, e: nat)
    requires 52 < e < 64 && Pow2(e) <= u < Pow2(e + 1)
    ensures Denotes(RoundedDown(u, e), RoundedSignificand(u, e) * Pow2(e - 52))
  {
    ScaleDown(u, e);
    var sig := RoundedSignificand(u, e);
    if sig == TWO_53 {
      CarryDenotes(e);
      assert RoundedDown(u, e) == Normal(e + 1, TWO_52);
    } else {
      NormalDenotes(e, sig);
      assert RoundedDown(u, e) == Normal(e, sig);
    }
  }

  /** Above 2^53 the result is an integer within half a unit in the last place of `u`. */
  lemma FromU64Nearest(u: U64)
    requires u >= Pow2(53)
    ensures Log2(u) >= 53
    ensures exists n {:trigger Denotes(FromU64(u), n)} ::
      && Denotes(FromU64(u), n)
      && u - Pow2(Log2(u) - 53) <= n <= u + Pow2(Log2(u) - 53)
  {
    var e := Log2(u);
    Pow2Monotonic(e + 1, 53);
    Log2OfU64(u);
    RoundedDownDenotes(u, e);
    RoundedSignificandNearest(u, e);
    var n := RoundedSignificand(u, e) * Pow2(e - 52);
    assert FromU64(u) == RoundedDown(u, e);
    assert Denotes(FromU64(u), n);
  }

  /**
   * How close `u as f64` is to `u`: equal below 2^53, and within half a unit
   * in the last place from there on.
   */
  lemma FromU64Accuracy(u: U64)
    ensures u < Pow2(53) ==> Denotes(FromU64(u), u)
    ensures u >= Pow2(53) ==>
              && 53 <= Log2(u)
              && exists n {:trigger Denotes(FromU64(u), n)} ::
                && Denotes(FromU64(u), n)
                && u - Pow2(Log2(u) - 53) <= n <= u + Pow2(Log2(u) - 53)
  {
    if u < Pow2(53) {
      FromU64Exact(u);
    } else {
      FromU64Nearest(u);
    }
  }
}
