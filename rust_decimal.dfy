// The `rust_decimal::Decimal` support of rust_decimal.rs: a Decimal is stored in a
// Decimal128 column at the default scale, its mantissa rescaled with integer
// arithmetic, and read back as a Decimal of that scale.

module RustDecimal {
  import opened Base
  import opened Schema

  /** `DECIMAL_DEFAULT_SCALE` and `DECIMAL128_MAX_PRECISION`. */
  const DefaultScale: nat := 10
  const MaxPrecision: nat := 38

  /** A Decimal's mantissa is a 96-bit magnitude with a sign; its scale is at most 28. */
  const MantissaBound: int := 0x1_0000_0000_0000_0000_0000_0000
  const MaxScale: nat := 28

  const I128Min: int := -0x8000_0000_0000_0000_0000_0000_0000_0000
  const I128Max: int := 0x7fff_ffff_ffff_ffff_ffff_ffff_ffff_ffff

  /** A Decimal: the value `mantissa / 10^scale`. */
  datatype Decimal = Decimal(mantissa: int, scale: nat)

  predicate ValidDecimal(d: Decimal)
  {
    -MantissaBound < d.mantissa < MantissaBound && d.scale <= MaxScale
  }

  predicate FitsI128(x: int)
  {
    I128Min <= x <= I128Max
  }

  /** Two Decimals with the same numeric value (`PartialEq` on Decimal). */
  predicate SameValue(a: Decimal, b: Decimal)
  {
    a.mantissa * Pow10(b.scale) == b.mantissa * Pow10(a.scale)
  }

  /** The column type: Decimal128 with the maximum precision and the default scale. */
  function DecimalDataType(): (t: DataType)
    ensures t == Decimal128(38, 10)
  {
    Decimal128(MaxPrecision, DefaultScale)
  }

  // ---------------------------------------------------------------------------
  // Integer arithmetic
  // ---------------------------------------------------------------------------

  function Pow10(n: nat): (p: nat)
    ensures p >= 1
  {
    if n == 0 then 1 else 10 * Pow10(n - 1)
  }

  lemma {:induction false} Pow10Add(a: nat, b: nat)
    ensures Pow10(a + b) == Pow10(a) * Pow10(b)
    decreases a
  {
    if a > 0 {
      Pow10Add(a - 1, b);
    }
  }

  /** Rust's `/` on integers: the quotient truncated toward zero. */
  function TruncDiv(a: int, b: int): (q: int)
    requires b > 0
    ensures a >= 0 ==> q >= 0
    ensures a < 0 ==> q <= 0
  {
    if a >= 0 then a / b else -((-a) / b)
  }

  lemma MulAtLeast(q: nat, b: int)
    requires b >= 1
    ensures q * b >= q
  {
  }

  /** Division of a natural number: the quotient times the divisor is within one
    * divisor below the dividend, and the quotient is at most the dividend. */
  lemma DivBounds(n: nat, b: int)
    requires b > 0
    ensures (n / b) * b <= n < (n / b) * b + b && n / b <= n
  {
    var q := n / b;
    assert n == q * b + n % b;
    MulAtLeast(q, b);
  }

  /** The truncated quotient times the divisor stays within one divisor of the
    * dividend, on the dividend's side of zero, and never has a larger magnitude than
    * the dividend. */
  lemma TruncDivBounds(a: int, b: int)
    requires b > 0
    ensures a >= 0 ==> TruncDiv(a, b) * b <= a < TruncDiv(a, b) * b + b && TruncDiv(a, b) <= a
    ensures a < 0 ==> TruncDiv(a, b) * b - b < a <= TruncDiv(a, b) * b && a <= TruncDiv(a, b)
  {
    if a >= 0 {
      DivBounds(a, b);
    } else {
      var q := (-a) / b;
      DivBounds(-a, b);
      assert TruncDiv(a, b) * b == -(q * b);
    }
  }

  // ---------------------------------------------------------------------------
  // decimal_to_scaled_i128, as written
  // ---------------------------------------------------------------------------

  /** The rescaled mantissa in unbounded integers: with `diff = 10 - scale`, the
    * mantissa itself for `diff == 0`, the mantissa divided by `10^-diff` with Rust's
    * truncating division for `diff < 0`, and the mantissa times `10^diff` for
    * `diff > 0`. */
  function Rescaled(d: Decimal): int
  {
    var diff := DefaultScale as int - d.scale as int;
    if diff == 0 then d.mantissa
    else if diff < 0 then TruncDiv(d.mantissa, Pow10(-diff))
    else d.mantissa * Pow10(diff)
  }

  /** `decimal_to_scaled_i128` as written: the i128 product is not checked, so a
    * product outside i128 panics (in a build with overflow checks) or wraps. */
  function DecimalToScaledI128(d: Decimal): (r: Outcome<int>)
    ensures r.Done? ==> FitsI128(r.value) && r.value == Rescaled(d)
    ensures r.Panic? <==> !FitsI128(Rescaled(d))
  {
    var x := Rescaled(d);
    if FitsI128(x) then Done(x) else Panic
  }

  /** Rescaling up to the default scale keeps the value; rescaling down truncates the
    * extra digits toward zero and never overflows. */
  lemma RescaledValue(d: Decimal)
    requires ValidDecimal(d)
    ensures d.scale <= DefaultScale ==> Rescaled(d) == d.mantissa * Pow10(DefaultScale - d.scale)
    ensures d.scale <= DefaultScale ==> SameValue(d, Decimal(Rescaled(d), DefaultScale))
    ensures d.scale > DefaultScale ==>
      Rescaled(d) == TruncDiv(d.mantissa, Pow10(d.scale - DefaultScale)) &&
      -MantissaBound < Rescaled(d) < MantissaBound
  {
    if d.scale <= DefaultScale {
      var k := DefaultScale - d.scale;
      Pow10Add(k, d.scale);
      calc {
        Rescaled(d) * Pow10(d.scale);
        d.mantissa * Pow10(k) * Pow10(d.scale);
        d.mantissa * (Pow10(k) * Pow10(d.scale));
        d.mantissa * Pow10(DefaultScale);
      }
    } else {
      TruncDivBounds(d.mantissa, Pow10(d.scale - DefaultScale));
    }
  }

  /** `arrow_serialize` as written: one value appended, `Ok`. */
  function SerializeAsWritten(d: Decimal, column: seq<Option<int>>): (r: Outcome<seq<Option<int>>>)
    ensures r.Done? ==> r.value == column + [Some(Rescaled(d))]
    ensures r.Panic? <==> !FitsI128(Rescaled(d))
  {
    match DecimalToScaledI128(d)
    case Done(x) => Done(column + [Some(x)])
    case Panic => Panic
  }

  // ---------------------------------------------------------------------------
  // arrow_deserialize
  // ---------------------------------------------------------------------------

  /** `arrow_deserialize`: a null stays `None`, a value `i` becomes
    * `Decimal::from_i128_with_scale(i, 10)`, which panics when `i` does not fit in 96
    * bits. */
  function Deserialize(v: Option<int>): (r: Outcome<Option<Decimal>>)
    ensures v.None? ==> r == Done(None)
    ensures v.Some? ==> (r.Panic? <==> !(-MantissaBound < v.value < MantissaBound))
    ensures r.Done? && v.Some? ==> r.value == Some(Decimal(v.value, DefaultScale)) && ValidDecimal(r.value.value)
  {
    match v
    case None => Done(None)
    case Some(i) => if -MantissaBound < i < MantissaBound then Done(Some(Decimal(i, DefaultScale))) else Panic
  }

  // ---------------------------------------------------------------------------
  // What goes wrong as written
  // ---------------------------------------------------------------------------

  /** `Decimal::MAX` (mantissa 2^96 - 1, scale 0) times 10^10 leaves i128. */
  lemma MaxDecimalOverflows()
    ensures ValidDecimal(Decimal(MantissaBound - 1, 0))
    ensures DecimalToScaledI128(Decimal(MantissaBound - 1, 0)) == Panic
  {
    assert Pow10(10) == 10000000000;
  }

  /** 10^20 at scale 0 is stored as 10^30, which fits in i128 but not in a Decimal's 96
    * bits: it serializes, and reading the stored value back panics. */
  lemma LargeWholeDecimalUnreadable()
    ensures ValidDecimal(Decimal(Pow10(20), 0))
    ensures SerializeAsWritten(Decimal(Pow10(20), 0), []) == Done([Some(Pow10(30))])
    ensures Deserialize(Some(Pow10(30))) == Panic
  {
    Pow10Add(20, 10);
    Pow10Value20();
    assert Rescaled(Decimal(Pow10(20), 0)) == Pow10(20) * Pow10(10) == Pow10(30);
    assert Pow10(30) == 1000000000000000000000000000000;
    assert FitsI128(Pow10(30));
    assert [] + [Some(Pow10(30))] == [Some(Pow10(30))];
  }

  lemma Pow10Value20()
    ensures Pow10(10) == 10000000000 && Pow10(20) == 100000000000000000000
  {
    Pow10Add(10, 10);
    assert Pow10(10) == 10000000000;
  }

  // ---------------------------------------------------------------------------
  // The checked conversion
  // ---------------------------------------------------------------------------

  /** A Decimal whose rescaled mantissa can be read back: it fits in 96 bits (and so
    * in i128). */
  predicate Representable(d: Decimal)
  {
    -MantissaBound < Rescaled(d) < MantissaBound
  }

  const OutOfRange := "decimal value out of range for Decimal128 at the default scale"

  /** `arrow_serialize` with the product checked: a Decimal that cannot be read back at
    * the default scale is an error and appends nothing. */
  function TrySerialize(d: Decimal, column: seq<Option<int>>): (r: Result<seq<Option<int>>>)
    ensures r.Success? <==> Representable(d)
    ensures r.Success? ==> r.value == column + [Some(Rescaled(d))] && FitsI128(Rescaled(d))
  {
    if Representable(d) then Success(column + [Some(Rescaled(d))])
    else Failure(OutOfRange)
  }

  /** Every Decimal with at most 10 fractional digits that the checked conversion
    * accepts reads back as an equal Decimal; one with more fractional digits reads back
    * truncated toward zero; nothing accepted panics on the way back. */
  lemma CheckedRoundTrip(d: Decimal, column: seq<Option<int>>)
    requires ValidDecimal(d)
    ensures d.scale > DefaultScale ==> Representable(d)
    ensures TrySerialize(d, column).Success? ==>
      var stored := TrySerialize(d, column).value[|column|];
      Deserialize(stored).Done? && Deserialize(stored).value.Some? &&
      var e := Deserialize(stored).value.value;
      e.scale == DefaultScale &&
      (d.scale <= DefaultScale ==> SameValue(d, e)) &&
      (d.scale > DefaultScale ==> e.mantissa == TruncDiv(d.mantissa, Pow10(d.scale - DefaultScale)))
  {
    RescaledValue(d);
  }

  /** A Decimal with at most 10 fractional digits is accepted by the checked conversion
    * exactly when its mantissa times `10^(10 - scale)` stays below 2^96 in magnitude,
    * and the unchecked one then stores the same value; a mantissa of magnitude at most
    * 2^62 always is. */
  lemma SmallDecimalsAccepted(d: Decimal)
    requires ValidDecimal(d) && d.scale <= DefaultScale
    ensures Representable(d) <==> -MantissaBound < d.mantissa * Pow10(DefaultScale - d.scale) < MantissaBound
    ensures Representable(d) ==> SerializeAsWritten(d, []) == Done([Some(Rescaled(d))])
    ensures -0x4000_0000_0000_0000 <= d.mantissa <= 0x4000_0000_0000_0000 ==> Representable(d)
  {
    RescaledValue(d);
    var k := DefaultScale - d.scale;
    if -0x4000_0000_0000_0000 <= d.mantissa <= 0x4000_0000_0000_0000 {
      Pow10Bound(k);
      Bound(d.mantissa, Pow10(k));
    }
    assert [] + [Some(Rescaled(d))] == [Some(Rescaled(d))];
  }

  /** What the checked conversion stores fits the column type `DecimalDataType()`: it
    * has fewer than 38 digits, the declared precision, and is read back at the declared
    * scale. */
  lemma StoredFitsColumnType(d: Decimal, column: seq<Option<int>>)
    requires ValidDecimal(d)
    ensures DecimalDataType().Decimal128? && DecimalDataType().precision == MaxPrecision
    ensures TrySerialize(d, column).Success? ==>
      -(Pow10(DecimalDataType().precision) as int) < Rescaled(d) < Pow10(DecimalDataType().precision)
    ensures TrySerialize(d, column).Success? ==>
      Deserialize(TrySerialize(d, column).value[|column|]).value.value.scale == DecimalDataType().scale
  {
    Pow10Value20();
    Pow10Add(20, 9);
    assert Pow10(9) == 1000000000;
    Pow10Add(29, 9);
    assert Pow10(38) >= Pow10(29) == 100000000000000000000000000000;
    CheckedRoundTrip(d, column);
  }

  lemma {:induction false} Pow10Bound(k: nat)
    requires k <= 10
    ensures Pow10(k) <= 10000000000
    decreases 10 - k
  {
    if k < 10 {
      Pow10Bound(k + 1);
      assert Pow10(k + 1) == 10 * Pow10(k);
    } else {
      assert Pow10(10) == 10000000000;
    }
  }

  lemma Bound(m: int, p: nat)
    requires -0x4000_0000_0000_0000 <= m <= 0x4000_0000_0000_0000 && 1 <= p <= 10000000000
    ensures -MantissaBound < m * p < MantissaBound
  {
    var n := if m >= 0 then m else -m;
    MulMono(n, 0x4000_0000_0000_0000, p);
    MulMono(p, 10000000000, 0x4000_0000_0000_0000);
    assert n * p <= 0x4000_0000_0000_0000 * 10000000000;
    if m < 0 {
      assert m * p == -(n * p);
    }
  }

  lemma MulMono(x: nat, y: nat, z: nat)
    requires x <= y
    ensures x * z <= y * z
  {
  }
}
