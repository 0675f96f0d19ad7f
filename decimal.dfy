/**
 * The 18-digit fixed-point decimal (LegacyDec) the voting module computes with,
 * held as an integer count of 10^-18 units. Addition is exact; multiplication
 * rounds inside the library and is passed to the model as a parameter.
 */
module Decimal {

  /** A decimal value in units of 10^-18. */
  type Dec = int

  const Precision: nat := 1_000_000_000_000_000_000

  /** 1.0 */
  const One: Dec := Precision

  /** The decimal `mantissa` times 10^-prec (LegacyNewDecWithPrec). */
  function DecWithPrec(mantissa: int, prec: nat): (d: Dec)
    requires prec <= 18
  {
    mantissa * (Precision / Pow10(prec))
  }

  function Pow10(n: nat): (p: nat)
    ensures p >= 1
  {
    if n == 0 then 1 else 10 * Pow10(n - 1)
  }

  /** The integer part of `d`, rounded toward zero (LegacyDec.TruncateInt). */
  function TruncateInt(d: Dec): (t: int)
    ensures d >= 0 ==> t * Precision <= d < (t + 1) * Precision
    ensures d < 0 ==> (t - 1) * Precision < d <= t * Precision
  {
    if d >= 0 then d / Precision else -((-d) / Precision)
  }
}
