/**
 * The compact amounts of value canonicalisation: "€50M", "€1.5B", "€800K" (src/canonicalValue.ts).
 * Amounts are exact; rounding is that of Number.prototype.toFixed, section 21.1.3.3 of ECMA-262.
 */
module Amounts {

  datatype Unit = NoUnit | K | M | B

  /** A formatted amount: the number printed, and the unit letter. */
  datatype Formatted = Formatted(value: real, unit: Unit)

  /** multiplierFor, on the letters formatAmount prints. */
  function Multiplier(u: Unit): real {
    match u
    case NoUnit => 1.0
    case K => 1_000.0
    case M => 1_000_000.0
    case B => 1_000_000_000.0
  }

  function UnitFor(abs: real): Unit {
    if abs >= 1_000_000_000.0 then B
    else if abs >= 1_000_000.0 then M
    else if abs >= 1_000.0 then K
    else NoUnit
  }

  /**
   * Number(x.toFixed(2)) for x >= 0: of the hundredths nearest to x the larger; from 10^21 upward
   * toFixed prints the number itself.
   */
  function RoundUp(x: real): real
    requires x >= 0.0
  {
    if x >= 1_000_000_000_000_000_000_000.0 then x else (100.0 * x + 0.5).Floor as real / 100.0
  }

  /** A negative number is rounded by its absolute value. */
  function ToFixed2(x: real): real {
    if x < 0.0 then -RoundUp(-x) else RoundUp(x)
  }

  function FormatAmount(amount: real): Formatted {
    var abs := if amount < 0.0 then -amount else amount;
    Formatted(ToFixed2(amount / Multiplier(UnitFor(abs))), UnitFor(abs))
  }

  /** The amount read back from the formatted text. */
  function AmountOf(f: Formatted): real {
    f.value * Multiplier(f.unit)
  }

  function Canonical(amount: real): real {
    AmountOf(FormatAmount(amount))
  }

  // ---------------------------------------------------------------------------------------------
  // Rounding
  // ---------------------------------------------------------------------------------------------

  lemma RoundUpNearest(x: real)
    requires x >= 0.0
    ensures -0.005 < RoundUp(x) - x <= 0.005
    ensures RoundUp(x) >= 0.0
  {
  }

  lemma FloorMonotone(x: real, y: real)
    requires x <= y
    ensures x.Floor <= y.Floor
  {
  }

  lemma RoundUpMonotone(x: real, y: real)
    requires 0.0 <= x <= y
    ensures RoundUp(x) <= RoundUp(y)
  {
    // 10^21 is itself a hundredth, so nothing below it rounds past it
    FloorMonotone(100.0 * x + 0.5, 100.0 * y + 0.5);
    FloorMonotone(100.0 * x + 0.5,
                  if x < 1_000_000_000_000_000_000_000.0 then 100_000_000_000_000_000_000_000.5 else 100.0 * x + 0.5);
  }

  lemma RoundUpTwice(x: real)
    requires x >= 0.0
    ensures RoundUp(RoundUp(x)) == RoundUp(x)
  {
    if x < 1_000_000_000_000_000_000_000.0 {
      var n := (100.0 * x + 0.5).Floor;
      assert 100.0 * RoundUp(x) == n as real;
      assert (n as real + 0.5).Floor == n;
    }
  }

  lemma RoundUpAround(x: real, n: int)
    requires x >= 0.0 && 0 <= n <= 1000
    ensures x >= n as real ==> RoundUp(x) >= n as real
    ensures x <= n as real ==> RoundUp(x) <= n as real
  {
    if x <= n as real {
      assert (100.0 * x + 0.5).Floor <= 100 * n;
    } else if x < 1_000_000_000_000_000_000_000.0 {
      assert (100.0 * x + 0.5).Floor >= 100 * n;
    }
  }

  // ---------------------------------------------------------------------------------------------
  // Reading back a formatted amount
  // ---------------------------------------------------------------------------------------------

  /** The mantissa stays within its unit, or rounds up to exactly one thousand. */
  lemma MantissaRange(a: real)
    requires a >= 0.0
    ensures var v := FormatAmount(a).value;
            && (UnitFor(a) == NoUnit ==> 0.0 <= v <= 1_000.0)
            && (UnitFor(a) != NoUnit ==> 1.0 <= v)
            && (UnitFor(a) != B ==> v <= 1_000.0)
  {
    var u := Multiplier(UnitFor(a));
    RoundUpAround(a / u, 0);
    RoundUpAround(a / u, 1);
    RoundUpAround(a / u, 1000);
  }

  /** Within half a percent from 1000 upward, within half a cent below. */
  lemma CanonicalIsClose(a: real)
    requires a >= 0.0
    ensures a >= 1_000.0 ==> -0.005 * a <= Canonical(a) - a <= 0.005 * a
    ensures a < 1_000.0 ==> -0.005 <= Canonical(a) - a <= 0.005
  {
    RoundUpNearest(a / Multiplier(UnitFor(a)));
    match UnitFor(a) {
      case NoUnit => assert a / 1.0 == a;
      case K =>
      case M =>
      case B =>
    }
  }

  lemma SameUnitMonotone(a: real, b: real)
    requires 0.0 <= a <= b && UnitFor(a) == UnitFor(b)
    ensures Canonical(a) <= Canonical(b)
  {
    var u := Multiplier(UnitFor(a));
    assert a / u <= b / u;
    RoundUpMonotone(a / u, b / u);
    assert RoundUp(a / u) * u <= RoundUp(b / u) * u;
  }

  /** What a unit can hold after rounding. */
  lemma CanonicalRange(a: real)
    requires a >= 0.0
    ensures UnitFor(a) == NoUnit ==> 0.0 <= Canonical(a) <= 1_000.0
    ensures UnitFor(a) == K ==> 1_000.0 <= Canonical(a) <= 1_000_000.0
    ensures UnitFor(a) == M ==> 1_000_000.0 <= Canonical(a) <= 1_000_000_000.0
    ensures UnitFor(a) == B ==> 1_000_000_000.0 <= Canonical(a)
  {
    MantissaRange(a);
    var v := FormatAmount(a).value;
    match UnitFor(a) {
      case NoUnit => assert Canonical(a) == v * 1.0;
      case K => assert Canonical(a) == v * 1_000.0;
      case M => assert Canonical(a) == v * 1_000_000.0;
      case B => assert Canonical(a) == v * 1_000_000_000.0;
    }
  }

  /** Canonicalisation never swaps two amounts. */
  lemma CanonicalIsMonotone(a: real, b: real)
    requires 0.0 <= a <= b
    ensures Canonical(a) <= Canonical(b)
  {
    if UnitFor(a) == UnitFor(b) {
      SameUnitMonotone(a, b);
    } else {
      CanonicalRange(a);
      CanonicalRange(b);
    }
  }

  /** The mantissa has rounded up to one thousand, and a larger unit exists. */
  predicate Carries(f: Formatted) {
    f.value == 1_000.0 && f.unit != B
  }

  function NextUnit(u: Unit): Unit {
    match u
    case NoUnit => K
    case K => M
    case M => B
    case B => B
  }

  lemma UnitOfMantissa(v: real, u: Unit)
    requires 0.0 <= v && (u != NoUnit ==> 1.0 <= v) && (u != B ==> v < 1_000.0)
    ensures UnitFor(v * Multiplier(u)) == u && (v * Multiplier(u)) / Multiplier(u) == v
  {
    match u {
      case NoUnit =>
      case K =>
      case M =>
      case B =>
    }
  }

  lemma FormatAt(amount: real, u: Unit, v: real)
    requires amount >= 0.0 && UnitFor(amount) == u && amount / Multiplier(u) == v
    requires v >= 0.0 && RoundUp(v) == v
    ensures FormatAmount(amount) == Formatted(v, u)
  {
  }

  /** Printing and reading back a rounded mantissa within its unit. */
  lemma FormatOfMantissa(v: real, u: Unit, amount: real)
    requires 0.0 <= v && (u != NoUnit ==> 1.0 <= v) && (u != B ==> v < 1_000.0)
    requires RoundUp(v) == v && amount == v * Multiplier(u)
    ensures FormatAmount(amount) == Formatted(v, u)
  {
    UnitOfMantissa(v, u);
    assert amount >= 0.0 by {
      match u {
        case NoUnit =>
        case K =>
        case M =>
        case B =>
      }
    }
    FormatAt(amount, u, v);
  }

  lemma MantissaIsRounded(a: real)
    requires a >= 0.0
    ensures RoundUp(FormatAmount(a).value) == FormatAmount(a).value
  {
    RoundUpTwice(a / Multiplier(UnitFor(a)));
  }

  lemma FormatKeeps(a: real)
    requires a >= 0.0 && !Carries(FormatAmount(a))
    ensures FormatAmount(Canonical(a)) == FormatAmount(a)
  {
    MantissaRange(a);
    MantissaIsRounded(a);
    FormatOfMantissa(FormatAmount(a).value, FormatAmount(a).unit, Canonical(a));
  }

  lemma FormatCarries(a: real)
    requires a >= 0.0 && Carries(FormatAmount(a))
    ensures FormatAmount(Canonical(a)) == Formatted(1.0, NextUnit(FormatAmount(a).unit))
  {
    match FormatAmount(a).unit {
      case NoUnit =>
      case K =>
      case M =>
    }
  }

  /** Canonicalising a canonical amount changes nothing. */
  lemma CanonicalIsIdempotent(a: real)
    requires a >= 0.0
    ensures Canonical(Canonical(a)) == Canonical(a)
  {
    if Carries(FormatAmount(a)) {
      FormatCarries(a);
    } else {
      FormatKeeps(a);
    }
  }

  /**
   * The text can change once more after the first pass ("1000K" becomes "1M"), and exactly then; it
   * never changes after the second.
   */
  lemma TextStableExactly(a: real)
    requires a >= 0.0
    ensures FormatAmount(Canonical(a)) == FormatAmount(a) <==> !Carries(FormatAmount(a))
    ensures FormatAmount(Canonical(Canonical(a))) == FormatAmount(Canonical(a))
  {
    CanonicalIsIdempotent(a);
    if Carries(FormatAmount(a)) {
      FormatCarries(a);
    } else {
      FormatKeeps(a);
    }
  }

  /** Negative amounts are formatted like their absolute values, so all of the above carries over. */
  lemma FormatIsOdd(a: real)
    ensures FormatAmount(-a) == Formatted(-FormatAmount(a).value, FormatAmount(a).unit)
  {
    var u := Multiplier(UnitFor(if a < 0.0 then -a else a));
    assert (-a) / u == -(a / u);
  }
}
