/**
 * `humanReadableByteCountBin`: a byte count in IEC binary units (B, KiB, MiB, GiB, TiB, PiB, EiB).
 *
 * The unit is chosen by integer shifting. The value left after the shifts, divided by 1024.0 and
 * printed with `%.1f`, is exact in binary floating point (it is at most 0xfffcc), so Java's
 * HALF_UP rounding of it to one decimal is the integer `(|value| * 10 + 512) / 1024` tenths.
 */
module SizeFormat {
  import opened Longs
  import opened Decimal

  /** The literal `0xfffccccccccccccL` whose right shifts give the unit thresholds. */
  const THRESHOLD_BASE: nat := 0x0fff_cccc_cccc_cccc

  /** The characters the `StringCharacterIterator` walks through, one per shift. */
  const UNITS: string := "KMGTPE"

  function Pow1024(n: nat): (r: nat)
    ensures r >= 1
  {
    if n == 0 then 1 else 1024 * Pow1024(n - 1)
  }

  /** `x >> (10 * k)` for a non-negative `x`: `k` successive `>>= 10` steps. */
  function Shifted(x: nat, k: nat): nat
  {
    if k == 0 then x else Shifted(x, k - 1) / 1024
  }

  /** The loop's bound before shift number `k` (0-based): `0xfffccccccccccccL >> (40 - 10 * k)`. */
  function Threshold(k: nat): nat
    requires k < 5
  {
    Shifted(THRESHOLD_BASE, 4 - k)
  }

  /** The absolute value `absB` taken in `humanReadableByteCountBin`, with `Long.MIN_VALUE` mapped to `Long.MAX_VALUE`. */
  function AbsBytes(bytes: Long): (a: nat)
    ensures a <= LONG_MAX
    ensures bytes != LONG_MIN ==> a == if bytes < 0 then -bytes else bytes
    ensures bytes == LONG_MIN ==> a == LONG_MAX
  {
    if bytes == LONG_MIN then LONG_MAX else if bytes < 0 then -bytes else bytes
  }

  /** Java's `Long.signum`. */
  function Signum(x: int): int
  {
    if x < 0 then -1 else if x == 0 then 0 else 1
  }

  /**
   * The unit index the shifting loop ends on when it starts at shift `k`: the first index from `k`
   * whose threshold `absB` does not exceed, or 5 (`E`) when the shifts run out.
   */
  function UnitFrom(absB: nat, k: nat): (u: nat)
    requires k <= 5
    ensures k <= u <= 5
    decreases 5 - k
  {
    if k == 5 || absB <= Threshold(k) then k else UnitFrom(absB, k + 1)
  }

  /** The loop stops at the first unit, from `k` on, whose threshold is not exceeded. */
  lemma {:induction false} UnitFromIsFirstFit(absB: nat, k: nat)
    requires k <= 5
    ensures var u := UnitFrom(absB, k);
      && (u < 5 ==> absB <= Threshold(u))
      && forall j :: k <= j < u ==> absB > Threshold(j)
    decreases 5 - k
  {
    if k < 5 && absB > Threshold(k) {
      UnitFromIsFirstFit(absB, k + 1);
    }
  }

  /** `%.1f` of `value / 1024.0` in tenths: the nearest tenth, ties rounded up. */
  function Tenths(value: nat): nat
  {
    (value * 10 + 512) / 1024
  }

  /** `Tenths(value)` is `value / 1024` in tenths, rounded to nearest with ties going up. */
  lemma {:induction false} TenthsRoundsHalfUp(value: nat)
    ensures var t := Tenths(value);
      1024 * t <= 10 * value + 512 < 1024 * (t + 1)
  {
  }

  /** A count of tenths printed with one decimal, followed by the unit, e.g. `12.3 KiB`. */
  function TenthsWithUnit(t: nat, unit: char): string
  {
    NatToString(t / 10) + "." + [DigitChar(t % 10)] + " " + [unit] + "iB"
  }

  /** `String.format("%.1f %ciB", value / 1024.0, unit)` with '.' as the decimal separator. */
  function RenderScaled(value: int, unit: char): string
  {
    if value < 0 then "-" + TenthsWithUnit(Tenths(-value), unit)
    else TenthsWithUnit(Tenths(value), unit)
  }

  /** What `humanReadableByteCountBin(bytes)` returns. */
  function FormatBytes(bytes: Long): string
  {
    var absB := AbsBytes(bytes);
    if absB < 1024 then
      LongToString(bytes) + " B"
    else
      var u := UnitFrom(absB, 0);
      var value: int := Shifted(absB, u);
      RenderScaled(if bytes < 0 then -value else value, UNITS[u])
  }

  /** `humanReadableByteCountBin(bytes)`: the same text as `FormatBytes`, computed with its `for` loop as in `Main.java`. */
  method HumanReadableByteCountBin(bytes: Long) returns (s: string)
    ensures s == FormatBytes(bytes)
  {
    var absB: nat := if bytes == LONG_MIN then LONG_MAX else if bytes < 0 then -bytes else bytes;
    if absB < 1024 {
      return LongToString(bytes) + " B";
    }
    var value, ci := ShiftToUnit(absB);
    ghost var magnitude := value;
    if bytes < 0 {
      assert Signum(bytes) == -1;
    } else {
      assert Signum(bytes) == 1;
    }
    value := value * Signum(bytes);
    assert value == if bytes < 0 then -magnitude else magnitude;
    assert AbsBytes(bytes) == absB;
    ScaledFormat(bytes, ci, magnitude, value);
    s := RenderScaled(value, UNITS[ci]);
  }

  /** From 1024 bytes on, the text is the scaled value with the unit `FormatBytes` picks. */
  lemma {:induction false} ScaledFormat(bytes: Long, u: nat, magnitude: int, value: int)
    requires AbsBytes(bytes) >= 1024 && u == UnitFrom(AbsBytes(bytes), 0)
    requires magnitude == Shifted(AbsBytes(bytes), u) && value == if bytes < 0 then -magnitude else magnitude
    ensures u < |UNITS| && FormatBytes(bytes) == RenderScaled(value, UNITS[u])
  {
  }

  /**
   * The `for` loop of `humanReadableByteCountBin`: while the next threshold `0xfffccccccccccccL >> i` is exceeded, shift
   * `value` right by 10 and step to the next unit character.
   */
  method ShiftToUnit(absB: nat) returns (value: int, ci: nat)
    ensures ci == UnitFrom(absB, 0) && value == Shifted(absB, ci)
  {
    value := absB;
    ci := 0;
    var i := 40;
    while i >= 0 && absB > Shifted(THRESHOLD_BASE, i / 10)
      invariant 0 <= ci <= 5 && i == 40 - 10 * ci
      invariant value == Shifted(absB, ci)
      invariant UnitFrom(absB, ci) == UnitFrom(absB, 0)
      decreases i
    {
      assert i / 10 == 4 - ci && absB > Threshold(ci);
      value := value / 1024;
      ci := ci + 1;
      i := i - 10;
    }
    assert i < 0 || (i / 10 == 4 - ci && absB <= Threshold(ci));
  }

  // ---------------------------------------------------------------------------------------------
  // Properties of the formatter

  lemma {:induction false} ShiftedCompose(x: nat, a: nat, b: nat)
    ensures Shifted(Shifted(x, a), b) == Shifted(x, a + b)
    decreases b
  {
    if b > 0 {
      ShiftedCompose(x, a, b - 1);
    }
  }

  lemma {:induction false} ShiftedMonotone(x: nat, y: nat, k: nat)
    requires x <= y
    ensures Shifted(x, k) <= Shifted(y, k)
    decreases k
  {
    if k > 0 {
      ShiftedMonotone(x, y, k - 1);
    }
  }

  lemma ThresholdValues()
    ensures Threshold(0) == 1048524
    ensures Threshold(1) == 1073689395
    ensures Threshold(2) == 1099457940684
    ensures Threshold(3) == 1125844931261235
    ensures Threshold(4) == 1152865209611504844
    ensures Shifted(LONG_MAX, 5) == 8191
  {
  }

  /**
   * The number that is printed lies between 1.0 and 1023.9: the loop never leaves a value that
   * would round to 1024.0, and never shifts so far that it drops below 1.0.
   */
  lemma {:induction false} ScaledMagnitudeBounds(absB: nat)
    requires 1024 <= absB <= LONG_MAX
    ensures 1023 <= Shifted(absB, UnitFrom(absB, 0)) <= 0xfffcc
    ensures 10 <= Tenths(Shifted(absB, UnitFrom(absB, 0))) <= 10239
  {
    var u := UnitFrom(absB, 0);
    var v := Shifted(absB, u);
    ThresholdValues();
    if u < 5 {
      ShiftedMonotone(absB, Threshold(u), u);
      ShiftedCompose(THRESHOLD_BASE, 4 - u, u);
    } else {
      ShiftedMonotone(absB, LONG_MAX, 5);
    }
    if u > 0 {
      assert absB > Threshold(u - 1);
      ShiftedMonotone(Threshold(u - 1), absB, u - 1);
      ShiftedCompose(THRESHOLD_BASE, 5 - u, u - 1);
      assert Shifted(absB, u - 1) >= 1048524;
    }
  }

  /**
   * The exact magnitude of `absB` bytes in unit `k` (0 = KiB, ..., 5 = EiB), rounded half up to one
   * decimal, is less than 1024.0. The printed number is computed from the truncating shift instead,
   * so it can be smaller than this exact magnitude.
   */
  predicate FitsBelow1024(absB: nat, k: nat)
  {
    20 * absB + Pow1024(k + 1) < 20480 * Pow1024(k + 1)
  }

  lemma {:induction false} ThresholdIsExact(absB: nat, k: nat)
    requires k < 5
    ensures absB <= Threshold(k) <==> FitsBelow1024(absB, k)
  {
    ThresholdValues();
    assert Pow1024(1) == 1024;
    assert Pow1024(2) == 1048576;
    assert Pow1024(3) == 1073741824;
    assert Pow1024(4) == 1099511627776;
    assert Pow1024(5) == 1125899906842624;
  }

  /**
   * The chosen unit is the smallest one in which the exact magnitude rounds below 1024.0, falling
   * back to EiB: the thresholds `0xfffccccccccccccL >> i` encode exactly that rounding boundary.
   */
  lemma {:induction false} UnitIsSmallestFitting(absB: nat)
    ensures var u := UnitFrom(absB, 0);
      && (u == 5 || FitsBelow1024(absB, u))
      && forall j :: 0 <= j < u ==> !FitsBelow1024(absB, j)
  {
    var u := UnitFrom(absB, 0);
    if u < 5 {
      ThresholdIsExact(absB, u);
    }
    forall j | 0 <= j < u
      ensures !FitsBelow1024(absB, j)
    {
      ThresholdIsExact(absB, j);
    }
  }

  /** A negative count renders as its magnitude with a leading minus sign. */
  lemma {:induction false} NegativeMirrorsPositive(b: Long)
    requires 0 < b
    ensures FormatBytes(-b) == "-" + FormatBytes(b)
  {
    var absB := AbsBytes(b);
    assert AbsBytes(-b) == absB;
    if absB >= 1024 {
      var u := UnitFrom(absB, 0);
      var v: int := Shifted(absB, u);
      ScaledMagnitudeBounds(absB);
      assert -v < 0;
      assert FormatBytes(-b) == "-" + TenthsWithUnit(Tenths(v), UNITS[u]);
    } else {
      var digits := NatToString(b);
      assert FormatBytes(-b) == "-" + digits + " B";
    }
  }

  /** Every rendering ends in " B" below 1024 bytes and in a binary unit from KiB to EiB from there on. */
  lemma {:induction false} UnitSuffix(bytes: Long)
    ensures var s := FormatBytes(bytes);
      && (AbsBytes(bytes) < 1024 ==> |s| >= 3 && s[|s| - 2..] == " B")
      && (AbsBytes(bytes) >= 1024 ==> |s| >= 4 && s[|s| - 2..] == "iB" && s[|s| - 3] in UNITS && s[|s| - 4] == ' ')
  {
    if AbsBytes(bytes) < 1024 {
      PlainUnitSuffix(bytes);
    } else {
      ScaledUnitSuffix(bytes);
    }
  }

  lemma {:induction false} PlainUnitSuffix(bytes: Long)
    requires AbsBytes(bytes) < 1024
    ensures var s := FormatBytes(bytes); |s| >= 3 && s[|s| - 2..] == " B"
  {
    assert |LongToString(bytes)| >= 1;
    PlainSuffix(LongToString(bytes));
  }

  lemma {:induction false} ScaledUnitSuffix(bytes: Long)
    requires AbsBytes(bytes) >= 1024
    ensures var s := FormatBytes(bytes); |s| >= 4 && s[|s| - 2..] == "iB" && s[|s| - 3] in UNITS && s[|s| - 4] == ' '
  {
    var u := UnitFrom(AbsBytes(bytes), 0);
    var magnitude: int := Shifted(AbsBytes(bytes), u);
    var value := if bytes < 0 then -magnitude else magnitude;
    ScaledFormat(bytes, u, magnitude, value);
    RenderScaledEnding(value, UNITS[u]);
    assert UNITS[u] in UNITS;
  }

  lemma {:induction false} PlainSuffix(head: string)
    requires |head| >= 1
    ensures var s := head + " B"; |s| >= 3 && s[|s| - 2..] == " B"
  {
    assert (head + " B")[|head|..] == " B";
  }

  lemma {:induction false} RenderScaledEnding(value: int, unit: char)
    ensures var s := RenderScaled(value, unit);
      |s| >= 4 && s[|s| - 2..] == "iB" && s[|s| - 3] == unit && s[|s| - 4] == ' '
  {
    var t := Tenths(if value < 0 then -value else value);
    var head := (if value < 0 then "-" else "") + NatToString(t / 10) + "." + [DigitChar(t % 10)];
    assert RenderScaled(value, unit) == head + [' ', unit, 'i', 'B'];
  }

  /** Long.MIN_VALUE is handled without overflow; both extremes print as 8.0 EiB. */
  lemma ExtremeValues()
    ensures FormatBytes(LONG_MIN) == "-8.0 EiB"
    ensures FormatBytes(LONG_MAX) == "8.0 EiB"
  {
    ThresholdValues();
    assert UnitFrom(LONG_MAX, 0) == 5;
    assert Tenths(8191) == 80;
    assert NatToString(8) == "8";
  }

  lemma ExampleZero()
    ensures FormatBytes(0) == "0 B"
  {
    assert NatToString(0) == "0";
  }

  lemma ExampleKibibyte()
    ensures FormatBytes(1024) == "1.0 KiB"
  {
    ThresholdValues();
    assert UnitFrom(1024, 0) == 0 && Tenths(1024) == 10;
    assert NatToString(1) == "1";
  }

  lemma ExampleMebibyte()
    ensures FormatBytes(1048576) == "1.0 MiB"
  {
    ThresholdValues();
    assert UnitFrom(1048576, 0) == 1 && Shifted(1048576, 1) == 1024;
    assert NatToString(1) == "1";
  }

  lemma ExampleNegative()
    ensures FormatBytes(-2048) == "-2.0 KiB"
  {
    ThresholdValues();
    assert UnitFrom(2048, 0) == 0 && Tenths(2048) == 20;
    assert NatToString(2) == "2";
  }
}
