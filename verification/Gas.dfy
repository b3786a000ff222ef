/** The calibrated gas limit, in exact arithmetic, and the rising floor of the gas price. */
module Gas {
  import opened Decimals

  const MIN_AUTO_GAS_LIMIT := 1_000

  // ---------- The gas limit ----------

  /** What a simulation reports: a number, or something that is not finite. */
  datatype Measured = NotFinite | Finite(gas: real)

  /** `Math.ceil(x)`. */
  function Ceil(x: real): (n: int)
    ensures n as real - 1.0 < x <= n as real
  {
    -((-x).Floor)
  }

  /** `Math.ceil(simulated * multiplier) + flat`. */
  function Buffered(simulated: real): int {
    if simulated < 100.0 then Ceil(simulated * 10.0)
    else if simulated < 200.0 then Ceil(simulated * 5.0)
    else if simulated < 400.0 then Ceil(simulated * 2.5)
    else if simulated < 500.0 then Ceil(simulated * 2.0)
    else if simulated < 1_000.0 then Ceil(simulated * 1.5)
    else if simulated < 20_000.0 then Ceil(simulated * 1.15)
    else if simulated < 100_000.0 then Ceil(simulated * 1.10) + 5_000
    else if simulated < 500_000.0 then Ceil(simulated * 1.10) + 10_000
    else Ceil(simulated * 1.05) + 20_000
  }

  function CalculateAutoGasLimit(simulated: Measured, nodeLimit: int): (limit: int)
    ensures simulated.NotFinite? || simulated.gas <= 0.0 ==> limit == 0
    ensures simulated.Finite? && simulated.gas > 0.0 ==> limit <= nodeLimit
    ensures simulated.Finite? && simulated.gas > 0.0 && limit < nodeLimit ==>
      limit >= MIN_AUTO_GAS_LIMIT && limit as real >= 1.05 * simulated.gas
  {
    if simulated.NotFinite? || simulated.gas <= 0.0 then 0 else Clamped(Buffered(simulated.gas), nodeLimit)
  }

  function Clamped(buffered: int, nodeLimit: int): int {
    if Raised(buffered) <= nodeLimit then Raised(buffered) else nodeLimit
  }

  function Raised(buffered: int): int {
    if buffered >= MIN_AUTO_GAS_LIMIT then buffered else MIN_AUTO_GAS_LIMIT
  }

  /** A range of simulations, and what is reserved for them. */
  datatype Band = Band(low: real, high: real, factor: real, flat: int)

  const BANDS := [
    Band(0.0, 100.0, 10.0, 0), Band(100.0, 200.0, 5.0, 0), Band(200.0, 400.0, 2.5, 0), Band(400.0, 500.0, 2.0, 0),
    Band(500.0, 1_000.0, 1.5, 0), Band(1_000.0, 20_000.0, 1.15, 0), Band(20_000.0, 100_000.0, 1.1, 5_000),
    Band(100_000.0, 500_000.0, 1.1, 10_000)]

  /** The amount is at least 1,000, and the flat reserve above the simulation times the factor. */
  predicate Reserves(amount: int, simulated: real, factor: real, flat: int) {
    amount >= 1_000 && (amount - flat) as real >= factor * simulated
  }

  predicate LeastReserve(limit: int, simulated: real, nodeLimit: int, factor: real, flat: int) {
    && limit <= nodeLimit && (limit < nodeLimit ==> Reserves(limit, simulated, factor, flat))
    && !Reserves(limit - 1, simulated, factor, flat)
  }

  /** The limit is the least that reserves what the band of the simulation asks for, or the node's if that is less;
      from 500,000 on the band asks for a factor of 1.05 and a flat 20,000. */
  lemma LimitIsLeastReserve(simulated: real, nodeLimit: int)
    requires simulated > 0.0
    ensures var limit := CalculateAutoGasLimit(Finite(simulated), nodeLimit);
      && (forall band <- BANDS :: band.low <= simulated < band.high ==>
           LeastReserve(limit, simulated, nodeLimit, band.factor, band.flat))
      && (simulated >= 500_000.0 ==> LeastReserve(limit, simulated, nodeLimit, 1.05, 20_000))
  {
  }

  predicate Crosses(a: real, b: real, boundary: real) {
    a < boundary <= b
  }

  /** By how much the limit of one simulation exceeds that of another. */
  function Drop(a: real, b: real, nodeLimit: int): int {
    CalculateAutoGasLimit(Finite(a), nodeLimit) - CalculateAutoGasLimit(Finite(b), nodeLimit)
  }

  /** A larger simulation never gets a smaller limit, except across the boundaries at 1,000 and 500,000, where the
      limit drops by at most 350 and 15,000. */
  lemma LimitAlmostMonotone(a: real, b: real, nodeLimit: int)
    requires 0.0 < a <= b
    ensures !Crosses(a, b, 1_000.0) && !Crosses(a, b, 500_000.0) ==> Drop(a, b, nodeLimit) <= 0
    ensures !Crosses(a, b, 500_000.0) ==> Drop(a, b, nodeLimit) <= 350
    ensures Drop(a, b, nodeLimit) <= 15_000
  {
    BufferAlmostMonotone(a, b);
  }

  /** Between whole amounts of gas the drops are at most 349 and 14,999, and both occur. */
  lemma WholeGasDrops(a: int, b: int, nodeLimit: int)
    requires 0 < a <= b
    ensures !Crosses(a as real, b as real, 500_000.0) ==> Drop(a as real, b as real, nodeLimit) <= 349
    ensures Drop(a as real, b as real, nodeLimit) <= 14_999
    ensures nodeLimit >= 559_999 ==>
      && Drop(999.0, 1_000.0, nodeLimit) == 349
      && Drop(499_999.0, 500_000.0, nodeLimit) == 14_999
  {
    BufferAlmostMonotone(a as real, b as real);
    if a < 1_000 {
      BufferAlmostMonotone(a as real, 999.0);
      BufferAlmostMonotone(1_000.0, if b < 1_000 then 1_000.0 else b as real);
    }
    if a < 500_000 {
      BufferAlmostMonotone(a as real, 499_999.0);
      BufferAlmostMonotone(500_000.0, if b < 500_000 then 500_000.0 else b as real);
    }
  }

  lemma BufferAlmostMonotone(a: real, b: real)
    requires 0.0 < a <= b
    ensures !Crosses(a, b, 1_000.0) && !Crosses(a, b, 500_000.0) ==> Raised(Buffered(a)) <= Raised(Buffered(b))
    ensures !Crosses(a, b, 500_000.0) ==> Raised(Buffered(a)) - Raised(Buffered(b)) <= 350
    ensures Raised(Buffered(a)) - Raised(Buffered(b)) <= 15_000
  {
  }

  // ---------- The gas price ----------

  const GENESIS_TIME_S := 1771869600
  const GENESIS_MIN_GAS_ANU := 10_000
  const MAX_GAS_ANU := 400_000
  const GAS_PRICE_INTERVAL_S := 10_800

  /** The lowest price a node accepts for a transaction created at the given second. */
  function MinGasPriceAnu(t: int): (anu: nat)
    ensures GENESIS_MIN_GAS_ANU <= anu <= MAX_GAS_ANU
  {
    var ticks := if t <= GENESIS_TIME_S then 0 else (t - GENESIS_TIME_S) / GAS_PRICE_INTERVAL_S;
    if GENESIS_MIN_GAS_ANU + ticks <= MAX_GAS_ANU then GENESIS_MIN_GAS_ANU + ticks else MAX_GAS_ANU
  }

  /** The second at which the k-th tick falls. */
  function TickTime(k: nat): int {
    GENESIS_TIME_S + k * GAS_PRICE_INTERVAL_S
  }

  /** The floor rises by one at each tick and reaches the cap exactly at tick 390,000. */
  lemma FloorCountsTicks(t: int, k: nat)
    ensures k <= 390_000 ==> (MinGasPriceAnu(t) >= GENESIS_MIN_GAS_ANU + k <==> k == 0 || t >= TickTime(k))
    ensures MinGasPriceAnu(t) == MAX_GAS_ANU <==> t >= TickTime(390_000)
  {
  }

  /** In numbers: 10,000 until three hours after the evening of 23 February 2026, and by then one more every three
      hours, up to 400,000. */
  lemma FloorInNumbers(t: int)
    ensures t < 1771880400 ==> MinGasPriceAnu(t) == 10_000
    ensures 1771869600 <= t < 1771869600 + 10_800 * 390_000 ==>
      10_800 * (MinGasPriceAnu(t) - 10_000) <= t - 1771869600 < 10_800 * (MinGasPriceAnu(t) - 9_999)
    ensures t >= 1771869600 + 10_800 * 390_000 ==> MinGasPriceAnu(t) == 400_000
  {
  }

  /** A price read at one time and used with a later creation time is too low exactly when a tick that still raises
      the floor falls in between; used with its own time it never is. */
  lemma UnderpricedIffTickBetween(t1: int, t2: int)
    requires t1 <= t2
    ensures MinGasPriceAnu(t1) <= MinGasPriceAnu(t2)
    ensures MinGasPriceAnu(t1) < MinGasPriceAnu(t2) <==>
      exists k: nat :: 1 <= k <= 390_000 && t1 < TickTime(k) <= t2
  {
    var k := MinGasPriceAnu(t2) - GENESIS_MIN_GAS_ANU;
    FloorCountsTicks(t1, k);
    FloorCountsTicks(t2, k);
    if MinGasPriceAnu(t1) < MinGasPriceAnu(t2) {
      assert t1 < TickTime(k) <= t2;
    }
    if j: nat :| 1 <= j <= 390_000 && t1 < TickTime(j) <= t2 {
      FloorCountsTicks(t1, j);
      FloorCountsTicks(t2, j);
    }
  }

  // ---------- Prices as decimal strings ----------

  const ANU_PER_STOA := 1_000_000_000_000

  /** The string that `anuToStoaNumber` converts. */
  function AnuToStoaString(anu: nat): string {
    "0." + PadStart(Dec(anu), 12)
  }

  /** `(anu / ANU_PER_STOA).toFixed(12)` in exact arithmetic. */
  function Fixed12(anu: nat): string {
    Dec(anu / ANU_PER_STOA) + "." + PadStart(Dec(anu % ANU_PER_STOA), 12)
  }

  function StripZeros(s: string): (t: string)
    ensures t <= s && (t == "" || t[|t| - 1] != '0')
  {
    if s != "" && s[|s| - 1] == '0' then StripZeros(s[..|s| - 1]) else s
  }

  function FormatAnuAsStoa(anu: nat): string {
    var stripped := StripZeros(Fixed12(anu));
    if stripped != "" && stripped[|stripped| - 1] == '.' then stripped + "0" else stripped
  }

  lemma TwelveDigits()
    ensures Pow10(12) == ANU_PER_STOA
  {
    assert Pow10(4) == 10_000 && Pow10(8) == 100_000_000;
  }

  lemma FourPlaces(x: real, k: nat)
    ensures ShiftRight(x, k + 4) == ShiftRight(x / 10_000.0, k)
  {
    assert ShiftRight(x, k + 4) == ShiftRight(x / 10.0 / 10.0, k + 2);
    assert ShiftRight(x / 100.0, k + 2) == ShiftRight(x / 100.0 / 10.0 / 10.0, k);
  }

  lemma TwelvePlaces(x: real)
    ensures ShiftRight(x, 12) * (ANU_PER_STOA as real) == x
  {
    FourPlaces(x, 8);
    FourPlaces(x / 10_000.0, 4);
    FourPlaces(x / 10_000.0 / 10_000.0, 0);
  }

  /** For every amount below one STOA the padded string denotes exactly the amount over ten to the twelve. */
  lemma PriceStringExact(anu: nat)
    requires anu < ANU_PER_STOA
    ensures var digits := AnuToStoaString(anu)[2..];
      && |digits| == 12 && AllDigits(digits)
      && Frac(digits) * (ANU_PER_STOA as real) == anu as real
  {
    TwelveDigits();
    PaddedFraction(anu, 12);
    assert AnuToStoaString(anu)[2..] == PadStart(Dec(anu), 12);
    TwelvePlaces(anu as real);
  }

  lemma ZeroAtEnd(front: string)
    requires AllDigits(front)
    ensures AllDigits(front + "0") && Frac(front + "0") == Frac(front)
  {
    FracAppend(front, "0");
    ShiftSum(0.0, 0.0, |front|);
    assert "0"[1..] == "";
  }

  lemma {:induction false} StrippedFraction(head: string, digits: string)
    requires AllDigits(digits) && head != "" && head[|head| - 1] == '.'
    ensures var t := StripZeros(head + digits);
      && head <= t
      && AllDigits(t[|head|..]) && Frac(t[|head|..]) == Frac(digits)
      && (t == head || t[|t| - 1] != '.')
  {
    var s := head + digits;
    if digits == "" {
      assert s == head && head[|head|..] == "";
    } else if digits[|digits| - 1] == '0' {
      var front := digits[..|digits| - 1];
      assert s[..|s| - 1] == head + front;
      StrippedFraction(head, front);
      ZeroAtEnd(front);
      assert digits == front + "0";
    } else {
      assert s[|s| - 1] == digits[|digits| - 1];
      assert s[|head|..] == digits;
    }
  }

  /** Below one STOA the display string, with its trailing zeros stripped but at least one digit kept, denotes the
      same number as the string that goes into a transaction. */
  lemma DisplayAgrees(anu: nat)
    requires anu < ANU_PER_STOA
    ensures var shown := FormatAnuAsStoa(anu);
      && "0." < shown && AllDigits(shown[2..])
      && Frac(shown[2..]) == Frac(AnuToStoaString(anu)[2..])
  {
    PriceStringExact(anu);
    var digits := AnuToStoaString(anu)[2..];
    BelowOne(anu);
    StrippedFraction("0.", digits);
    assert "0"[1..] == "" && "0.0"[2..] == "0";
  }

  lemma BelowOne(anu: nat)
    requires anu < ANU_PER_STOA
    ensures Fixed12(anu) == AnuToStoaString(anu) == "0." + AnuToStoaString(anu)[2..]
  {
    assert anu / ANU_PER_STOA == 0 && anu % ANU_PER_STOA == anu;
    assert Dec(0) == "0" && "0" + "." == "0.";
  }
}
