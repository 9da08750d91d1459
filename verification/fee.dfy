/** The fee calculator of the parking service (`calculatePrice` in
    src/modules/parking/parking.service.ts): a monthly charge counted in
    calendar months, or an hour-by-hour walk that bills daytime hours at
    base/24 and night hours at 1.5 times that, prorates the last partial
    hour, rounds to cents and never charges less than the base price. */
module Fee {
  import opened Types
  import opened Calendar

  /** The ticket_prices table, keyed by its primary key (type, vehicleType). */
  type Prices = map<(TicketType, VehicleType), real>

  /** `getHours()` in [06:00, 18:00) bills at the day rate. */
  predicate IsDaytime(t: Time)
  {
    6 <= HourOfDay(t) < 18
  }

  function DayRate(base: real): real
  {
    base / 24.0
  }

  function NightRate(base: real): real
  {
    DayRate(base) * 1.5
  }

  /** Rate of the hour that starts at `t`. */
  function RateAt(base: real, t: Time): real
  {
    if IsDaytime(t) then DayRate(base) else NightRate(base)
  }

  /** Charge for [cur, end): each step bills one hour at the rate of the
      hour it starts in; a step that overshoots `end` is prorated to the
      fraction of the hour actually elapsed. */
  function HourWalk(base: real, cur: Time, end: Time): real
    decreases end - cur
  {
    if cur >= end then 0.0
    else
      var next := cur + SecondsPerHour;
      if next > end then
        RateAt(base, cur) * (1.0 - (next - end) as real / 3600.0)
      else
        RateAt(base, cur) + HourWalk(base, next, end)
  }

  /** `Math.round(x * 100) / 100`: the nearest cent, halves rounded up. */
  function RoundCents(x: real): (r: real)
    ensures x - 0.005 < r <= x + 0.005
    ensures (r * 100.0).Floor as real == r * 100.0
  {
    (x * 100.0 + 0.5).Floor as real / 100.0
  }

  function Max(a: int, b: int): int
  {
    if a < b then b else a
  }

  /** Calendar months from `start` to `end` by year and month number alone
      (the day of the month is ignored), charged as at least one. */
  function MonthsCharged(start: Time, end: Time): (n: int)
    ensures n >= 1
    ensures n >= MonthsBetween(start, end)
    ensures n == 1 || n == MonthsBetween(start, end)
  {
    Max(1, MonthsBetween(start, end))
  }

  /** A base price of zero reads as missing (`if (!basePrice)`). */
  predicate PriceConfigured(prices: Prices, ttype: TicketType, vtype: VehicleType)
  {
    (ttype, vtype) in prices && prices[(ttype, vtype)] != 0.0
  }

  /** The prorated DAILY-style charge of [start, end), floored at the base
      price: either the base price itself or a whole number of cents within
      half a cent of the walk. */
  function ProratedPrice(base: real, start: Time, end: Time): (r: real)
    ensures r >= base
    ensures r == base || (r * 100.0).Floor as real == r * 100.0
    ensures r > base ==> HourWalk(base, start, end) - 0.005 < r <= HourWalk(base, start, end) + 0.005
    ensures RoundCents(HourWalk(base, start, end)) >= base ==> r == RoundCents(HourWalk(base, start, end))
    ensures RoundCents(HourWalk(base, start, end)) < base ==> r == base
  {
    var total := RoundCents(HourWalk(base, start, end));
    if total < base then base else total
  }

  function CalculatePrice(prices: Prices, ttype: TicketType, vtype: VehicleType, start: Time, end: Time): (r: Result<real>)
    ensures r.Failure? <==> !PriceConfigured(prices, ttype, vtype)
    ensures r.Failure? ==> r.error == PriceNotFound
    ensures PriceConfigured(prices, ttype, vtype) && ttype == Monthly ==>
      r == Success(prices[(ttype, vtype)] * MonthsCharged(start, end) as real)
    ensures PriceConfigured(prices, ttype, vtype) && ttype != Monthly ==>
      r == Success(ProratedPrice(prices[(ttype, vtype)], start, end))
  {
    if !PriceConfigured(prices, ttype, vtype) then Failure(PriceNotFound)
    else if ttype == Monthly then Success(prices[(ttype, vtype)] * MonthsCharged(start, end) as real)
    else Success(ProratedPrice(prices[(ttype, vtype)], start, end))
  }

  /** Hours elapsed between two instants. */
  function Hours(start: Time, end: Time): real
  {
    (end - start) as real / 3600.0
  }

  /** At a base price of 1 the walk bills between the all-day rate 1/24 and
      the all-night rate 1/16 per elapsed hour; with `WalkScales` this bounds
      the walk at any base price between base/24 and base/16 per hour. */
  lemma {:induction false} UnitWalkBounds(start: Time, end: Time)
    requires start <= end
    ensures Hours(start, end) / 24.0 <= HourWalk(1.0, start, end) <= Hours(start, end) / 16.0
    decreases end - start
  {
    if start < end && start + SecondsPerHour <= end {
      UnitWalkBounds(start + SecondsPerHour, end);
    }
  }

  lemma RateScales(base: real, t: Time)
    ensures RateAt(base, t) == base * RateAt(1.0, t)
  {
  }

  /** The walk is linear in the base price. */
  lemma {:induction false} WalkScales(base: real, start: Time, end: Time)
    ensures HourWalk(base, start, end) == base * HourWalk(1.0, start, end)
    decreases end - start
  {
    if start < end {
      if start + SecondsPerHour <= end {
        WalkScales(base, start + SecondsPerHour, end);
        WholeHourScales(base, start, end);
      } else {
        PartHourScales(base, start, end);
      }
    }
  }

  /** A whole first hour keeps the walk linear when the rest of it is. */
  lemma WholeHourScales(base: real, start: Time, end: Time)
    requires start + SecondsPerHour <= end
    requires HourWalk(base, start + SecondsPerHour, end) == base * HourWalk(1.0, start + SecondsPerHour, end)
    ensures HourWalk(base, start, end) == base * HourWalk(1.0, start, end)
  {
    var next := start + SecondsPerHour;
    WholeHourStep(base, start, end);
    WholeHourStep(1.0, start, end);
    RateScales(base, start);
    Distribute(base, RateAt(1.0, start), HourWalk(1.0, next, end));
  }

  /** A walk with a whole first hour bills that hour at its rate, then the rest. */
  lemma WholeHourStep(base: real, start: Time, end: Time)
    requires start + SecondsPerHour <= end
    ensures HourWalk(base, start, end) == RateAt(base, start) + HourWalk(base, start + SecondsPerHour, end)
  {
  }

  /** A last, partial hour is linear in the base price. */
  lemma PartHourScales(base: real, start: Time, end: Time)
    requires start < end < start + SecondsPerHour
    ensures HourWalk(base, start, end) == base * HourWalk(1.0, start, end)
  {
    var unit := RateAt(1.0, start);
    var part := 1.0 - (start + SecondsPerHour - end) as real / 3600.0;
    calc {
      HourWalk(base, start, end);
      RateAt(base, start) * part;
      { RateScales(base, start); }
      (base * unit) * part;
      { Associate(base, unit, part); }
      base * (unit * part);
      base * HourWalk(1.0, start, end);
    }
  }

  lemma Distribute(a: real, b: real, c: real)
    ensures a * b + a * c == a * (b + c)
  {
  }

  lemma Associate(a: real, b: real, c: real)
    ensures (a * b) * c == a * (b * c)
  {
  }

  /** Start of the i-th hour stepped from `a`. */
  function HourStart(a: Time, i: int): Time
  {
    a + i * SecondsPerHour
  }

  /** The walk is additive at any whole-hour step from its start. */
  lemma {:induction false} HourWalkSplit(base: real, a: Time, k: nat, end: Time)
    requires HourStart(a, k) <= end
    ensures HourWalk(base, a, end) == HourWalk(base, a, HourStart(a, k)) + HourWalk(base, HourStart(a, k), end)
    decreases k
  {
    if k > 0 {
      var next := a + SecondsPerHour;
      assert HourStart(next, k - 1) == HourStart(a, k);
      HourWalkSplit(base, next, k - 1, end);
    }
  }

  /** `k` whole hours that all bill at the same `rate` cost `k * rate`. */
  lemma {:induction false} UniformRun(base: real, a: Time, k: nat, rate: real)
    requires forall i :: 0 <= i < k ==> RateAt(base, HourStart(a, i)) == rate
    ensures HourWalk(base, a, HourStart(a, k)) == k as real * rate
    decreases k
  {
    if k > 0 {
      var next := a + SecondsPerHour;
      forall i | 0 <= i < k - 1
        ensures RateAt(base, HourStart(next, i)) == rate
      {
        assert HourStart(next, i) == HourStart(a, i + 1);
      }
      assert HourStart(next, k - 1) == HourStart(a, k);
      UniformRun(base, next, k - 1, rate);
      assert RateAt(base, HourStart(a, 0)) == rate;
    }
  }

  /** A daily price is never below the base price; a stay of zero length
      (or a reversed interval) costs exactly the base price when it is
      positive. */
  lemma DailyFloor(prices: Prices, vtype: VehicleType, start: Time, end: Time)
    requires PriceConfigured(prices, Daily, vtype)
    ensures CalculatePrice(prices, Daily, vtype, start, end).Success?
    ensures CalculatePrice(prices, Daily, vtype, start, end).value >= prices[(Daily, vtype)]
    ensures end <= start && prices[(Daily, vtype)] > 0.0 ==>
      CalculatePrice(prices, Daily, vtype, start, end).value == prices[(Daily, vtype)]
  {
  }

  /** 08:00 to 20:00 on one day with a base price of 240000: ten day hours at
      10000 and two night hours at 15000 make 130000, which the floor lifts
      to the base price. */
  lemma DayNightExample(prices: Prices)
    requires (Daily, Car) in prices && prices[(Daily, Car)] == 240000.0
    ensures HourWalk(240000.0, 8 * SecondsPerHour, 20 * SecondsPerHour) == 130000.0
    ensures CalculatePrice(prices, Daily, Car, 8 * SecondsPerHour, 20 * SecondsPerHour) == Success(240000.0)
  {
    var base := 240000.0;
    var a := 8 * SecondsPerHour;
    forall i | 0 <= i < 10
      ensures RateAt(base, HourStart(a, i)) == 10000.0
    {
      assert HourOfDay(HourStart(a, i)) == 8 + i by {
        DivUnique(HourStart(a, i), SecondsPerHour, 8 + i, 0);
        DivUnique(8 + i, 24, 0, 8 + i);
      }
    }
    UniformRun(base, a, 10, 10000.0);
    var b := 18 * SecondsPerHour;
    forall i | 0 <= i < 2
      ensures RateAt(base, HourStart(b, i)) == 15000.0
    {
      assert HourOfDay(HourStart(b, i)) == 18 + i by {
        DivUnique(HourStart(b, i), SecondsPerHour, 18 + i, 0);
        DivUnique(18 + i, 24, 0, 18 + i);
      }
    }
    UniformRun(base, b, 2, 15000.0);
    HourWalkSplit(base, a, 10, 20 * SecondsPerHour);
    assert HourWalk(base, a, 20 * SecondsPerHour) == 130000.0;
    assert RoundCents(130000.0) == 130000.0;
  }

  /** Within one calendar year, a monthly stay that ends no later than the
      following calendar month is billed as one month, whatever the days of
      the month (15 January to 28 February is one month). */
  lemma MonthlyWithinNextMonth(prices: Prices, vtype: VehicleType, start: Time, end: Time)
    requires PriceConfigured(prices, Monthly, vtype)
    requires ToCivil(start).year == ToCivil(end).year
    requires ToCivil(end).month <= ToCivil(start).month + 1
    ensures CalculatePrice(prices, Monthly, vtype, start, end) == Success(prices[(Monthly, vtype)])
  {
    var base := prices[(Monthly, vtype)];
    var n := MonthsCharged(start, end);
    assert n == 1;
    assert base * n as real == base;
  }
}
