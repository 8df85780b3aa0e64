/** KRX tick ladders, rounding onto the tick grid, and the marketable limit price.

    Prices are 64-bit signed integers.  An addition that leaves that range is an error,
    `Overflow`: there a debug build panics, and a release build wraps to a negative price and
    reports a missing band.  The saturating operations are written out. */
module TickRules {
  import opened Wrappers

  const I64_MAX: int := 0x7FFF_FFFF_FFFF_FFFF
  const I64_MIN: int := -0x8000_0000_0000_0000

  type I64 = x: int | I64_MIN <= x <= I64_MAX

  datatype TickError = NoTickBand | Config | Overflow

  function Saturate(x: int): I64 {
    if x > I64_MAX then I64_MAX else if x < I64_MIN then I64_MIN else x
  }

  function Add(x: I64, y: I64): Result<I64, TickError> {
    if I64_MIN <= x + y <= I64_MAX then Ok(x + y) else Err(Overflow)
  }

  // ----- Ladders -----

  datatype Market = Kospi | Kosdaq
  datatype TickRegime = Pre2023 | Post2023

  datatype Band = Band(upperExclusive: Option<I64>, tick: I64)

  type Ladder = seq<Band>

  const POST_2023: Ladder := [
    Band(Some(2_000), 1), Band(Some(5_000), 5), Band(Some(20_000), 10), Band(Some(50_000), 50),
    Band(Some(200_000), 100), Band(Some(500_000), 500), Band(None, 1_000)]

  const PRE_2023_KOSPI: Ladder := [
    Band(Some(1_000), 1), Band(Some(5_000), 5), Band(Some(10_000), 10), Band(Some(50_000), 50),
    Band(Some(100_000), 100), Band(Some(500_000), 500), Band(None, 1_000)]

  const PRE_2023_KOSDAQ: Ladder := [
    Band(Some(1_000), 1), Band(Some(5_000), 5), Band(Some(10_000), 10), Band(Some(50_000), 50),
    Band(None, 100)]

  function LadderOf(market: Market, regime: TickRegime): Ladder {
    match regime
    case Post2023 => POST_2023
    case Pre2023 => if market == Kospi then PRE_2023_KOSPI else PRE_2023_KOSDAQ
  }

  /** Bounds rise from `lower`, each is a multiple of the ticks on both sides of it, and only
      the last band is unbounded. */
  ghost predicate WellFormedFrom(ladder: Ladder, lower: int) {
    && ladder != []
    && ladder[0].tick > 0
    && lower % ladder[0].tick == 0
    && (|ladder| == 1 <==> ladder[0].upperExclusive.None?)
    && (|ladder| > 1 ==>
          && lower < ladder[0].upperExclusive.value
          && ladder[0].upperExclusive.value % ladder[0].tick == 0
          && WellFormedFrom(ladder[1..], ladder[0].upperExclusive.value))
  }

  ghost predicate WellFormed(ladder: Ladder) {
    WellFormedFrom(ladder, 0)
  }

  /** Band by band: the lower edge and the bound are multiples of the tick, the bound is
      above the lower edge, and only the last band lacks one. */
  ghost predicate BandFits(ladder: Ladder, i: nat)
    requires i < |ladder|
    requires i > 0 ==> ladder[i - 1].upperExclusive.Some?
  {
    var lower := if i == 0 then 0 else ladder[i - 1].upperExclusive.value;
    && ladder[i].tick > 0 && lower % ladder[i].tick == 0
    && (i == |ladder| - 1 <==> ladder[i].upperExclusive.None?)
    && (i < |ladder| - 1 ==>
        lower < ladder[i].upperExclusive.value && ladder[i].upperExclusive.value % ladder[i].tick == 0)
  }

  lemma {:induction false} BandsFit(ladder: Ladder, i: nat)
    requires i < |ladder|
    requires forall j :: 0 <= j < |ladder| ==> (j < |ladder| - 1 <==> ladder[j].upperExclusive.Some?)
    requires forall j :: 0 <= j < |ladder| ==> BandFits(ladder, j)
    ensures WellFormedFrom(ladder[i..], if i == 0 then 0 else ladder[i - 1].upperExclusive.value)
    decreases |ladder| - i
  {
    if i < |ladder| - 1 {
      BandsFit(ladder, i + 1);
      assert ladder[i..][1..] == ladder[i + 1..];
    }
    assert BandFits(ladder, i);
  }

  lemma ShippedLaddersWellFormed(market: Market, regime: TickRegime)
    ensures WellFormed(LadderOf(market, regime))
    ensures OnGrid(LadderOf(market, regime), 1)
  {
    var ladder := LadderOf(market, regime);
    BandsFit(ladder, 0);
    assert ladder[0..] == ladder;
  }

  // ----- Rounding -----

  function BandTick(ladder: Ladder, price: I64): Result<I64, TickError> {
    if ladder == [] then Err(NoTickBand)
    else if ladder[0].upperExclusive.None? || price < ladder[0].upperExclusive.value then Ok(ladder[0].tick)
    else BandTick(ladder[1..], price)
  }

  function TickSize(ladder: Ladder, price: I64): Result<I64, TickError> {
    if price < 0 then Err(NoTickBand) else BandTick(ladder, price)
  }

  function RoundDownToTick(ladder: Ladder, price: I64): Result<I64, TickError>
    requires WellFormed(ladder)
  {
    TickPositive(ladder, 0, price);
    match TickSize(ladder, price)
    case Err(e) => Err(e)
    case Ok(tick) => Ok(price - price % tick)
  }

  function RoundUpToTick(ladder: Ladder, price: I64): Result<I64, TickError>
    requires WellFormed(ladder)
  {
    match RoundUpOnce(ladder, price)
    case Err(e) => Err(e)
    case Ok(up) => RoundUpOnce(ladder, up)
  }

  /** Up to the next multiple of the tick of `price`'s own band. */
  function RoundUpOnce(ladder: Ladder, price: I64): Result<I64, TickError>
    requires WellFormed(ladder)
  {
    TickPositive(ladder, 0, price);
    match TickSize(ladder, price)
    case Err(e) => Err(e)
    case Ok(tick) =>
      var rem := price % tick;
      if rem == 0 then Ok(price) else Add(price, tick - rem)
  }

  lemma TickPositive(ladder: Ladder, lower: int, price: I64)
    requires WellFormedFrom(ladder, lower)
    ensures BandTick(ladder, price).Ok? && BandTick(ladder, price).value > 0
  {
  }

  /** The tick at a price. */
  function TickAt(ladder: Ladder, price: I64): (tick: I64)
    requires WellFormed(ladder) && price >= 0
    ensures TickSize(ladder, price) == Ok(tick) && tick > 0
  {
    TickPositive(ladder, 0, price);
    BandTick(ladder, price).value
  }

  /** A price the exchange accepts: a multiple of the tick of the band it lies in. */
  predicate OnGrid(ladder: Ladder, price: I64)
    requires WellFormed(ladder)
  {
    TickPositive(ladder, 0, price);
    price >= 0 && price % TickSize(ladder, price).value == 0
  }

  /** The exchange's tick at a price.  Since 2023 both markets share one table; before, the
      steps came at lower prices, and the second market stopped at a tick of 100. */
  function PublishedTick(market: Market, regime: TickRegime, price: nat): nat {
    var now := regime == Post2023;
    if price < (if now then 2_000 else 1_000) then 1
    else if price < 5_000 then 5
    else if price < (if now then 20_000 else 10_000) then 10
    else if price < 50_000 then 50
    else if !now && market == Kosdaq then 100
    else if price < (if now then 200_000 else 100_000) then 100
    else if price < 500_000 then 500
    else 1_000
  }

  lemma ShippedTicks(market: Market, regime: TickRegime, price: I64)
    ensures price < 0 ==> TickSize(LadderOf(market, regime), price) == Err(NoTickBand)
    ensures price >= 0 ==> TickSize(LadderOf(market, regime), price) == Ok(PublishedTick(market, regime, price))
  {
    var ladder := LadderOf(market, regime);
    if price >= 0 {
      BandFound(ladder, price, 0);
      assert ladder[0..] == ladder;
    }
  }

  /** The first band from the i-th that lies above the price. */
  function FirstBand(ladder: Ladder, price: I64, i: nat): nat
    requires i <= |ladder|
    decreases |ladder| - i
  {
    if i == |ladder| || ladder[i].upperExclusive.None? || price < ladder[i].upperExclusive.value then i
    else FirstBand(ladder, price, i + 1)
  }

  lemma {:induction false} BandFound(ladder: Ladder, price: I64, i: nat)
    requires i <= |ladder|
    ensures var k := FirstBand(ladder, price, i);
      && i <= k <= |ladder|
      && BandTick(ladder[i..], price) == (if k < |ladder| then Ok(ladder[k].tick) else Err(NoTickBand))
      && (forall j :: i <= j < k ==> ladder[j].upperExclusive.Some? && ladder[j].upperExclusive.value <= price)
      && (k < |ladder| ==> ladder[k].upperExclusive.None? || price < ladder[k].upperExclusive.value)
    decreases |ladder| - i
  {
    if i < |ladder| {
      assert ladder[i..][1..] == ladder[i + 1..];
      BandFound(ladder, price, i + 1);
    }
  }

  // ----- The band around a price -----

  ghost function BandFloor(ladder: Ladder, lower: int, price: I64): int
    requires WellFormedFrom(ladder, lower)
  {
    if |ladder| == 1 || price < ladder[0].upperExclusive.value then lower
    else BandFloor(ladder[1..], ladder[0].upperExclusive.value, price)
  }

  ghost function BandCeiling(ladder: Ladder, lower: int, price: I64): Option<I64>
    requires WellFormedFrom(ladder, lower)
  {
    if |ladder| == 1 || price < ladder[0].upperExclusive.value then ladder[0].upperExclusive
    else BandCeiling(ladder[1..], ladder[0].upperExclusive.value, price)
  }

  /** The band's edges enclose the price, are multiples of its tick, and bound the prices that
      share the tick; the upper edge is on the next band's grid as well. */
  lemma {:induction false} BandAround(ladder: Ladder, lower: int, price: I64, other: I64)
    requires WellFormedFrom(ladder, lower) && lower <= price
    ensures BandTick(ladder, price).Ok? && BandTick(ladder, price).value > 0
    ensures var tick, floor := BandTick(ladder, price).value, BandFloor(ladder, lower, price);
      && lower <= floor <= price
      && floor % tick == 0
      && match BandCeiling(ladder, lower, price)
         case None => floor <= other ==> BandTick(ladder, other) == Ok(tick)
         case Some(ceiling) =>
           && price < ceiling && ceiling % tick == 0
           && (floor <= other < ceiling ==> BandTick(ladder, other) == Ok(tick))
           && BandTick(ladder, ceiling).Ok? && BandTick(ladder, ceiling).value > 0
           && ceiling % BandTick(ladder, ceiling).value == 0
  {
    if |ladder| > 1 {
      var bound := ladder[0].upperExclusive.value;
      if price < bound {
        NextBand(ladder[1..], bound);
      } else {
        BandAround(ladder[1..], bound, price, other);
      }
    }
  }

  /** A ladder's own lower edge lies in its first band. */
  lemma NextBand(ladder: Ladder, lower: I64)
    requires WellFormedFrom(ladder, lower)
    ensures BandTick(ladder, lower) == Ok(ladder[0].tick)
  {
  }

  lemma TimesMonotone(tick: int, a: int, b: int)
    requires tick > 0 && a <= b
    ensures tick * a <= tick * b
  {
  }

  lemma MultiplesApart(tick: int, x: int, y: int)
    requires tick > 0 && x % tick == 0 && y % tick == 0 && x < y
    ensures x + tick <= y
  {
    var a, b := x / tick, y / tick;
    assert x == tick * a && y == tick * b;
    if b <= a {
      TimesMonotone(tick, b, a);
    } else {
      TimesMonotone(tick, a + 1, b);
    }
  }

  lemma MultipleBelow(tick: int, x: int)
    requires tick > 0
    ensures (x - x % tick) % tick == 0
    ensures x % tick != 0 ==> (x + (tick - x % tick)) % tick == 0
  {
    var q := x / tick;
    assert x - x % tick == tick * q;
    MultipleOf(tick, q);
    MultipleOf(tick, q + 1);
    assert x + (tick - x % tick) == tick * (q + 1);
  }

  lemma MultipleOf(tick: int, q: int)
    requires tick > 0
    ensures (tick * q) % tick == 0
  {
    var x := tick * q;
    var d := x / tick;
    assert tick * (q - d) == x % tick;
    if q > d {
      TimesMonotone(tick, 1, q - d);
    } else if q < d {
      TimesMonotone(tick, q - d, -1);
    }
  }

  // ----- Rounding down -----

  /** Rounding down gives the greatest price on the grid that does not exceed the input. */
  lemma RoundDownIsGreatest(ladder: Ladder, price: I64, other: I64)
    requires WellFormed(ladder) && price >= 0
    ensures RoundDownToTick(ladder, price).Ok?
    ensures var r := RoundDownToTick(ladder, price).value;
      && OnGrid(ladder, r) && r <= price
      && (OnGrid(ladder, other) && other <= price ==> other <= r)
  {
    BandAround(ladder, 0, price, other);
    var tick, floor := TickSize(ladder, price).value, BandFloor(ladder, 0, price);
    var r := price - price % tick;
    MultipleBelow(tick, price);
    if r < floor {
      MultiplesApart(tick, r, floor);
      assert false;
    }
    BandAround(ladder, 0, price, r);
    if OnGrid(ladder, other) && r < other <= price {
      MultiplesApart(tick, r, other);
      assert false;
    }
  }

  // ----- Rounding up -----

  /** One correction already lands on the grid of the band reached. */
  lemma OneCorrectionSuffices(ladder: Ladder, price: I64)
    requires WellFormed(ladder)
    ensures RoundUpToTick(ladder, price) == RoundUpOnce(ladder, price)
    ensures RoundUpOnce(ladder, price).Ok? ==> OnGrid(ladder, RoundUpOnce(ladder, price).value)
  {
    if price >= 0 && RoundUpOnce(ladder, price).Ok? {
      var up := RoundUpOnce(ladder, price).value;
      BandAround(ladder, 0, price, up);
      var tick := TickSize(ladder, price).value;
      MultipleBelow(tick, price);
      var ceiling := BandCeiling(ladder, 0, price);
      if ceiling.Some? && up > ceiling.value {
        MultiplesApart(tick, ceiling.value, up);
        assert false;
      }
    }
  }

  /** Rounding up gives the least price on the grid that is not below the input, and
      overflows exactly when there is none in range. */
  lemma RoundUpIsLeast(ladder: Ladder, price: I64, other: I64)
    requires WellFormed(ladder) && price >= 0
    ensures match RoundUpToTick(ladder, price)
      case Ok(r) =>
        && OnGrid(ladder, r) && price <= r
        && (OnGrid(ladder, other) && price <= other ==> r <= other)
      case Err(e) => e == Overflow && (OnGrid(ladder, other) ==> other < price)
  {
    OneCorrectionSuffices(ladder, price);
    BandAround(ladder, 0, price, other);
    var tick := TickSize(ladder, price).value;
    var rem := price % tick;
    var ceiling := BandCeiling(ladder, 0, price);
    if rem != 0 {
      MultipleBelow(tick, price);
      var up := price + (tick - rem);
      if ceiling.Some? && up > ceiling.value {
        MultiplesApart(tick, up - tick, ceiling.value);
        assert false;
      }
      if OnGrid(ladder, other) && price <= other < up {
        assert other % tick == 0;
        assert price - rem < other;
        MultiplesApart(tick, price - rem, other);
        assert false;
      }
    }
  }

  /** The greatest price on the grid that a 64-bit integer can hold. */
  function MaxOnGrid(ladder: Ladder): I64
    requires WellFormed(ladder)
  {
    RoundDownIsGreatest(ladder, I64_MAX, 0);
    RoundDownToTick(ladder, I64_MAX).value
  }

  lemma RoundUpFits(ladder: Ladder, price: I64)
    requires WellFormed(ladder) && price >= 0
    ensures RoundUpToTick(ladder, price).Ok? <==> price <= MaxOnGrid(ladder)
  {
    var top := MaxOnGrid(ladder);
    RoundDownIsGreatest(ladder, I64_MAX, 0);
    RoundUpIsLeast(ladder, price, top);
    if RoundUpToTick(ladder, price).Ok? {
      RoundDownIsGreatest(ladder, I64_MAX, RoundUpToTick(ladder, price).value);
    }
  }

  // ----- Rounding as order theory -----

  ghost function Grid(ladder: Ladder): I64 -> bool
    requires WellFormed(ladder)
  {
    (price: I64) => OnGrid(ladder, price)
  }

  ghost predicate Greatest(grid: I64 -> bool, price: I64, r: I64) {
    grid(r) && r <= price && forall q: I64 :: grid(q) && q <= price ==> q <= r
  }

  ghost predicate Least(grid: I64 -> bool, price: I64, r: I64) {
    grid(r) && price <= r && forall q: I64 :: grid(q) && price <= q ==> r <= q
  }

  lemma DownIs(ladder: Ladder, price: I64)
    requires WellFormed(ladder) && price >= 0
    ensures RoundDownToTick(ladder, price).Ok?
    ensures Greatest(Grid(ladder), price, RoundDownToTick(ladder, price).value)
  {
    RoundDownIsGreatest(ladder, price, price);
    forall q: I64 ensures OnGrid(ladder, q) && q <= price ==> q <= RoundDownToTick(ladder, price).value {
      RoundDownIsGreatest(ladder, price, q);
    }
  }

  lemma UpIs(ladder: Ladder, price: I64)
    requires WellFormed(ladder) && price >= 0
    ensures RoundUpToTick(ladder, price).Ok? <==> exists q: I64 :: Grid(ladder)(q) && price <= q
    ensures RoundUpToTick(ladder, price).Ok? ==> Least(Grid(ladder), price, RoundUpToTick(ladder, price).value)
  {
    forall q: I64
      ensures RoundUpToTick(ladder, price).Ok? && OnGrid(ladder, q) && price <= q ==>
          RoundUpToTick(ladder, price).value <= q
      ensures OnGrid(ladder, q) && price <= q ==> RoundUpToTick(ladder, price).Ok?
    {
      RoundUpIsLeast(ladder, price, q);
    }
    RoundUpIsLeast(ladder, price, price);
    if RoundUpToTick(ladder, price).Ok? {
      assert Grid(ladder)(RoundUpToTick(ladder, price).value);
    }
  }

  /** Rounding down keeps order and leaves a price on the grid alone. */
  lemma RoundDownMonotoneIdempotent(ladder: Ladder, a: I64, b: I64)
    requires WellFormed(ladder) && 0 <= a <= b
    ensures RoundDownToTick(ladder, a).Ok? && RoundDownToTick(ladder, b).Ok?
    ensures RoundDownToTick(ladder, a).value <= RoundDownToTick(ladder, b).value
    ensures RoundDownToTick(ladder, RoundDownToTick(ladder, a).value) == RoundDownToTick(ladder, a)
    ensures OnGrid(ladder, a) ==> RoundDownToTick(ladder, a) == Ok(a)
  {
    DownIs(ladder, a);
    DownIs(ladder, b);
    var down := RoundDownToTick(ladder, a).value;
    RoundDownIsGreatest(ladder, a, a);
    DownIs(ladder, down);
  }

  /** Rounding up keeps order and leaves a price on the grid alone. */
  lemma RoundUpMonotoneIdempotent(ladder: Ladder, a: I64, b: I64)
    requires WellFormed(ladder) && 0 <= a <= b && RoundUpToTick(ladder, b).Ok?
    ensures RoundUpToTick(ladder, a).Ok?
    ensures RoundUpToTick(ladder, a).value <= RoundUpToTick(ladder, b).value
    ensures RoundUpToTick(ladder, RoundUpToTick(ladder, a).value) == RoundUpToTick(ladder, a)
    ensures OnGrid(ladder, a) ==> RoundUpToTick(ladder, a) == Ok(a)
  {
    UpIs(ladder, b);
    UpIs(ladder, a);
    var up := RoundUpToTick(ladder, a).value;
    UpIs(ladder, up);
  }

  // ----- The marketable limit -----

  datatype OrderSide = NoOrderSide | Buy | Sell

  datatype PriceBand = PriceBand(lower: I64, upper: I64)

  function Clamp(x: I64, band: PriceBand): I64
    requires band.lower <= band.upper
  {
    if x < band.lower then band.lower else if x > band.upper then band.upper else x
  }

  /** `last` moved `k` ticks in the direction that crosses. */
  function Stepped(last: I64, side: OrderSide, k: I64, tick: I64): I64 {
    if side == Buy then Saturate(last + Saturate(k * tick))
    else var down := Saturate(last - Saturate(k * tick)); if down < 1 then 1 else down
  }

  function MarketableLimit(ladder: Ladder, last: I64, side: OrderSide, k: I64, band: PriceBand)
    : Result<I64, TickError>
    requires WellFormed(ladder)
  {
    if last <= 0 || k < 0 || band.lower <= 0 || band.upper < band.lower then Err(Config)
    else match TickSize(ladder, last)
      case Err(e) => Err(e)
      case Ok(tick) =>
        if side == NoOrderSide then Err(Config)
        else
          var stepped := Stepped(last, side, k, tick);
          match (if side == Buy then RoundUpToTick(ladder, stepped) else RoundDownToTick(ladder, stepped))
          case Err(e) => Err(e)
          case Ok(snapped) =>
            var clamped := Clamp(snapped, band);
            match (if side == Buy then RoundDownToTick(ladder, clamped) else RoundUpToTick(ladder, clamped))
            case Err(e) => Err(e)
            case Ok(priced) => if priced <= 0 then Err(Config) else Ok(priced)
  }

  /** The request is well formed: what the source's own guards ask for. */
  predicate Priceable(last: I64, side: OrderSide, k: I64, band: PriceBand) {
    last > 0 && k >= 0 && 0 < band.lower <= band.upper && side != NoOrderSide
  }

  /** The price before the clamp and the final inward snap. */
  function Anchor(ladder: Ladder, last: I64, side: OrderSide, k: I64): I64
    requires WellFormed(ladder)
  {
    TickPositive(ladder, 0, last);
    Stepped(last, side, k, BandTick(ladder, last).value)
  }

  function AtMostMax(price: int): int {
    if price > I64_MAX then I64_MAX else price
  }

  /** Exactly when a price comes back, and where it lies.  Only a price past the top of the
      64-bit grid is refused beyond the source's own guards; the final refusal of a
      non-positive price never fires. */
  lemma MarketableLimitPrices(ladder: Ladder, last: I64, side: OrderSide, k: I64, band: PriceBand)
    requires WellFormed(ladder) && OnGrid(ladder, 1)
    ensures var r := MarketableLimit(ladder, last, side, k, band);
      && (r.Ok? <==>
            && Priceable(last, side, k, band)
            && (if side == Buy then AtMostMax(last + k * TickAt(ladder, last)) else band.lower)
               <= MaxOnGrid(ladder))
      && (Priceable(last, side, k, band) ==> r != Err(Config))
      && (r.Ok? ==>
            && OnGrid(ladder, r.value)
            && (side == Buy ==> r.value <= band.upper)
            && (side == Sell ==> band.lower <= r.value)
            && (OnGrid(ladder, band.lower) && OnGrid(ladder, band.upper) ==> band.lower <= r.value <= band.upper))
  {
    if Priceable(last, side, k, band) {
      var stepped := Anchor(ladder, last, side, k);
      TickPositive(ladder, 0, last);
      if side == Buy {
        StepUp(last, k, BandTick(ladder, last).value);
        RoundUpFits(ladder, stepped);
        RoundUpIsLeast(ladder, stepped, 0);
        if RoundUpToTick(ladder, stepped).Ok? {
          var clamped := Clamp(RoundUpToTick(ladder, stepped).value, band);
          RoundDownIsGreatest(ladder, clamped, 1);
          RoundDownIsGreatest(ladder, clamped, band.lower);
        }
      } else {
        RoundDownIsGreatest(ladder, stepped, 1);
        var snapped := RoundDownToTick(ladder, stepped).value;
        RoundDownIsGreatest(ladder, I64_MAX, snapped);
        var clamped := Clamp(snapped, band);
        RoundUpFits(ladder, clamped);
        RoundUpIsLeast(ladder, clamped, band.upper);
      }
    }
  }

  lemma StepUp(last: I64, k: I64, tick: I64)
    requires last > 0 && k >= 0 && tick > 0
    ensures last <= Stepped(last, Buy, k, tick)
    ensures 1 <= Stepped(last, Sell, k, tick) <= last
  {
    assert k * tick >= 0;
  }

  /** The steps of a successful pricing: snap outward, clamp, snap inward. */
  ghost predicate Priced(grid: I64 -> bool, side: OrderSide, stepped: I64, band: PriceBand, snapped: I64, r: I64) {
    && band.lower <= band.upper
    && (side == Buy ==> Least(grid, stepped, snapped) && Greatest(grid, Clamp(snapped, band), r))
    && (side != Buy ==> Greatest(grid, stepped, snapped) && Least(grid, Clamp(snapped, band), r))
  }

  lemma PricedBy(ladder: Ladder, last: I64, side: OrderSide, k: I64, band: PriceBand) returns (snapped: I64)
    requires WellFormed(ladder) && MarketableLimit(ladder, last, side, k, band).Ok?
    ensures Priced(Grid(ladder), side, Anchor(ladder, last, side, k), band, snapped,
                   MarketableLimit(ladder, last, side, k, band).value)
    ensures TickSize(ladder, last).Ok? && TickSize(ladder, last).value > 0
    ensures Anchor(ladder, last, side, k) == Stepped(last, side, k, TickSize(ladder, last).value)
  {
    TickPositive(ladder, 0, last);
    var stepped := Anchor(ladder, last, side, k);
    StepUp(last, k, BandTick(ladder, last).value);
    if side == Buy {
      UpIs(ladder, stepped);
      snapped := RoundUpToTick(ladder, stepped).value;
      DownIs(ladder, Clamp(snapped, band));
    } else {
      DownIs(ladder, stepped);
      snapped := RoundDownToTick(ladder, stepped).value;
      UpIs(ladder, Clamp(snapped, band));
    }
  }

  /** The price itself.  `start` is the last price moved k of its ticks the way that crosses,
      a sell going no lower than 1.  A buy takes the least grid price at or above `start`, cut
      to the band, and then the greatest grid price at or below that; a sell is the mirror. */
  lemma MarketableLimitIs(ladder: Ladder, last: I64, side: OrderSide, k: I64, band: PriceBand, start: I64)
    returns (anchor: I64)
    requires WellFormed(ladder) && OnGrid(ladder, 1) && Priceable(last, side, k, band)
    requires side == Buy ==> start == last + k * TickAt(ladder, last)
    requires side == Sell ==> start == (var down := last - k * TickAt(ladder, last); if down < 1 then 1 else down)
    requires (if side == Buy then start else band.lower) <= MaxOnGrid(ladder)
    ensures MarketableLimit(ladder, last, side, k, band).Ok?
    ensures var grid, r := Grid(ladder), MarketableLimit(ladder, last, side, k, band).value;
      var cut := if anchor < band.lower then band.lower else if band.upper < anchor then band.upper else anchor;
      && (side == Buy ==> Least(grid, start, anchor) && Greatest(grid, cut, r))
      && (side == Sell ==> Greatest(grid, start, anchor) && Least(grid, cut, r))
      && (band.lower <= anchor <= band.upper ==> r == anchor)
  {
    TickPositive(ladder, 0, last);
    MarketableLimitPrices(ladder, last, side, k, band);
    anchor := PricedBy(ladder, last, side, k, band);
    SteppedIs(last, side, k, TickAt(ladder, last), start);
  }

  lemma SteppedIs(last: I64, side: OrderSide, k: I64, tick: I64, start: I64)
    requires last > 0 && k >= 0 && tick > 0 && side != NoOrderSide
    requires side == Buy ==> start == last + k * tick
    requires side == Sell ==> start == (var down := last - k * tick; if down < 1 then 1 else down)
    ensures Stepped(last, side, k, tick) == start
  {
    assert k * tick >= 0;
  }

  /** A step that lands on the grid and inside the band is the price. */
  lemma StepOnGridIsThePrice(ladder: Ladder, last: I64, side: OrderSide, k: I64, band: PriceBand, start: I64)
    requires WellFormed(ladder) && OnGrid(ladder, 1) && Priceable(last, side, k, band)
    requires side == Buy ==> start == last + k * TickAt(ladder, last)
    requires side == Sell ==> start == last - k * TickAt(ladder, last)
    requires OnGrid(ladder, start) && band.lower <= start <= band.upper
    ensures MarketableLimit(ladder, last, side, k, band) == Ok(start)
  {
    RoundDownIsGreatest(ladder, I64_MAX, start);
    var anchor := MarketableLimitIs(ladder, last, side, k, band, start);
    assert Grid(ladder)(start);
  }

  /** A buy reaches the last price exactly when the band holds a grid price at or above it, and
      a sell exactly when the band holds one at or below it. */
  lemma MarketableLimitCrosses(ladder: Ladder, last: I64, side: OrderSide, k: I64, band: PriceBand)
    requires WellFormed(ladder) && MarketableLimit(ladder, last, side, k, band).Ok?
    ensures var priced := MarketableLimit(ladder, last, side, k, band).value;
      && (side == Buy ==>
            (last <= priced <==> exists q: I64 :: Grid(ladder)(q) && last <= q <= band.upper))
      && (side == Sell ==>
            (priced <= last <==> exists q: I64 :: Grid(ladder)(q) && band.lower <= q <= last))
  {
    var snapped := PricedBy(ladder, last, side, k, band);
    StepUp(last, k, TickSize(ladder, last).value);
    CrossesCore(Grid(ladder), last, side, Anchor(ladder, last, side, k), band, snapped,
                MarketableLimit(ladder, last, side, k, band).value);
  }

  lemma CrossesCore(grid: I64 -> bool, last: I64, side: OrderSide, stepped: I64, band: PriceBand, snapped: I64, r: I64)
    requires Priced(grid, side, stepped, band, snapped, r)
    requires if side == Buy then last <= stepped else stepped <= last
    ensures side == Buy ==> (last <= r <==> exists q: I64 :: grid(q) && last <= q <= band.upper)
    ensures side != Buy ==> (r <= last <==> exists q: I64 :: grid(q) && band.lower <= q <= last)
  {
    assert side == Buy ==> r <= band.upper;
    assert side != Buy ==> band.lower <= r;
  }

  /** A wider offset never lowers a buy and never raises a sell. */
  lemma MarketableLimitMonotone(ladder: Ladder, last: I64, side: OrderSide, k: I64, wider: I64, band: PriceBand)
    requires WellFormed(ladder) && OnGrid(ladder, 1) && 0 <= k <= wider
    requires MarketableLimit(ladder, last, side, wider, band).Ok?
    ensures var narrow, wide :=
        MarketableLimit(ladder, last, side, k, band), MarketableLimit(ladder, last, side, wider, band).value;
      && narrow.Ok?
      && (side == Buy ==> narrow.value <= wide)
      && (side == Sell ==> wide <= narrow.value)
  {
    MarketableLimitPrices(ladder, last, side, wider, band);
    MarketableLimitPrices(ladder, last, side, k, band);
    TickPositive(ladder, 0, last);
    StepsOrdered(last, side, k, wider, BandTick(ladder, last).value);
    var far := PricedBy(ladder, last, side, wider, band);
    var near := PricedBy(ladder, last, side, k, band);
    MonotoneCore(Grid(ladder), side, Anchor(ladder, last, side, k), Anchor(ladder, last, side, wider), band, near, far,
      MarketableLimit(ladder, last, side, k, band).value, MarketableLimit(ladder, last, side, wider, band).value);
  }

  lemma StepsOrdered(last: I64, side: OrderSide, k: I64, wider: I64, tick: I64)
    requires tick > 0 && 0 <= k <= wider
    ensures if side == Buy then Stepped(last, side, k, tick) <= Stepped(last, side, wider, tick)
            else Stepped(last, side, wider, tick) <= Stepped(last, side, k, tick)
  {
    TimesMonotone(tick, k, wider);
  }

  lemma MonotoneCore(grid: I64 -> bool, side: OrderSide, near: I64, far: I64, band: PriceBand,
                     nearSnapped: I64, farSnapped: I64, narrow: I64, wide: I64)
    requires Priced(grid, side, near, band, nearSnapped, narrow)
    requires Priced(grid, side, far, band, farSnapped, wide)
    requires if side == Buy then near <= far else far <= near
    ensures if side == Buy then narrow <= wide else wide <= narrow
  {
    if side == Buy {
      assert nearSnapped <= farSnapped;
    } else {
      assert farSnapped <= nearSnapped;
    }
  }
}
