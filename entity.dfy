/**
 * The market-data domain of the backend: assets, prices and their freshness,
 * OHLC windows, markets with their cached price, and the text forms of the
 * investment-preference enums.
 *
 * Wherever the backend reads the wall clock (`Utc::now()`), the model takes
 * the current instant as a parameter `now`.
 */
module Entity {
  import opened Wrappers
  import opened Time
  import opened Ascii

  type AssetId = string
  type MarketId = string

  /** An `f64` price. The core only carries it, never computes on it. */
  type PriceValue = real

  // ----- Assets -----

  datatype Crypto = Crypto(id: AssetId, symbol: string)
  {
    /** `Crypto::new_with_id`: the symbol is the id upper-cased. */
    static function NewWithId(id: AssetId): (c: Crypto)
      ensures c.id == id
      ensures |c.symbol| == |id| && IsUpperCase(c.symbol)
      ensures forall i :: 0 <= i < |id| ==> c.symbol[i] == UpperChar(id[i])
    {
      Crypto.Crypto(id, Upper(id))
    }
  }

  datatype Fiat = Fiat(id: AssetId, symbol: string)
  {
    /** `Fiat::new`: both fields are stored as given. */
    static function New(id: AssetId, symbol: string): (f: Fiat)
      ensures f.id == id && f.symbol == symbol
    {
      Fiat.Fiat(id, symbol)
    }
  }

  datatype AssetKind = Crypto | Fiat

  datatype Asset = Crypto(crypto: Crypto) | Fiat(fiat: Fiat)
  {
    /** `Asset::id`: the id of whichever instrument the asset holds. */
    function Id(): (id: AssetId)
      ensures this.Crypto? ==> id == crypto.id
      ensures this.Fiat? ==> id == fiat.id
    {
      match this
      case Crypto(a) => a.id
      case Fiat(a) => a.id
    }

    /** `Asset::kind` */
    function Kind(): (k: AssetKind)
      ensures k == AssetKind.Crypto <==> this.Crypto?
      ensures k == AssetKind.Fiat <==> this.Fiat?
    {
      match this
      case Crypto(_) => AssetKind.Crypto
      case Fiat(_) => AssetKind.Fiat
    }

    /** `Asset::is_fiat`: the asset is fiat exactly when its kind says so. */
    function IsFiat(): (fiat: bool)
      ensures fiat <==> Kind() == AssetKind.Fiat
      ensures fiat <==> this.Fiat?
    {
      this.Fiat?
    }
  }

  // ----- Prices and their freshness -----

  /** `Price::VALIDITY_MINS` */
  const VALIDITY_MINS: nat := 5

  /** The length of a price's validity, in nanoseconds. */
  const VALIDITY: int := Minutes(VALIDITY_MINS)

  /** The first minute of the 5-minute range that minute `m` falls in. */
  function ValidityRange(m: nat): (r: nat)
    ensures r % VALIDITY_MINS == 0
    ensures r <= m < r + VALIDITY_MINS
  {
    (m / VALIDITY_MINS) * VALIDITY_MINS
  }

  /** The last observed exchange rate of a market, at instant `ts`. */
  datatype Price = Price(price: PriceValue, ts: Instant)
  {
    /**
     * `is_outdated` of `Expiring for Price`: a later calendar day or a later
     * hour of day makes the price outdated; otherwise it is outdated when
     * `now` is in a later 5-minute range of the minute than `ts`. Checked
     * within its own epoch-aligned 5-minute bucket a price is fresh; see
     * `OutdatedIffBucketPassed` for the whole rule.
     */
    function IsOutdated(now: Instant): (outdated: bool)
      ensures now / Minutes(5) == ts / Minutes(5) ==> !outdated
      ensures Day(now) > Day(ts) ==> outdated
    {
      SameBucketSameFields(now, ts);
      if Day(now) > Day(ts) || Hour(now) > Hour(ts) then
        true
      else
        ValidityRange(Minute(now)) > ValidityRange(Minute(ts))
    }

    /**
     * `time_to_live` of `Expiring for Price`: `ts + 5 min - now`, or zero when
     * that is negative (the conversion to `std::time::Duration` fails then).
     */
    function TimeToLive(now: Instant): (ttl: Duration)
      ensures ttl == 0 <==> now >= ts + VALIDITY
      ensures ttl > 0 ==> now + ttl == ts + VALIDITY
      ensures ts <= now ==> ttl <= VALIDITY
    {
      var left := ts + VALIDITY - now;
      if left < 0 then 0 else left
    }
  }

  /**
   * For a price not from the future, the day, hour and minute-range rules
   * together say exactly: `now` has left the 5-minute bucket of `ts`. In
   * particular a 23:58 price checked at 00:02 the next day is outdated by the
   * day rule, though its hour of day is larger.
   */
  lemma OutdatedIffBucketPassed(p: Price, now: Instant)
    requires p.ts <= now
    ensures p.IsOutdated(now) <==> now / Minutes(5) != p.ts / Minutes(5)
    ensures p.IsOutdated(now) <==> now / Minutes(5) > p.ts / Minutes(5)
  {
    var bucketNow, bucketTs := now / Minutes(5), p.ts / Minutes(5);
    FiveMinuteBucket(now);
    FiveMinuteBucket(p.ts);
    BucketMonotone(p.ts, now);
    if Day(now) > Day(p.ts) {
      assert bucketNow > bucketTs;
    } else {
      assert Day(now) == Day(p.ts);
      if Hour(now) > Hour(p.ts) {
        assert bucketNow > bucketTs;
      } else {
        assert Hour(now) == Hour(p.ts);
        assert bucketNow - bucketTs == Minute(now) / 5 - Minute(p.ts) / 5;
      }
    }
  }

  /** Once outdated, a price stays outdated as time moves on. */
  lemma OutdatedStaysOutdated(p: Price, now: Instant, later: Instant)
    requires p.ts <= now <= later
    requires p.IsOutdated(now)
    ensures p.IsOutdated(later)
  {
    OutdatedIffBucketPassed(p, now);
    OutdatedIffBucketPassed(p, later);
    BucketMonotone(now, later);
  }

  /**
   * A price that is not outdated still has time to live: the bucket of `ts`
   * ends no later than `ts + 5 min`.
   */
  lemma FreshHasTimeToLive(p: Price, now: Instant)
    requires p.ts <= now
    requires !p.IsOutdated(now)
    ensures p.TimeToLive(now) > 0
  {
    OutdatedIffBucketPassed(p, now);
    FiveMinuteBucket(now);
    FiveMinuteBucket(p.ts);
  }

  /**
   * The converse fails: a price stamped 10:04 is outdated at 10:06 by the
   * bucket rule, yet `time_to_live` still gives it three minutes.
   */
  lemma OutdatedYetAlive()
    ensures var p := Price(1.0, FromFields(0, 10, 4, 0, 0));
      var now := FromFields(0, 10, 6, 0, 0);
      p.IsOutdated(now) && p.TimeToLive(now) == Minutes(3)
  {
  }

  /**
   * For a price stamped in the future the rule is not monotone: a price
   * stamped 11:00:01 is outdated at 10:59:59 (minute range 55 against 0)
   * though it still has more than five minutes to live, and no longer
   * outdated at 11:00:02, back inside its own bucket.
   */
  lemma FutureStampNotMonotone()
    ensures var p := Price(1.0, FromFields(0, 11, 0, 1, 0));
      var before := FromFields(0, 10, 59, 59, 0);
      var after := FromFields(0, 11, 0, 2, 0);
      before < after && p.IsOutdated(before) && !p.IsOutdated(after)
      && p.TimeToLive(before) > VALIDITY
  {
    Compose(0, 11, 0, 1, 0);
    Compose(0, 10, 59, 59, 0);
    Compose(0, 11, 0, 2, 0);
  }

  /** The time to live shrinks as fast as the clock runs, down to zero. */
  lemma TimeToLiveDecreases(p: Price, now: Instant, later: Instant)
    requires now <= later
    ensures p.TimeToLive(later) <= p.TimeToLive(now)
    ensures p.TimeToLive(later) > 0 ==> p.TimeToLive(now) == p.TimeToLive(later) + (later - now)
  {
  }

  // ----- OHLC windows -----

  datatype OHLCFrequency = Minutes5 | Daily
  {
    /**
     * `OHLCFrequency::ohlc_range`: the `(low, high)` window for `ts`. Both
     * windows end no later than `ts` and start less than two days before it.
     */
    function OhlcRange(ts: Instant): (r: (Instant, Instant))
      ensures r.0 < r.1 <= ts && ts - r.0 < Days(2)
      ensures this.Minutes5? ==> r == OhlcRangeMinutes5(ts)
      ensures this.Daily? ==> r == OhlcRangeDaily(ts)
    {
      match this
      case Minutes5 => OhlcRangeMinutes5(ts)
      case Daily => OhlcRangeDaily(ts)
    }

    /**
     * `ohlc_range_minutes_5`: the upper bound is `ts` floored to its
     * 5-minute bucket (minute set to a multiple of 5, seconds and
     * nanoseconds zeroed); the lower bound is 12 buckets earlier.
     */
    static function OhlcRangeMinutes5(ts: Instant): (r: (Instant, Instant))
      ensures r.1 == (ts / Minutes(5)) * Minutes(5)
      ensures r.1 <= ts < r.1 + Minutes(5)
      ensures Day(r.1) == Day(ts) && Hour(r.1) == Hour(ts)
      ensures Minute(r.1) % 5 == 0 && Second(r.1) == 0 && Nanosecond(r.1) == 0
      ensures r.1 - r.0 == Minutes(60)
    {
      var mins5: nat := 5;
      var nPeriods: nat := 12;
      var tsMins := Minute(ts);
      Decompose(ts);
      var rangeUpperMins := (tsMins / mins5) * mins5;
      var rangeUpper := WithNanosecond(WithSecond(WithMinute(ts, rangeUpperMins), 0), 0);
      var rangeLow := rangeUpper - Minutes(nPeriods * mins5);
      FiveMinuteBucket(ts);
      Decompose(rangeUpper);
      (rangeLow, rangeUpper)
    }

    /**
     * `ohlc_range_daily`: from midnight of the day before `ts`'s day up to
     * `ts` itself, unfloored.
     */
    static function OhlcRangeDaily(ts: Instant): (r: (Instant, Instant))
      ensures r.1 == ts
      ensures r.0 == (Day(ts) - 1) * NANOS_PER_DAY
      ensures Day(r.0) == Day(ts) - 1 && Hour(r.0) == 0 && Minute(r.0) == 0
      ensures Second(r.0) == 0 && Nanosecond(r.0) == 0
      ensures Days(1) <= ts - r.0 < Days(2)
    {
      var nDays := 1;
      var tsStartDay := WithNanosecond(WithSecond(WithMinute(WithHour(ts, 0), 0), 0), 0);
      Decompose(tsStartDay);
      Decompose(ts);
      var rangeLow := tsStartDay - Days(nDays);
      Compose(Day(ts) - 1, 0, 0, 0, 0);
      (rangeLow, ts)
    }
  }

  // ----- Markets -----

  /** The display pair of a market: `"{BASE}/{QUOTE}"` from the upper-cased ids. */
  function PairOf(base: Asset, quote: Asset): (pair: string)
    ensures IsUpperCase(pair)
    ensures |pair| == |base.Id()| + 1 + |quote.Id()|
    ensures pair[..|base.Id()|] == Upper(base.Id())
    ensures pair[|base.Id()|] == '/'
    ensures pair[|base.Id()| + 1..] == Upper(quote.Id())
  {
    var pair := Upper(base.Id()) + "/" + Upper(quote.Id());
    assert pair[..|base.Id()|] == Upper(base.Id());
    assert pair[|base.Id()| + 1..] == Upper(quote.Id());
    pair
  }

  /** Both ids are upper-cased whatever their case: bitcoin against usd is "BITCOIN/USD". */
  lemma BitcoinUsdPair()
    ensures PairOf(Asset.Crypto(Crypto.NewWithId("bitcoin")), Asset.Fiat(Fiat.New("usd", "usd"))) == "BITCOIN/USD"
  {
  }

  /** A trading pair between two assets, with the last price cached in place. */
  class Market {
    var id: MarketId
    var pair: string
    var base: Asset
    var quote: Asset
    var price: Option<Price>

    /** The display pair is the one derived from the two legs. */
    ghost predicate Valid()
      reads this
    {
      pair == PairOf(base, quote)
    }

    /** `Market::new`: stores its arguments and derives the display pair once. */
    constructor (id: MarketId, base: Asset, quote: Asset, price: Option<Price>)
      ensures Valid()
      ensures this.id == id && this.base == base && this.quote == quote && this.price == price
      ensures pair == Upper(base.Id()) + "/" + Upper(quote.Id())
    {
      this.id := id;
      this.pair := PairOf(base, quote);
      this.base := base;
      this.quote := quote;
      this.price := price;
    }

    /** `Market::set_price`: replaces the cached price; nothing else changes. */
    method SetPrice(p: Price)
      requires Valid()
      modifies this`price
      ensures Valid()
      ensures price == Some(p)
      ensures id == old(id) && pair == old(pair) && base == old(base) && quote == old(quote)
    {
      price := Some(p);
    }

    /**
     * The display pair of a valid market is upper-case and splits at the
     * base id's length into the upper-cased base id, a `/` and the
     * upper-cased quote id, however often the price has been replaced.
     */
    lemma PairShape()
      requires Valid()
      ensures IsUpperCase(pair)
      ensures |pair| == |base.Id()| + 1 + |quote.Id()| && pair[|base.Id()|] == '/'
      ensures pair[..|base.Id()|] == Upper(base.Id()) && pair[|base.Id()| + 1..] == Upper(quote.Id())
    {
    }

    /** `Market::is_fiat`: both legs are fiat. */
    function IsFiat(): (fiat: bool)
      reads this
      ensures fiat <==> base.Kind() == AssetKind.Fiat && quote.Kind() == AssetKind.Fiat
    {
      base.IsFiat() && quote.IsFiat()
    }

    /**
     * `Market::is_price_outdated`: a market without a cached price is NOT
     * outdated; one with a price is outdated when its price is.
     */
    function IsPriceOutdated(now: Instant): (outdated: bool)
      reads this
      ensures outdated ==> price.Some?
      ensures price.Some? ==> (outdated <==> price.value.IsOutdated(now))
    {
      price.Some? && price.value.IsOutdated(now)
    }

    /** `is_outdated` of `Expiring for Market`: delegates to the cached price. */
    function IsOutdated(now: Instant): (outdated: bool)
      reads this
      ensures price.None? ==> !outdated
      ensures price.Some? ==> (outdated <==> price.value.IsOutdated(now))
    {
      IsPriceOutdated(now)
    }

    /** `time_to_live` of `Expiring for Market`: the cached price's, or zero without one. */
    function TimeToLive(now: Instant): (ttl: Duration)
      reads this
      ensures price.None? ==> ttl == 0
      ensures price.Some? ==> ttl == price.value.TimeToLive(now)
      ensures ttl == 0 <==> price.None? || now >= price.value.ts + VALIDITY
    {
      match price
      case Some(p) => p.TimeToLive(now)
      case None => 0
    }
  }

  // ----- Investment preferences: text forms -----

  datatype RiskTolerance = Low | Medium | High
  {
    /** `Display for RiskTolerance` */
    function ToString(): (s: string)
      ensures s in {"Low", "Medium", "High"}
    {
      match this
      case Low => "Low"
      case Medium => "Medium"
      case High => "High"
    }

    /** `FromStr for RiskTolerance`: exactly the three display texts parse. */
    static function FromStr(s: string): (r: Result<RiskTolerance, ()>)
      ensures r.Ok? <==> s in {"Low", "Medium", "High"}
      ensures r.Ok? ==> r.value.ToString() == s
    {
      if s == "Low" then Ok(Low)
      else if s == "Medium" then Ok(Medium)
      else if s == "High" then Ok(High)
      else Err(())
    }
  }

  datatype InvestmentMode = Standard | Expert
  {
    /** `Display for InvestmentMode` */
    function ToString(): (s: string)
      ensures s in {"Standard", "Expert"}
    {
      match this
      case Standard => "Standard"
      case Expert => "Expert"
    }

    /** `FromStr for InvestmentMode`: exactly the two display texts parse. */
    static function FromStr(s: string): (r: Result<InvestmentMode, ()>)
      ensures r.Ok? <==> s in {"Standard", "Expert"}
      ensures r.Ok? ==> r.value.ToString() == s
    {
      if s == "Standard" then Ok(Standard)
      else if s == "Expert" then Ok(Expert)
      else Err(())
    }
  }

  datatype InvestmentGoal = Retirement | Education | WealthBuilding | Other
  {
    /** `Display for InvestmentGoal`; note the space in "Wealth Building". */
    function ToString(): (s: string)
      ensures s in {"Retirement", "Education", "Wealth Building", "Other"}
    {
      match this
      case Retirement => "Retirement"
      case Education => "Education"
      case WealthBuilding => "Wealth Building"
      case Other => "Other"
    }

    /** `FromStr for InvestmentGoal`: exactly the four display texts parse. */
    static function FromStr(s: string): (r: Result<InvestmentGoal, ()>)
      ensures r.Ok? <==> s in {"Retirement", "Education", "Wealth Building", "Other"}
      ensures r.Ok? ==> r.value.ToString() == s
    {
      if s == "Retirement" then Ok(Retirement)
      else if s == "Education" then Ok(Education)
      else if s == "Wealth Building" then Ok(WealthBuilding)
      else if s == "Other" then Ok(Other)
      else Err(())
    }
  }

  /** Displaying a risk tolerance and parsing it back gives it back; distinct values display differently. */
  lemma RiskToleranceRoundTrip(x: RiskTolerance, y: RiskTolerance)
    ensures RiskTolerance.FromStr(x.ToString()) == Ok(x)
    ensures x.ToString() == y.ToString() ==> x == y
  {
  }

  /** Displaying an investment mode and parsing it back gives it back; distinct values display differently. */
  lemma InvestmentModeRoundTrip(x: InvestmentMode, y: InvestmentMode)
    ensures InvestmentMode.FromStr(x.ToString()) == Ok(x)
    ensures x.ToString() == y.ToString() ==> x == y
  {
  }

  /** Displaying an investment goal and parsing it back gives it back; distinct values display differently. */
  lemma InvestmentGoalRoundTrip(x: InvestmentGoal, y: InvestmentGoal)
    ensures InvestmentGoal.FromStr(x.ToString()) == Ok(x)
    ensures x.ToString() == y.ToString() ==> x == y
    ensures InvestmentGoal.FromStr("WealthBuilding").Err?
  {
  }
}
