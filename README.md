# dcapal market-data freshness, modelled in Dafny

This project models the market-data core of the dcapal backend: the assets
and markets it trades, when a cached price counts as outdated and how long
it stays valid, the OHLC time windows used to bucket price history, the text
forms of the investment-preference enums, and the REST boundary's
derivation of `Cache-Control` headers and of the price endpoint's outcome.

Instants are integer nanoseconds since the Unix epoch in UTC, durations are
non-negative nanoseconds, and the wall clock the backend reads
(`Utc::now()`) is a parameter `now` of every operation that reads it.

Files (one module each):

- `wrappers.dfy` — `Option` and `Result`.
- `time.dfy` — calendar fields of an instant (day, hour, minute, second,
  nanosecond), the `chrono` setters `with_hour`/`with_minute`/`with_second`/
  `with_nanosecond`, and the fact that epoch-aligned 5-minute buckets nest
  inside hours and days.
- `ascii.dfy` — upper-casing of identifiers.
- `entity.dfy` — `Crypto`, `Fiat`, `Asset`, `Price`
  with its freshness (`IsOutdated`, `TimeToLive`), `OHLCFrequency`, the
  `Market` class whose `SetPrice` replaces the cached price in place, and
  `RiskTolerance`, `InvestmentMode`, `InvestmentGoal`.
- `rest.dfy` — `cache_control`, `ASSETS_CACHE_CONTROL`, the asset and price
  handlers, `DcaError`, and `Display for FeeStructure`.

The staleness rule compares calendar day, then hour of day, then the
5-minute range of the minute. For a price that is not from the future the
lemma `OutdatedIffBucketPassed` shows the three rules together mean exactly
"now has left the epoch-aligned 5-minute bucket of the price's timestamp",
so a 23:58 price checked at 00:02 the next day is outdated (by the day
rule). A market without a cached price is NOT outdated and has a time to
live of zero: that is what `Market::is_price_outdated` and
`Expiring for Market` do, and the model follows the code here: `is_outdated()`
is false for such a market, and `cache_control` applied to it gives
`max-age=0`.

## Model

| member | source | states |
|---|---|---|
| `Entity.Crypto.NewWithId` | dcapal-backend/src/app/domain/entity.rs:20-24 | keeps the id; the symbol has the id's length, no lower-case letter, and is the id upper-cased character by character |
| `Entity.Fiat.New` | dcapal-backend/src/app/domain/entity.rs:33-37 | id and symbol are stored as given (the symbol need not be the id) |
| `Entity.Asset.Id` | dcapal-backend/src/app/domain/entity.rs:53-58 | the id of the crypto or fiat instrument inside the asset |
| `Entity.Asset.Kind` | dcapal-backend/src/app/domain/entity.rs:64-69 | the kind is `Crypto` exactly for the crypto variant and `Fiat` exactly for the fiat variant |
| `Entity.Asset.IsFiat` | dcapal-backend/src/app/domain/entity.rs:60-69 | an asset is fiat iff it is the `Fiat` variant iff its `kind()` is `Fiat` |
| `Entity.Price.TimeToLive` | dcapal-backend/src/app/domain/entity.rs:103-107 | never negative; zero exactly when `now >= ts + 5 min`; otherwise `now + ttl == ts + 5 min`; at most 5 minutes for a price not from the future |
| `Entity.ValidityRange` | dcapal-backend/src/app/domain/entity.rs:97-98 | the minute floored to a multiple of 5: a multiple of 5, at most the minute, and within 5 of it |
| `Entity.Price.IsOutdated` | dcapal-backend/src/app/domain/entity.rs:88-101 | a price checked within its own epoch-aligned 5-minute bucket is not outdated; a later calendar day always makes it outdated; the whole rule is given meaning by `OutdatedIffBucketPassed` |
| `Entity.OutdatedIffBucketPassed` | dcapal-backend/src/app/domain/entity.rs:88-101 | for `ts <= now`, the day/hour/minute-range rules hold exactly when `now`'s 5-minute bucket index is later than `ts`'s |
| `Entity.OutdatedStaysOutdated` | dcapal-backend/src/app/domain/entity.rs:88-101 | for a price not from the future (`ts <= now`), once outdated it stays outdated at every later instant |
| `Entity.FutureStampNotMonotone` | dcapal-backend/src/app/domain/entity.rs:88-107 | without `ts <= now` that fails: a price stamped 11:00:01 is outdated at 10:59:59, with more than 5 minutes to live, and not outdated at 11:00:02 |
| `Entity.FreshHasTimeToLive` | dcapal-backend/src/app/domain/entity.rs:88-107 | a price that is not outdated (and not from the future) has a positive time to live |
| `Entity.OutdatedYetAlive` | dcapal-backend/src/app/domain/entity.rs:88-107 | the converse fails: a 10:04 price is outdated at 10:06 while its time to live is still 3 minutes |
| `Entity.TimeToLiveDecreases` | dcapal-backend/src/app/domain/entity.rs:103-107 | the time to live never grows as the clock advances, and shrinks one for one while positive |
| `Entity.OHLCFrequency.OhlcRange` | dcapal-backend/src/app/domain/entity.rs:117-122 | dispatches by variant; every window has `low < high <= ts` and starts less than two days before `ts` |
| `Entity.OHLCFrequency.OhlcRangeMinutes5` | dcapal-backend/src/app/domain/entity.rs:124-141 | `high` is `ts` floored to the epoch-aligned 5-minute grid: same day and hour, minute a multiple of 5, zero seconds and nanoseconds, `high <= ts < high + 5 min`; `high - low` is 60 minutes |
| `Entity.OHLCFrequency.OhlcRangeDaily` | dcapal-backend/src/app/domain/entity.rs:143-156 | `high == ts` unchanged; `low` is midnight of the previous day, so `1 day <= ts - low < 2 days` |
| `Entity.PairOf` | dcapal-backend/src/app/domain/entity.rs:173 | the pair is upper-case, the upper-cased base id, a `/`, then the upper-cased quote id |
| `Entity.BitcoinUsdPair` | dcapal-backend/src/app/domain/entity.rs:170-178 | a bitcoin/usd market's pair is `"BITCOIN/USD"` |
| `Entity.Market.constructor` | dcapal-backend/src/app/domain/entity.rs:170-178 | id, legs and price are stored unchanged; the pair is derived from the legs' ids, and the market invariant holds |
| `Entity.Market.SetPrice` | dcapal-backend/src/app/domain/entity.rs:184-186 | the cached price becomes the new one; id, pair, base and quote are unchanged, so the pair still matches the legs |
| `Entity.Market.PairShape` | dcapal-backend/src/app/domain/entity.rs:170-186 | for a market built by `new` and then given any number of prices, the pair is upper-case: upper-cased base id, `/`, upper-cased quote id |
| `Entity.Market.IsFiat` | dcapal-backend/src/app/domain/entity.rs:188-190 | a market is fiat iff both legs are of kind `Fiat` |
| `Entity.Market.IsPriceOutdated` | dcapal-backend/src/app/domain/entity.rs:192-195 | true only with a cached price, and then exactly when that price is outdated |
| `Entity.Market.IsOutdated` | dcapal-backend/src/app/domain/entity.rs:192-201 | without a price a market is not outdated; with one it is outdated iff its price is |
| `Entity.Market.TimeToLive` | dcapal-backend/src/app/domain/entity.rs:203-208 | the cached price's time to live, zero without a price; zero iff no price or the price has expired |
| `Entity.RiskTolerance.FromStr` | dcapal-backend/src/app/domain/entity.rs:225-236 | parses exactly `"Low"`, `"Medium"`, `"High"`, each to the value that displays as it; every other string is an error |
| `Entity.RiskTolerance.ToString` | dcapal-backend/src/app/domain/entity.rs:238-250 | the display text is one of the three literals |
| `Entity.RiskToleranceRoundTrip` | dcapal-backend/src/app/domain/entity.rs:225-250 | parsing the display text gives the value back; display is injective |
| `Entity.InvestmentMode.FromStr` | dcapal-backend/src/app/domain/entity.rs:259-269 | parses exactly `"Standard"` and `"Expert"`, each to the value that displays as it; every other string is an error |
| `Entity.InvestmentMode.ToString` | dcapal-backend/src/app/domain/entity.rs:271-282 | the display text is one of the two literals |
| `Entity.InvestmentModeRoundTrip` | dcapal-backend/src/app/domain/entity.rs:259-282 | parsing the display text gives the value back; display is injective |
| `Entity.InvestmentGoal.FromStr` | dcapal-backend/src/app/domain/entity.rs:293-305 | parses exactly the four literals, `"Wealth Building"` with its space, each to the value that displays as it; every other string is an error |
| `Entity.InvestmentGoal.ToString` | dcapal-backend/src/app/domain/entity.rs:307-320 | the display text is one of the four literals |
| `Entity.InvestmentGoalRoundTrip` | dcapal-backend/src/app/domain/entity.rs:293-320 | parsing the display text gives the value back; display is injective; `"WealthBuilding"` is rejected |
| `Rest.CacheControlOf` | dcapal-backend/src/ports/inbound/rest/mod.rs:90-94 | always `public`; max-age is the time to live in whole seconds rounded down |
| `Rest.AssetsCacheControlIsFullValidity` | dcapal-backend/src/ports/inbound/rest/mod.rs:29-32 | the fixed asset header equals the header of a full five-minute time to live |
| `Rest.PriceHeaderWithinValidity` | dcapal-backend/src/ports/inbound/rest/mod.rs:86-94 | a positive max-age never reaches past `ts + 5 min`; max-age is 0 once the price has expired; at most 300 for a price not from the future |
| `Rest.ThreeMinutesOldPrice` | dcapal-backend/src/ports/inbound/rest/mod.rs:86-94 | a price stamped three minutes ago is served with max-age 120 |
| `Rest.MarketWithoutPriceNotCacheable` | dcapal-backend/src/app/domain/entity.rs:192-208 | a market without a price is not outdated and its header has max-age 0 |
| `Rest.GetAssetsFiat` | dcapal-backend/src/ports/inbound/rest/mod.rs:39-50 | the service's fiat list, served `public, max-age=300` whatever the assets |
| `Rest.GetAssetsCrypto` | dcapal-backend/src/ports/inbound/rest/mod.rs:52-63 | the service's crypto list, served `public, max-age=300` whatever the assets |
| `Rest.GetPrice` | dcapal-backend/src/ports/inbound/rest/mod.rs:70-88 | succeeds iff the query resolves and a rate exists; resolver and service errors pass through; a missing rate is `PriceNotAvailable(base id, quote id)`; a rate is served with the header derived from its own time to live |
| `Rest.FeeStructure.ToString` | dcapal-backend/src/ports/inbound/rest/mod.rs:167-174 | the display text is `ZeroFee`, `Fixed` or `Variable` |
| `Rest.FeeStructureDisplayByVariant` | dcapal-backend/src/ports/inbound/rest/mod.rs:167-174 | two fee structures display alike iff they are the same variant, whatever their amounts |

## Left out

- The wall clock: `Utc::now()` (entity.rs lines 89 and 104) is the parameter `now`.
- The market-data cache (refresh deduplication per key, soft-fail on refresh error) and the conversion-rate resolver are not part of this model; `ConversionRateQuery::try_new` and `get_conversion_rate` are inputs of `Rest.GetPrice`, and the asset list of `get_assets_by_type` is an input of the asset handlers.
- `DcaError` is not part of this model beyond `PriceNotAvailable`: every other error of the query resolver or the market-data service is the single abstract variant `Upstream`, which `Rest.GetPrice` passes on unchanged.
- Upper-casing covers ASCII letters only; Rust's `to_uppercase` also maps other Unicode letters, some to several characters.
- `f64` prices and `Decimal` fee amounts are carried as `real` values and never computed on; floating-point behaviour is not modelled.
- Leap seconds (a nanosecond field of one second or more) and `chrono`'s range limits are not modelled: instants are unbounded integers, so the `unwrap` calls on the setters and the panic on overflowing `ts + 5 min` never arise.
- The `Expiring` trait is not a Dafny trait: `Price` and `Market` each carry `IsOutdated` and `TimeToLive`, and `cache_control` takes the time to live, the only thing it reads of its argument.
- `Market::price()` is the `price` field itself, and `Price::new` is the `Price` datatype constructor.
- The text rendering of the `Cache-Control` header belongs to the HTTP library.
- JSON (de)serialisation, the JSON-schema validator, axum extractors and response building, and the metrics counters are framework code.
- `import_portfolio` and `get_imported_portfolio` are repository I/O; `User`, `Portfolio`, `PortfolioHoldings`, `InvestmentPreferences` and `Ai` are plain data without behaviour.
