/**
 * The decision logic of the REST boundary: the `Cache-Control` header that
 * goes with each response, the outcome of the price endpoint, and the text
 * form of a fee structure.
 *
 * A `CacheControl` value stands for the header's response directives
 * `public` (section 5.2.2.9 of RFC 9111) and `max-age` in whole seconds
 * (section 5.2.2.1 of RFC 9111); how the header is rendered as text belongs
 * to the HTTP library and is not part of this model.
 */
module Rest {
  import opened Wrappers
  import opened Time
  import opened Entity

  datatype CacheControl = CacheControl(isPublic: bool, maxAge: Option<nat>)

  /** A response: the header and the JSON body it is served with. */
  datatype Response<T> = Response(cacheControl: CacheControl, body: T)

  /** `ASSETS_CACHE_CONTROL`: public, five minutes. */
  const ASSETS_CACHE_CONTROL: CacheControl := CacheControl(true, Some(5 * 60))

  /**
   * `cache_control`: any `Expiring` value is served `public` with a max-age
   * of its time to live in whole seconds, rounded down. The only thing the
   * function reads of its argument is that time to live, so the model takes
   * it directly.
   */
  function CacheControlOf(ttl: Duration): (h: CacheControl)
    ensures h.isPublic && h.maxAge.Some?
    ensures h.maxAge.value * NANOS_PER_SECOND <= ttl < (h.maxAge.value + 1) * NANOS_PER_SECOND
  {
    CacheControl(true, Some(ttl / NANOS_PER_SECOND))
  }

  /** The asset list endpoints share the header a freshly stamped price would get. */
  lemma AssetsCacheControlIsFullValidity()
    ensures ASSETS_CACHE_CONTROL == CacheControlOf(VALIDITY)
  {
  }

  /**
   * The header of a price response never lets a cache keep the price past
   * the end of its validity, and never promises more than five minutes for
   * a price that is not from the future.
   */
  lemma PriceHeaderWithinValidity(p: Price, now: Instant)
    ensures var age := CacheControlOf(p.TimeToLive(now)).maxAge.value;
      (age > 0 ==> now + age * NANOS_PER_SECOND <= p.ts + VALIDITY)
      && (now >= p.ts + VALIDITY ==> age == 0)
      && (p.ts <= now ==> age <= ASSETS_CACHE_CONTROL.maxAge.value)
  {
  }

  /** A price stamped three minutes ago is served with `max-age=120`. */
  lemma ThreeMinutesOldPrice(p: Price, now: Instant)
    requires now == p.ts + Minutes(3)
    ensures CacheControlOf(p.TimeToLive(now)).maxAge == Some(120)
  {
  }

  /** A market without a cached price is served with `max-age=0`. */
  lemma MarketWithoutPriceNotCacheable(m: Market, now: Instant)
    requires m.price.None?
    ensures !m.IsOutdated(now)
    ensures CacheControlOf(m.TimeToLive(now)).maxAge == Some(0)
  {
  }

  /** `get_assets_fiat`: the fiat assets the market-data service lists, with the fixed header. */
  function GetAssetsFiat(assetsByType: AssetKind -> seq<Asset>): (r: Response<seq<Asset>>)
    ensures r.body == assetsByType(AssetKind.Fiat)
    ensures r.cacheControl.isPublic && r.cacheControl.maxAge == Some(300)
  {
    Response(ASSETS_CACHE_CONTROL, assetsByType(AssetKind.Fiat))
  }

  /** `get_assets_crypto`: the crypto assets the market-data service lists, with the fixed header. */
  function GetAssetsCrypto(assetsByType: AssetKind -> seq<Asset>): (r: Response<seq<Asset>>)
    ensures r.body == assetsByType(AssetKind.Crypto)
    ensures r.cacheControl.isPublic && r.cacheControl.maxAge == Some(300)
  {
    Response(ASSETS_CACHE_CONTROL, assetsByType(AssetKind.Crypto))
  }

  /**
   * The errors `get_price` can return. Only `PriceNotAvailable` is raised by
   * the handler itself. `Upstream` stands for any error of the query
   * resolver or the market-data service, whose code is not part of this
   * model; such an error is passed on unchanged.
   */
  datatype DcaError =
    | PriceNotAvailable(base: AssetId, quote: AssetId)
    | Upstream(cause: string)

  /** A resolved conversion-rate request: the base and quote assets. */
  datatype ConversionRateQuery = ConversionRateQuery(base: Asset, quote: Asset)

  /**
   * `get_price`. `query` is the outcome of `ConversionRateQuery::try_new`
   * and `conversionRate` is the market-data service's
   * `get_conversion_rate`; both are inputs. Any error of theirs is passed
   * on; a missing rate becomes `PriceNotAvailable` with the resolved asset
   * ids; a rate is served with the header `cache_control` derives from it.
   */
  function GetPrice(
    query: Result<ConversionRateQuery, DcaError>,
    conversionRate: ConversionRateQuery -> Result<Option<Price>, DcaError>,
    now: Instant
  ): (r: Result<Response<Price>, DcaError>)
    ensures r.Ok? <==> query.Ok? && conversionRate(query.value).Ok? && conversionRate(query.value).value.Some?
    ensures query.Err? ==> r == Err(query.error)
    ensures query.Ok? && conversionRate(query.value).Err? ==> r == Err(conversionRate(query.value).error)
    ensures query.Ok? && conversionRate(query.value) == Ok(None) ==>
              r == Err(PriceNotAvailable(query.value.base.Id(), query.value.quote.Id()))
    ensures r.Ok? ==> Ok(Some(r.value.body)) == conversionRate(query.value)
    ensures r.Ok? ==> r.value.cacheControl == CacheControlOf(r.value.body.TimeToLive(now))
  {
    match query
    case Err(e) => Err(e)
    case Ok(cmd) =>
      var base, quote := cmd.base.Id(), cmd.quote.Id();
      match conversionRate(cmd)
      case Err(e) => Err(e)
      case Ok(None) => Err(PriceNotAvailable(base, quote))
      case Ok(Some(price)) => Ok(Response(CacheControlOf(price.TimeToLive(now)), price))
  }

  /** The decimal amounts of a fee structure; only carried here. */
  type Decimal = real

  datatype FeeStructure =
    | ZeroFee
    | Fixed(feeAmount: Decimal)
    | Variable(feeRate: Decimal, minFee: Decimal, maxFee: Option<Decimal>)
  {
    /** `Display for FeeStructure`: the variant's name, whatever its amounts. */
    function ToString(): (s: string)
      ensures s in {"ZeroFee", "Fixed", "Variable"}
    {
      match this
      case ZeroFee => "ZeroFee"
      case Fixed(_) => "Fixed"
      case Variable(_, _, _) => "Variable"
    }
  }

  /** Two fee structures display alike exactly when they are the same variant. */
  lemma FeeStructureDisplayByVariant(a: FeeStructure, b: FeeStructure)
    ensures a.ToString() == b.ToString() <==>
              (a.ZeroFee? && b.ZeroFee?) || (a.Fixed? && b.Fixed?) || (a.Variable? && b.Variable?)
  {
  }
}
