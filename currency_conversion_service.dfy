/**
 * `CurrencyConversionService`: a rate table to US dollars (one unit of the
 * currency is worth that many dollars), read from the configuration with a
 * built-in fallback per currency, and conversion of an amount to dollars
 * rounded to cents, halves away from zero.
 *
 * `decimal` values are modelled as exact rationals (`real`).
 */
module CurrencyConversion {
  import opened Common
  import opened Currencies

  /** `currency.ToString()`: the member's name, the configuration key. */
  function Name(c: Currency): string {
    match c
    case USD => "USD" case EUR => "EUR" case TZS => "TZS" case GBP => "GBP"
    case JPY => "JPY" case AUD => "AUD" case CAD => "CAD" case CHF => "CHF"
    case UGX => "UGX" case KES => "KES" case RWF => "RWF" case ZAR => "ZAR"
    case CNY => "CNY" case INR => "INR" case BRL => "BRL" case MXN => "MXN"
  }

  /**
   * `GetDefaultRateToUsd`: the fallback rate of each currency. Every
   * fallback rate is positive, and only the dollar's own rate is one.
   */
  function DefaultRateToUsd(c: Currency): (r: real)
    ensures r > 0.0
    ensures c == USD <==> r == 1.0
  {
    match c
    case USD => 1.0
    case EUR => 1.08
    case GBP => 1.27
    case JPY => 0.0067
    case AUD => 0.65
    case CAD => 0.74
    case CHF => 1.12
    case TZS => 0.00038
    case UGX => 0.00027
    case KES => 0.0077
    case RWF => 0.00078
    case ZAR => 0.055
    case CNY => 0.14
    case INR => 0.012
    case BRL => 0.20
    case MXN => 0.058
  }

  /**
   * The rate the table holds for a currency: the value configured under its
   * name in the `ExchangeRates` section, or else the fallback. With no
   * rate configured for the currency the fallback rules, and when every
   * configured rate is positive so is the rate used.
   */
  function RateFor(configuration: map<string, real>, c: Currency): (r: real)
    ensures Name(c) !in configuration ==> r == DefaultRateToUsd(c)
    ensures (forall n :: n in configuration ==> configuration[n] > 0.0) ==> r > 0.0
  {
    if Name(c) in configuration then configuration[Name(c)] else DefaultRateToUsd(c)
  }

  // ---------------------------------------------------------------------
  // Rounding to cents
  // ---------------------------------------------------------------------

  /** A whole number of cents. */
  predicate IsCents(r: real) {
    (r * 100.0).Floor as real == r * 100.0
  }

  /**
   * `r` is `x` rounded to two decimal places with `MidpointRounding.AwayFromZero`:
   * a whole number of cents at most half a cent from `x`, and at exactly
   * half a cent only on the side away from zero.
   */
  predicate RoundsTo(r: real, x: real) {
    && IsCents(r)
    && x - 0.005 <= r <= x + 0.005
    && (r == x + 0.005 ==> x > 0.0)
    && (r == x - 0.005 ==> x < 0.0)
  }

  /** `Math.Round(x, 2, MidpointRounding.AwayFromZero)`. */
  function RoundCents(x: real): (r: real)
    ensures RoundsTo(r, x)
  {
    if x >= 0.0 then
      var n := (x * 100.0 + 0.5).Floor;
      WholeCents(n);
      (n as real) / 100.0
    else
      var n := (-x * 100.0 + 0.5).Floor;
      WholeCents(-n);
      (-n as real) / 100.0
  }

  lemma WholeCents(n: int)
    ensures IsCents(n as real / 100.0)
  {
    assert (n as real / 100.0) * 100.0 == n as real;
  }

  /** At most one value is `x` rounded to cents, so `RoundsTo` describes `RoundCents` completely. */
  lemma RoundingIsUnique(r: real, s: real, x: real)
    requires RoundsTo(r, x) && RoundsTo(s, x)
    ensures r == s
  {
    var a, b := (r * 100.0).Floor, (s * 100.0).Floor;
    assert a as real == r * 100.0 && b as real == s * 100.0;
    assert -1 <= a - b <= 1;
  }

  /** An amount already in whole cents rounds to itself. */
  lemma CentsRoundToThemselves(x: real)
    requires IsCents(x)
    ensures RoundCents(x) == x
  {
    RoundingIsUnique(RoundCents(x), x, x);
  }

  /** Rounding keeps the sign: a non-negative value never rounds to a negative one. */
  lemma RoundingKeepsSign(x: real)
    requires x >= 0.0
    ensures RoundCents(x) >= 0.0
  {
  }

  class CurrencyConversionService {
    const RatesToUsd: map<Currency, real>

    /** Every currency has a rate. */
    predicate Valid() {
      forall c: Currency :: c in RatesToUsd
    }

    /**
     * The constructor: for each currency, in declaration order, the
     * configured rate under its name if there is one, else the fallback.
     */
    constructor (configuration: map<string, real>)
      ensures Valid()
      ensures forall c :: RatesToUsd[c] == RateFor(configuration, c)
    {
      var dict: map<Currency, real> := map[];
      for i := 0 to |AllCurrencies|
        invariant forall k :: 0 <= k < i ==> AllCurrencies[k] in dict
        invariant forall c :: c in dict ==> dict[c] == RateFor(configuration, c)
      {
        var currency := AllCurrencies[i];
        var key := Name(currency);
        var value := if key in configuration then Some(configuration[key]) else None;
        dict := dict[currency := value.GetOr(DefaultRateToUsd(currency))];
      }
      forall c: Currency ensures c in dict {
        AllCurrenciesListsEveryMember(c);
        var k :| 0 <= k < |AllCurrencies| && AllCurrencies[k] == c;
      }
      RatesToUsd := dict;
    }

    /**
     * `ConvertToUsd`: zero for an amount that is not positive; otherwise the
     * amount times the currency's rate, rounded to cents with halves away
     * from zero.
     */
    function ConvertToUsd(amount: real, currency: Currency): (r: real)
      requires Valid()
      ensures amount <= 0.0 ==> r == 0.0
      ensures amount > 0.0 ==> RoundsTo(r, amount * RatesToUsd[currency])
      ensures amount > 0.0 && RatesToUsd[currency] >= 0.0 ==> r >= 0.0
    {
      if amount <= 0.0 then 0.0
      else
        var x := amount * RatesToUsd[currency];
        assert RatesToUsd[currency] >= 0.0 ==> x >= 0.0 by {
          if RatesToUsd[currency] >= 0.0 {
            NonNegativeProduct(amount, RatesToUsd[currency]);
          }
        }
        RoundCents(x)
    }
  }

  lemma NonNegativeProduct(a: real, b: real)
    requires a >= 0.0 && b >= 0.0
    ensures a * b >= 0.0
  {
  }

  /**
   * With no configured dollar rate, a dollar amount in whole cents converts
   * to itself.
   */
  lemma UsdIsIdentity(service: CurrencyConversionService, configuration: map<string, real>, amount: real)
    requires service.Valid() && forall c :: service.RatesToUsd[c] == RateFor(configuration, c)
    requires "USD" !in configuration
    requires IsCents(amount)
    ensures service.ConvertToUsd(amount, USD) == if amount <= 0.0 then 0.0 else amount
  {
    assert service.RatesToUsd[USD] == 1.0;
    if amount > 0.0 {
      assert amount * 1.0 == amount;
      CentsRoundToThemselves(amount);
    }
  }

  /** With the fallback rates (nothing configured), no conversion is ever negative. */
  lemma DefaultConversionsAreNonNegative(service: CurrencyConversionService, amount: real, c: Currency)
    requires service.Valid() && forall d :: service.RatesToUsd[d] == RateFor(map[], d)
    ensures service.ConvertToUsd(amount, c) >= 0.0
  {
  }
}
