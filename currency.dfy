/** The `Currency` enumeration, in declaration order. */
module Currencies {

  datatype Currency =
    | USD | EUR | TZS | GBP | JPY | AUD | CAD | CHF
    | UGX | KES | RWF | ZAR | CNY | INR | BRL | MXN

  /** `Enum.GetValues(typeof(Currency))`: every member once, in declaration order. */
  const AllCurrencies: seq<Currency> :=
    [USD, EUR, TZS, GBP, JPY, AUD, CAD, CHF, UGX, KES, RWF, ZAR, CNY, INR, BRL, MXN]

  lemma AllCurrenciesListsEveryMember(c: Currency)
    ensures c in AllCurrencies
  {
  }
}
