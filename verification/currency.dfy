/** The fixed set of currencies an account may be opened in (utils/currency.go). */
module Currency {

  const USD: string := "USD"
  const EUR: string := "EUR"
  const CAD: string := "CAD"

  /** The supported currencies as a set: an independent reference for IsCurrencySupported. */
  const Supported: set<string> := {USD, EUR, CAD}

  /** A three-letter code written in upper-case ASCII letters. */
  predicate IsUpperCode(c: string)
  {
    |c| == 3 && forall i :: 0 <= i < |c| ==> 'A' <= c[i] <= 'Z'
  }

  /** Exact, case-sensitive comparison against the three codes; total, with no error path. */
  function IsCurrencySupported(currency: string): (ok: bool)
    ensures ok <==> currency in Supported
    ensures ok ==> IsUpperCode(currency)
  {
    match currency
    case "USD" => true
    case "EUR" => true
    case "CAD" => true
    case _ => false
  }

  /** The supported set has exactly three distinct members, each a three-letter upper-case code. */
  lemma SupportedCodes()
    ensures |Supported| == 3
    ensures forall c :: c in Supported ==> IsUpperCode(c)
  {
  }

  /** Matching is exact: lower-case spellings, the empty string and anything that is not three letters are refused. */
  lemma ExactMatchOnly(currency: string)
    ensures !IsUpperCode(currency) ==> !IsCurrencySupported(currency)
    ensures !IsCurrencySupported("") && !IsCurrencySupported("usd")
    ensures !IsCurrencySupported("eur") && !IsCurrencySupported("cad")
    ensures !IsCurrencySupported("Usd") && !IsCurrencySupported("USD ")
  {
  }
}
