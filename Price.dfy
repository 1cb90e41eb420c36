/**
 * Price display. `formatPrice` in src/lib/utils.ts formats the number for "ar-AE" or
 * "en-AE" (without fraction digits) and places the dirham symbol after the number for
 * Arabic and before it otherwise. The cards instead print `${currency} ${price}`, where a
 * string price is used as it is. Number formatting itself (`Intl.NumberFormat`,
 * `toLocaleString`) is a parameter: it is locale data, not logic of this code.
 */
module Price {
  import opened Wrappers

  /** One piece of the rendered `formatPrice` output, in display order. */
  datatype PricePart = Amount(text: string) | DirhamSymbol

  /** A listing price as the cards receive it: `number | string`. */
  datatype PriceValue = Number(amount: real) | Text(text: string)

  /** The locale `formatPrice` passes to `Intl.NumberFormat`. */
  function NumberLocale(locale: string): (r: string)
    ensures r == "ar-AE" || r == "en-AE"
    ensures r == "ar-AE" <==> locale == "ar"
  {
    if locale == "ar" then "ar-AE" else "en-AE"
  }

  /**
   * `formatPrice(price, locale = 'en')`: the formatted number and the dirham symbol, the
   * number first exactly when the locale is "ar".
   */
  function FormatPrice(price: real, locale: Option<string>, formatNumber: (string, real) -> string): (r: seq<PricePart>)
    ensures |r| == 2 && DirhamSymbol in r
    ensures Amount(formatNumber(NumberLocale(locale.GetOr("en")), price)) in r
    ensures r[0] == DirhamSymbol <==> locale != Some("ar")
  {
    var effective := locale.GetOr("en");
    var amount := Amount(formatNumber(NumberLocale(effective), price));
    if effective == "ar" then [amount, DirhamSymbol] else [DirhamSymbol, amount]
  }

  /** Every locale other than "ar" gives the same output, and so does omitting the locale. */
  lemma NonArabicLocalesAgree(price: real, a: Option<string>, b: Option<string>, formatNumber: (string, real) -> string)
    requires a != Some("ar") && b != Some("ar")
    ensures FormatPrice(price, a, formatNumber) == FormatPrice(price, b, formatNumber)
    ensures FormatPrice(price, a, formatNumber) == FormatPrice(price, None, formatNumber)
  {
  }

  /** Arabic puts the "ar-AE" number before the symbol; the default puts the symbol before the "en-AE" number. */
  lemma ArabicReversesOrder(price: real, formatNumber: (string, real) -> string)
    ensures FormatPrice(price, Some("ar"), formatNumber) == [Amount(formatNumber("ar-AE", price)), DirhamSymbol]
    ensures FormatPrice(price, None, formatNumber) == [DirhamSymbol, Amount(formatNumber("en-AE", price))]
  {
  }

  /**
   * `${currency} ${typeof price === 'number' ? price.toLocaleString() : price}`: the
   * currency, one space, then the price text; a string price is passed through unchanged.
   */
  function PriceLabel(currency: string, price: PriceValue, toLocaleString: real -> string): (r: string)
    ensures |r| > |currency| && r[..|currency|] == currency && r[|currency|] == ' '
    ensures price.Text? ==> r[|currency| + 1..] == price.text
    ensures price.Number? ==> r[|currency| + 1..] == toLocaleString(price.amount)
  {
    var shown := match price
      case Number(amount) => toLocaleString(amount)
      case Text(text) => text;
    currency + " " + shown
  }
}
