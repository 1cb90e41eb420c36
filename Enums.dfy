/** The constants of src/constants/enums.ts that the listing cards use. */
module Enums {

  /** The two interface languages and their locale codes. */
  datatype Language = English | Arabic {
    function Code(): string {
      match this
      case English => "en"
      case Arabic => "ar"
    }
  }

  /** `CURRENCY.SYMBOL`: the UAE dirham sign. */
  const CurrencySymbol: string := "\U{62F}.\U{625}"
}
