/**
 * The pure parts of the compact listing card (src/components/ListingCard.tsx): the price
 * heading with its default formatter, the localised title and location, and the photo
 * shown for the carousel index. The carousel state itself is `Carousel.PhotoCarousel`.
 */
module ListingCard {
  import opened Wrappers
  import opened Enums
  import opened Locale
  import opened Price
  import Carousel

  /** The card's props that its logic reads; `className`, `onLike` and the like are markup. */
  datatype Props = Props(
    photos: seq<string>,
    title: string,
    title_ar: Option<string>,
    slug: string,
    price: PriceValue,
    location: string,
    location_ar: Option<string>,
    timestamp: string,
    currency: Option<string>,
    priceFormatter: Option<PriceValue -> string>)

  /** `currency = CURRENCY.SYMBOL`: the default applies only when the prop is missing. */
  function Currency(props: Props): (r: string)
    ensures props.currency.None? ==> r == CurrencySymbol
    ensures props.currency.Some? ==> r == props.currency.value
  {
    props.currency.GetOr(CurrencySymbol)
  }

  /** The default `priceFormatter`: the currency, a space, then the price text. */
  function DefaultPriceFormatter(currency: string, price: PriceValue, toLocaleString: real -> string): (r: string)
    ensures price.Text? ==> r == currency + " " + price.text
    ensures price.Number? ==> r == currency + " " + toLocaleString(price.amount)
  {
    PriceLabel(currency, price, toLocaleString)
  }

  /** The price heading: the caller's formatter when given, otherwise the default one. */
  function PriceHeading(props: Props, toLocaleString: real -> string): (r: string)
    ensures props.priceFormatter.Some? ==> r == props.priceFormatter.value(props.price)
    ensures props.priceFormatter.None? && props.price.Text? ==> r == Currency(props) + " " + props.price.text
    ensures props.priceFormatter.None? ==> |r| > |Currency(props)| && r[..|Currency(props)|] == Currency(props)
  {
    match props.priceFormatter
    case Some(format) => format(props.price)
    case None => DefaultPriceFormatter(Currency(props), props.price, toLocaleString)
  }

  /** `listingTitle`: the Arabic title only for the "ar" locale and a non-empty `title_ar`. */
  function Title(props: Props, locale: string): (r: string)
    ensures r != props.title ==> IsArabic(locale) && Truthy(props.title_ar) && r == props.title_ar.value
    ensures IsArabic(locale) && Truthy(props.title_ar) ==> r == props.title_ar.value
  {
    Localized(locale, props.title, props.title_ar)
  }

  /** `listingLocation`: chosen the same way from `location_ar` and `location`. */
  function Location(props: Props, locale: string): (r: string)
    ensures r != props.location ==> IsArabic(locale) && Truthy(props.location_ar) && r == props.location_ar.value
    ensures IsArabic(locale) && Truthy(props.location_ar) ==> r == props.location_ar.value
  {
    Localized(locale, props.location, props.location_ar)
  }

  /**
   * The image `src`, the template literal `${photos[currentPhotoIndex]}`: the photo at the
   * carousel index, or the text "undefined" when the index is out of range.
   */
  function ShownPhoto(props: Props, index: int): (r: string)
    ensures Carousel.InRange(index, |props.photos|) ==> r == props.photos[index]
    ensures !Carousel.InRange(index, |props.photos|) ==> r == "undefined"
  {
    match Carousel.PhotoAt(props.photos, index)
    case Some(photo) => photo
    case None => "undefined"
  }

  /** A card mounted with no photos asks for the image "undefined". */
  lemma NoPhotosShowUndefined(props: Props)
    requires props.photos == []
    ensures ShownPhoto(props, 0) == "undefined"
  {
  }

  /** On a card with photos, the index reached by any number of "next" clicks shows a photo of the list. */
  lemma NextClicksShowPhoto(props: Props, k: nat)
    requires |props.photos| >= 1
    ensures ShownPhoto(props, Carousel.NextTimes(0, |props.photos|, k)) in props.photos
  {
    Carousel.NextTimesAdvances(0, |props.photos|, k);
  }
}
