/**
 * The pure parts of the full-width listing card (src/components/FullWidthListingCard.tsx):
 * localised title and condition, the never-localised address, the badges, the price
 * heading, which contact buttons are shown and enabled, and what a click on them does.
 * Browser effects are returned as values instead of being performed.
 */
module FullWidthListingCard {
  import opened Wrappers
  import opened Enums
  import opened Locale
  import opened Price
  import opened JsString

  datatype ContactMethod = Phone | Chat | WhatsApp

  datatype VehicleDetails = VehicleDetails(mileage: Option<real>, year: Option<int>)

  /** The `Listing` record, with the fields the card reads. */
  datatype Listing = Listing(
    id: string,
    user_id: string,
    title: string,
    title_ar: Option<string>,
    price: PriceValue,
    slug: string,
    images: seq<string>,
    address: string,
    address_ar: Option<string>,
    created_at: string,
    condition: Option<string>,
    condition_ar: Option<string>,
    contact_methods: Option<seq<ContactMethod>>,
    phone_number: Option<string>,
    vehicle_details: Option<VehicleDetails>)

  // ---- Localised fields ----

  /** `listingTitle`. */
  function Title(listing: Listing, locale: string): (r: string)
    ensures r != listing.title ==> IsArabic(locale) && Truthy(listing.title_ar) && r == listing.title_ar.value
    ensures IsArabic(locale) && Truthy(listing.title_ar) ==> r == listing.title_ar.value
  {
    Localized(locale, listing.title, listing.title_ar)
  }

  /** `listingCondition`: may be absent. */
  function Condition(listing: Listing, locale: string): (r: Option<string>)
    ensures r != listing.condition ==> IsArabic(locale) && Truthy(listing.condition_ar) && r == listing.condition_ar
    ensures IsArabic(locale) && Truthy(listing.condition_ar) ==> r == listing.condition_ar
  {
    LocalizedOptional(locale, listing.condition, listing.condition_ar)
  }

  /** `listingAddress = listing.address`: this card never shows `address_ar`. */
  function Address(listing: Listing, locale: string): string {
    listing.address
  }

  /** The address depends neither on the locale nor on the Arabic address. */
  lemma AddressIgnoresLocale(listing: Listing, locale: string, other: string, variant: Option<string>)
    ensures Address(listing, locale) == Address(listing.(address_ar := variant), other) == listing.address
  {
  }

  // ---- Badges and price ----

  /** The condition badge: shown when the resolved condition is truthy. */
  function ConditionBadge(listing: Listing, locale: string): (r: Option<string>)
    ensures r.Some? <==> Truthy(Condition(listing, locale))
    ensures r.Some? ==> r == Condition(listing, locale)
  {
    var condition := Condition(listing, locale);
    if Truthy(condition) then condition else None
  }

  /** The mileage badge: `mileage ? `${mileage.toLocaleString()} ${km}` : undefined`. */
  function MileageBadge(listing: Listing, km: string, toLocaleString: real -> string): (r: Option<string>)
    ensures r.Some? <==>
      listing.vehicle_details.Some? && listing.vehicle_details.value.mileage.Some? &&
      listing.vehicle_details.value.mileage.value != 0.0
    ensures r.Some? ==> r.value == toLocaleString(listing.vehicle_details.value.mileage.value) + " " + km
  {
    match listing.vehicle_details
    case Some(VehicleDetails(Some(mileage), _)) =>
      if mileage != 0.0 then Some(toLocaleString(mileage) + " " + km) else None
    case _ => None
  }

  /** A digit character for `0 <= d < 10`. */
  function DigitChar(d: nat): (c: char)
    requires d < 10
    ensures IsAsciiDigit(c)
  {
    ('0' as int + d) as char
  }

  /** The decimal digits of a natural number, most significant first. */
  function NaturalString(n: nat): (r: string)
    ensures |r| >= 1 && forall k :: 0 <= k < |r| ==> IsAsciiDigit(r[k])
  {
    if n < 10 then [DigitChar(n)] else NaturalString(n / 10) + [DigitChar(n % 10)]
  }

  /** The number a string of decimal digits denotes, most significant digit first. */
  function DigitsValue(s: string): int
    requires forall k :: 0 <= k < |s| ==> IsAsciiDigit(s[k])
  {
    if s == [] then 0 else DigitsValue(s[..|s| - 1]) * 10 + (s[|s| - 1] as int - '0' as int)
  }

  /** `NaturalString` is the decimal numeral of its argument: reading it back gives the number. */
  lemma {:induction false} NaturalStringValue(n: nat)
    ensures DigitsValue(NaturalString(n)) == n
  {
    if n >= 10 {
      NaturalStringValue(n / 10);
      var s := NaturalString(n);
      assert s[..|s| - 1] == NaturalString(n / 10);
      assert s[|s| - 1] == DigitChar(n % 10);
    } else {
      assert NaturalString(n)[..0] == [];
    }
  }

  /** `year.toString()` for a whole year: never the empty string, so never falsy. */
  function DecimalString(n: int): (r: string)
    ensures r != ""
  {
    if n < 0 then "-" + NaturalString(-n) else NaturalString(n)
  }

  /** The year badge: `year?.toString()`, shown when that string is truthy. */
  function YearBadge(listing: Listing): (r: Option<string>)
    ensures r.Some? <==> listing.vehicle_details.Some? && listing.vehicle_details.value.year.Some?
    ensures r.Some? ==> r.value == DecimalString(listing.vehicle_details.value.year.value)
  {
    match listing.vehicle_details
    case Some(VehicleDetails(_, Some(year))) =>
      var text := DecimalString(year);
      if text != "" then Some(text) else None
    case _ => None
  }

  /** A mileage of 0 has no badge, but a year of 0 has one: the year is tested after it became a string. */
  lemma ZeroMileageHiddenZeroYearShown(listing: Listing, km: string, toLocaleString: real -> string)
    requires listing.vehicle_details == Some(VehicleDetails(Some(0.0), Some(0)))
    ensures MileageBadge(listing, km, toLocaleString).None?
    ensures YearBadge(listing) == Some("0")
  {
    assert DecimalString(0) == [DigitChar(0)];
  }

  /** `{currency} {price}`: a string price is shown unchanged after the currency and a space. */
  function PriceHeading(listing: Listing, currency: Option<string>, toLocaleString: real -> string): (r: string)
    ensures var shown := currency.GetOr(CurrencySymbol);
      |r| > |shown| && r[..|shown|] == shown && r[|shown|] == ' '
    ensures listing.price.Text? ==> r == currency.GetOr(CurrencySymbol) + " " + listing.price.text
  {
    PriceLabel(currency.GetOr(CurrencySymbol), listing.price, toLocaleString)
  }

  // ---- Contact actions ----

  /** `!listing.contact_methods || listing.contact_methods.includes(method)`. */
  predicate Offers(listing: Listing, contact: ContactMethod) {
    listing.contact_methods.None? || contact in listing.contact_methods.value
  }

  /** `!listing.phone_number` is false: a non-empty number is present. */
  predicate HasPhone(listing: Listing) {
    Truthy(listing.phone_number)
  }

  datatype Tooltip = CallSeller | PhoneNotAvailable | MessageOnWhatsapp | WhatsappNotAvailable

  datatype ActionButton = ActionButton(disabled: bool, tooltip: Tooltip)

  /** What `StartChat` is given. */
  datatype ChatTarget = ChatTarget(listingId: string, sellerId: string)

  /** The rendered contact actions; an absent one is not rendered at all. */
  datatype ContactActions = ContactActions(
    call: Option<ActionButton>,
    chat: Option<ChatTarget>,
    whatsapp: Option<ActionButton>)

  /** The action bar: each button present iff its method is offered; call and WhatsApp disabled iff no phone number. */
  function Actions(listing: Listing): (r: ContactActions)
    ensures r.call.Some? <==> Offers(listing, Phone)
    ensures r.chat.Some? <==> Offers(listing, Chat)
    ensures r.whatsapp.Some? <==> Offers(listing, WhatsApp)
    ensures r.call.Some? ==> (r.call.value.disabled <==> !HasPhone(listing))
    ensures r.whatsapp.Some? ==> (r.whatsapp.value.disabled <==> !HasPhone(listing))
    ensures r.call.Some? ==> r.call.value.tooltip == (if HasPhone(listing) then CallSeller else PhoneNotAvailable)
    ensures r.whatsapp.Some? ==>
      r.whatsapp.value.tooltip == (if HasPhone(listing) then MessageOnWhatsapp else WhatsappNotAvailable)
    ensures r.chat.Some? ==> r.chat.value == ChatTarget(listing.id, listing.user_id)
  {
    var noPhone := !HasPhone(listing);
    ContactActions(
      if Offers(listing, Phone)
      then Some(ActionButton(noPhone, if noPhone then PhoneNotAvailable else CallSeller))
      else None,
      if Offers(listing, Chat) then Some(ChatTarget(listing.id, listing.user_id)) else None,
      if Offers(listing, WhatsApp)
      then Some(ActionButton(noPhone, if noPhone then WhatsappNotAvailable else MessageOnWhatsapp))
      else None)
  }

  /** Without a `contact_methods` list all three actions are rendered. */
  lemma AbsentListOffersAll(listing: Listing)
    requires listing.contact_methods.None?
    ensures var r := Actions(listing); r.call.Some? && r.chat.Some? && r.whatsapp.Some?
  {
  }

  /** An empty list is truthy in JavaScript: it hides every action rather than falling back to all. */
  lemma EmptyListOffersNone(listing: Listing)
    requires listing.contact_methods == Some([])
    ensures var r := Actions(listing); r.call.None? && r.chat.None? && r.whatsapp.None?
  {
  }

  /** The chat action never depends on the phone number. */
  lemma ChatIgnoresPhone(listing: Listing, phone: Option<string>)
    ensures Actions(listing).chat == Actions(listing.(phone_number := phone)).chat
  {
  }

  /** A browser effect of a click. */
  datatype ClickEffect = NoEffect | NavigateTo(href: string) | OpenWindow(url: string, target: string)

  /** The call button's `onClick`: `window.location.href = `tel:${phone_number}`` when there is a number. */
  function CallClick(listing: Listing): (r: ClickEffect)
    ensures r == NoEffect <==> !HasPhone(listing)
    ensures r != NoEffect ==> r == NavigateTo("tel:" + listing.phone_number.value)
  {
    if HasPhone(listing) then NavigateTo("tel:" + listing.phone_number.value) else NoEffect
  }

  /** `\d` or `+`: what `/[^\d+]/g` keeps. */
  predicate IsPhoneChar(c: char) {
    IsAsciiDigit(c) || c == '+'
  }

  /** `phone_number.replace(/[^\d+]/g, '')`. */
  function WhatsAppNumber(phone: string): (r: string)
    ensures forall k :: 0 <= k < |r| ==> IsPhoneChar(r[k])
    ensures |r| <= |phone|
  {
    KeepOnly(phone, IsPhoneChar)
  }

  /** The number is the phone's digits and `+` signs in their original order: sanitising works piece by piece. */
  lemma WhatsAppNumberAppend(a: string, b: string, c: char)
    ensures WhatsAppNumber(a + b) == WhatsAppNumber(a) + WhatsAppNumber(b)
    ensures !IsPhoneChar(c) ==> WhatsAppNumber([c] + a) == WhatsAppNumber(a)
    ensures IsPhoneChar(c) ==> WhatsAppNumber([c] + a) == [c] + WhatsAppNumber(a)
  {
    KeepOnlyAppend(a, b, IsPhoneChar);
    KeepOnlyAppend([c], a, IsPhoneChar);
    assert KeepOnly([c], IsPhoneChar) == (if IsPhoneChar(c) then [c] else []) + KeepOnly([], IsPhoneChar);
  }

  /** Sanitising a sanitised number changes nothing, and a number is left alone iff it is already clean. */
  lemma WhatsAppNumberIdempotent(phone: string)
    ensures WhatsAppNumber(WhatsAppNumber(phone)) == WhatsAppNumber(phone)
    ensures WhatsAppNumber(phone) == phone <==> forall k :: 0 <= k < |phone| ==> IsPhoneChar(phone[k])
  {
    KeepOnlyIdempotent(phone, IsPhoneChar);
    KeepOnlyFixedIff(phone, IsPhoneChar);
  }

  /** The placeholder of `t.listings.whatsappMessage`. */
  const TitlePlaceholder: string := "{listingTitle}"

  /** `whatsappMessage.replace('{listingTitle}', listingTitle)`. */
  function WhatsAppMessage(template: string, title: string): (r: string)
    ensures (forall j :: !OccursAt(template, TitlePlaceholder, j)) ==> r == template
  {
    ReplaceFirst(template, TitlePlaceholder, title)
  }

  /**
   * With a title free of `$`, the message is the template with its FIRST placeholder
   * replaced by the title; any later placeholder stays in the text after it.
   */
  lemma WhatsAppMessageFillsFirst(template: string, title: string, at: nat)
    requires '$' !in title
    requires OccursAt(template, TitlePlaceholder, at)
    requires forall j :: 0 <= j < at ==> !OccursAt(template, TitlePlaceholder, j)
    ensures WhatsAppMessage(template, title) ==
      template[..at] + title + template[at + |TitlePlaceholder|..]
  {
    ReplaceFirstLiteral(template, TitlePlaceholder, title, at);
  }

  /**
   * A title containing `$&` is not inserted literally: `replace` expands it to the matched
   * placeholder, so the title "A$&" turns the template "{listingTitle}" into "A{listingTitle}".
   */
  lemma DollarPatternInTitle()
    ensures WhatsAppMessage(TitlePlaceholder, "A$&") == "A" + TitlePlaceholder
  {
    assert OccursAt(TitlePlaceholder, TitlePlaceholder, 0);
    assert IndexOf(TitlePlaceholder, TitlePlaceholder) == Some(0);
    assert Substitute("", TitlePlaceholder, "", "") == "";
    assert Substitute("$&", TitlePlaceholder, "", "") == TitlePlaceholder;
    assert Substitute("A$&", TitlePlaceholder, "", "") == "A" + TitlePlaceholder;
  }

  /**
   * The WhatsApp button's `onClick`: with a phone number, open
   * `https://wa.me/<number>?text=<encoded message>` in a new tab; otherwise nothing.
   * `encodeURIComponent` is a parameter.
   */
  function WhatsAppClick(listing: Listing, locale: string, template: string, encodeURIComponent: string -> string): (r: ClickEffect)
    ensures r == NoEffect <==> !HasPhone(listing)
    ensures r != NoEffect ==> r.OpenWindow? && r.target == "_blank"
    ensures r != NoEffect ==>
      r.url == "https://wa.me/" + WhatsAppNumber(listing.phone_number.value) + "?text=" +
               encodeURIComponent(WhatsAppMessage(template, Title(listing, locale)))
  {
    if HasPhone(listing) then
      var number := WhatsAppNumber(listing.phone_number.value);
      var message := WhatsAppMessage(template, Title(listing, locale));
      OpenWindow("https://wa.me/" + number + "?text=" + encodeURIComponent(message), "_blank")
    else NoEffect
  }

  /** A rendered call or WhatsApp button does something on click exactly when it is enabled. */
  lemma EnabledIffClickActs(listing: Listing, locale: string, template: string, encodeURIComponent: string -> string)
    ensures Actions(listing).call.Some? ==>
      (Actions(listing).call.value.disabled <==> CallClick(listing) == NoEffect)
    ensures Actions(listing).whatsapp.Some? ==>
      (Actions(listing).whatsapp.value.disabled <==> WhatsAppClick(listing, locale, template, encodeURIComponent) == NoEffect)
  {
  }
}
