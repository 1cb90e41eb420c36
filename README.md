# Listing presentation logic of the dealOnIt marketplace front end

The marketplace front end is mostly React markup. This project models the small pieces of
logic inside it and proves properties about them:

- **Slug generation** (`slugify`, src/lib/utils.ts). Text is lower-cased. Every character
  that is not `\w`, `\s` or `-` is deleted. Each whitespace run becomes `-`, each run of `-`
  collapses to one, and the result is trimmed.
- **Category icon lookup** (`getIcon`, src/lib/utils.ts). A kebab-case name becomes a
  PascalCase key. The key "Vehicles" gives the app's own icon; otherwise the icon library's
  entry is used, and the Hobbies icon when there is none.
- **Price layout** (`formatPrice`, src/lib/utils.ts). It places the dirham symbol after the
  number for the "ar" locale and before it otherwise. The cards' own `currency price` label
  is modelled too.
- **The photo carousel** of both listing cards. One index starts at 0. It moves with
  "next" `(i + 1) % n` and "previous" `(i - 1 + n) % n`. A dot click sets it without a check.
  The carousel is a class (`Carousel.PhotoCarousel`) whose methods update the index.
- **Localised fields.** The Arabic variant is shown only for the locale "ar" and only when it
  is non-empty. The full-width card never localises the address.
- **Contact actions of the full-width card.** Each of call, chat and WhatsApp is shown when
  `contact_methods` is absent or lists it. Call and WhatsApp are disabled when there is no
  phone number. The WhatsApp number keeps only digits and `+`. The message fills the
  template's first `{listingTitle}`.

Modules: `Wrappers` (Option), `JsString` (the JavaScript string built-ins the code uses),
`Enums` (src/constants/enums.ts), `Locale`, `Slug`, `Icons`, `Price`, `Carousel`,
`ListingCard`, `FullWidthListingCard`. The carousel code is identical in
src/components/ListingCard.tsx:55-61 and src/components/FullWidthListingCard.tsx:58-64, so
it is modelled once.

Behaviour of the code worth knowing:

- `slugify` keeps leading and trailing hyphens. Its `trim()` runs after whitespace has
  already become `-`, so `"  a  "` gives `"-a-"` (`Slug.LeadingWhitespaceKept`,
  `Slug.TrailingWhitespaceKept`).
- `formatPrice` has no check on the amount: a negative amount is formatted like any other.
- A dot click sets the index to the clicked value with no range check. After a dot click on
  a value outside the photo range, the list card asks for the image "undefined", as it does
  when mounted with no photos (`ListingCard.ShownPhoto`).
- "next" and "previous" on an empty photo list compute NaN in JavaScript, so the model
  requires at least one photo for them.
- Absent `contact_methods` enables all actions. An empty list is truthy in JavaScript and
  hides all of them (`FullWidthListingCard.EmptyListOffersNone`).

Two JavaScript details are modelled exactly:

- `toLowerCase` maps U+0130 to "i" plus a combining dot, so `slugify` keeps an "i" for it
  (`Slug.DottedCapitalISurvives`).
- `String.prototype.replace` expands `$&`, `` $` ``, `$'` and `$$` in the replacement, so a
  title containing them is not inserted literally into the WhatsApp message
  (`FullWidthListingCard.DollarPatternInTitle`).

## Model

| member | source | states |
|---|---|---|
| `JsString.LowerChar` | src/lib/utils.ts:38 | an ASCII capital becomes its lower-case letter, U+0130 becomes "i" and U+0307, U+212A becomes "k", every other character is kept |
| `JsString.ToLowerCase` | src/lib/utils.ts:38 | no ASCII upper-case letter is left after `toLowerCase` |
| `JsString.ToLowerCasePerChar` | src/lib/utils.ts:38 | without U+0130, `toLowerCase` keeps the length and turns each character into its own lower case |
| `JsString.KeepOnly` | src/lib/utils.ts:39 | a `/[^…]/g` deletion keeps only characters of the class and never lengthens the text |
| `JsString.KeepOnlySubset` | src/lib/utils.ts:39 | every character the deletion keeps comes from the input |
| `JsString.KeepOnlyAppend` | src/components/FullWidthListingCard.tsx:192 | the deletion works on each part of a concatenation separately (order is kept) |
| `JsString.KeepOnlyFixedIff` | src/lib/utils.ts:39 | the deletion leaves a string unchanged exactly when all its characters belong to the class |
| `JsString.KeepOnlyIdempotent` | src/components/FullWidthListingCard.tsx:192 | deleting twice is deleting once |
| `JsString.ReplaceRuns` | src/lib/utils.ts:40-41 | a `/X+/g` replacement is empty iff the input is empty; a leading character outside the class is kept and a leading run becomes the replacement |
| `JsString.ReplaceRunsAlphabet` | src/lib/utils.ts:40-41 | the result holds only the replacement character and characters of the input outside the class |
| `JsString.ReplaceRunsAppend` | src/lib/utils.ts:40-41 | text split after a character outside the class is replaced piece by piece |
| `JsString.ReplaceRunsKeep` | src/lib/utils.ts:40-41 | a character outside the class stays in its place, with the text on either side replaced separately |
| `JsString.ReplaceRunsRun` | src/lib/utils.ts:40-41 | a maximal run of any length becomes exactly one replacement character |
| `JsString.ReplaceRunsBetween` | src/lib/utils.ts:40 | two class-free pieces around a run become the pieces joined by one replacement character (`"a b"` gives `"a-b"`) |
| `JsString.ReplaceRunsNoAdjacent` | src/lib/utils.ts:41 | when the replacement is in the class, no two class characters stand next to each other afterwards |
| `JsString.ReplaceRunsLast` | src/lib/utils.ts:40 | input ending inside a run gives output ending with the replacement |
| `JsString.ReplaceRunsFixed` | src/lib/utils.ts:40-41 | run replacement is the identity on text whose class characters are all the replacement and never adjacent |
| `JsString.UpperChar` | src/lib/utils.ts:49 | an ASCII lower-case letter becomes its capital; every other character is kept (see "## Left out") |
| `JsString.TrimStart` | src/lib/utils.ts:42 | `trimStart` drops a leading run of whitespace and nothing else: the result is a suffix of the input that does not start with whitespace |
| `JsString.TrimEnd` | src/lib/utils.ts:42 | `trimEnd` drops a trailing run of whitespace and nothing else: the result is a prefix of the input that does not end with whitespace |
| `JsString.Trim` | src/lib/utils.ts:42 | `trim` leaves no whitespace at either end |
| `JsString.TrimWithoutWhitespace` | src/lib/utils.ts:42 | `trim` is the identity on text without whitespace |
| `JsString.Split` | src/lib/utils.ts:48 | `split('-')` yields at least one part and no part contains `-` |
| `JsString.JoinSplit` | src/lib/utils.ts:48 | joining the parts of `split(sep)` with `sep` gives the string back |
| `JsString.IndexOf` | src/components/FullWidthListingCard.tsx:194 | the position found is an occurrence with no earlier one; none is found iff there is no occurrence |
| `JsString.Substitute` | src/components/FullWidthListingCard.tsx:194 | no contract of its own; `JsString.SubstituteLiteral` states that a `$`-free replacement is inserted verbatim and `FullWidthListingCard.DollarPatternInTitle` that `$&` inserts the matched text |
| `JsString.SubstituteLiteral` | src/components/FullWidthListingCard.tsx:194 | a replacement without `$` is inserted verbatim |
| `JsString.ReplaceFirst` | src/components/FullWidthListingCard.tsx:194 | `replace` without an occurrence returns the text unchanged |
| `JsString.ReplaceFirstLiteral` | src/components/FullWidthListingCard.tsx:194 | a `$`-free replacement replaces only the first occurrence and keeps the text before and after it verbatim |
| `Slug.Collapsed` | src/lib/utils.ts:38-41 | no contract of its own; `Slug.CollapsedAlphabet` (alphabet), `Slug.LeadingWhitespaceKept` and `Slug.CollapsedEndsWithHyphen` (hyphens at the ends) state its properties |
| `Slug.CollapsedEndsWithHyphen` | src/lib/utils.ts:40-41 | text ending in whitespace collapses to text ending in `-` |
| `Slug.Slugify` | src/lib/utils.ts:36-43 | no contract of its own; `Slug.SlugAlphabet`, `Slug.NoDoubleHyphen`, `Slug.Idempotent`, `Slug.NothingSurvives` and the whitespace lemmas state its properties |
| `Slug.CollapsedAlphabet` | src/lib/utils.ts:38-41 | after the four replacement steps every character is in `[a-z0-9_-]` |
| `Slug.TrimIsNoOp` | src/lib/utils.ts:40-42 | the final `trim` never changes anything |
| `Slug.SlugAlphabet` | src/lib/utils.ts:36-43 | every slug character is a lower-case ASCII letter, a digit, `_` or `-` |
| `Slug.NoDoubleHyphen` | src/lib/utils.ts:41 | no slug contains `--` |
| `Slug.Idempotent` | src/lib/utils.ts:36-43 | `slugify(slugify(x)) == slugify(x)` for every x |
| `Slug.NothingSurvives` | src/lib/utils.ts:39 | text with no word, whitespace or `-` character (and neither U+0130 nor U+212A) gives `""` |
| `Slug.ArabicTextIsDeleted` | src/lib/utils.ts:39 | all-Arabic text gives `""`, because `\w` is ASCII only |
| `Slug.DottedCapitalISurvives` | src/lib/utils.ts:38-39 | `slugify("İ") == "i"`: the lower case of U+0130 contains an ASCII letter |
| `Slug.LeadingWhitespaceKept` | src/lib/utils.ts:40-42 | leading whitespace yields a leading `-` |
| `Slug.TrailingWhitespaceKept` | src/lib/utils.ts:40-42 | trailing whitespace yields a trailing `-` |
| `Icons.IconKey` | src/lib/utils.ts:47-50 | no contract of its own; `Icons.IconKeyIsPascalCase`, `Icons.SingleSegmentKey` and `Icons.TwoSegmentName` state what the key is |
| `Icons.CapitalizeAll` | src/lib/utils.ts:49-50 | no contract of its own; `Icons.IconKeyIsPascalCase` states the concatenation of capitalised segments as a character scan |
| `Icons.Capitalize` | src/lib/utils.ts:49 | a segment keeps its length; its first character is upper-cased and the rest unchanged |
| `Icons.PascalCase` | src/lib/utils.ts:47-50 | the character-by-character reading of the key conversion never emits `-` |
| `Icons.IconKeyIsPascalCase` | src/lib/utils.ts:47-50 | the split/capitalise/join key equals the character scan: every `-` dropped, each segment's first character upper-cased, empty segments contributing nothing; the key has no `-` |
| `Icons.TwoSegmentName` | src/lib/utils.ts:47-52 | `first-second` has the key `First` + `Second` and resolves to that library entry unless the key is "Vehicles" |
| `Icons.GetIcon` | src/lib/utils.ts:45-53 | null iff the name is missing or empty; the Vehicles icon iff the key is "Vehicles"; a library icon only for a key in the library; Hobbies only for a key not in it |
| `Icons.NonEmptyNameHasIcon` | src/lib/utils.ts:51-52 | every non-empty name gets an icon; Hobbies exactly when the key is neither "Vehicles" nor in the library |
| `Icons.SingleSegmentKey` | src/lib/utils.ts:47-50 | a name without `-` has the name capitalised as its key |
| `Icons.VehiclesNameWins` | src/lib/utils.ts:51 | a single-segment name capitalising to "Vehicles" gives the app's Vehicles icon whatever the library holds |
| `Price.NumberLocale` | src/lib/utils.ts:14 | the number locale is "ar-AE" exactly for "ar", otherwise "en-AE" |
| `Price.FormatPrice` | src/lib/utils.ts:13-34 | two parts, the symbol and the formatted number; the symbol comes first iff the locale is not "ar" (the default is "en") |
| `Price.NonArabicLocalesAgree` | src/lib/utils.ts:13-31 | every locale other than "ar" gives the same output as the default |
| `Price.ArabicReversesOrder` | src/lib/utils.ts:21-31 | "ar" gives number then symbol; the default gives symbol then number |
| `Price.PriceLabel` | src/components/FullWidthListingCard.tsx:108 | the label is the currency, a space, then the price text; a string price passes unchanged |
| `Locale.Localized` | src/components/ListingCard.tsx:64-66 | the result is the base or the variant; it differs from the base only for "ar" and a truthy variant; a non-empty base never gives an empty result |
| `Locale.LocalizedOptional` | src/components/FullWidthListingCard.tsx:70 | the optional field is the base or the truthy variant; the variant is used only for "ar"; a truthy base gives a truthy result |
| `Locale.VariantShownIff` | src/components/ListingCard.tsx:65 | a distinct variant is shown iff the locale is "ar" and the variant is non-empty |
| `Locale.NonArabicUsesBase` | src/components/FullWidthListingCard.tsx:67-70 | outside "ar" every field is the base field |
| `Locale.EmptyVariantFallsBack` | src/components/ListingCard.tsx:65-66 | a missing or empty variant falls back to the base in every locale |
| `Carousel.JsRemainder` | src/components/ListingCard.tsx:56 | JavaScript `%`: in `[0, n)` for a non-negative dividend, in `(-n, 0]` for a negative one, and always differs from the dividend by a multiple of `n`; the dividend itself when smaller than `n` in size |
| `Carousel.NextIndex` | src/components/ListingCard.tsx:56 | no contract of its own; `Carousel.NextStep`, `Carousel.NextInRange`, `Carousel.NextTimesAdvances` and `Carousel.NextFromNegative` state its properties |
| `Carousel.PrevIndex` | src/components/ListingCard.tsx:60 | no contract of its own; `Carousel.PrevStep` and `Carousel.NextPrevInverse` state its properties |
| `Carousel.NextStep` | src/components/ListingCard.tsx:55-57 | "next" keeps the index in `[0, n)`, adds one, and wraps `n-1` to 0 |
| `Carousel.PrevStep` | src/components/ListingCard.tsx:59-61 | "previous" keeps the index in `[0, n)`, subtracts one, and wraps 0 to `n-1` |
| `Carousel.NextPrevInverse` | src/components/ListingCard.tsx:55-61 | `prev(next(i)) == i` and `next(prev(i)) == i` |
| `Carousel.NextInRange` | src/components/ListingCard.tsx:56 | on an in-range index, "next" is `(i + 1) mod n` |
| `Carousel.NextTimesAdvances` | src/components/ListingCard.tsx:56 | `k` nexts from `i` give `(i + k) mod n` |
| `Carousel.FullCycle` | src/components/ListingCard.tsx:56 | `n` nexts return to the starting index |
| `Carousel.RecoverFromPastEnd` | src/components/ListingCard.tsx:93 | after an unchecked dot click past the end, either button brings the index back into range |
| `Carousel.NextFromNegative` | src/components/ListingCard.tsx:93 | from a negative index above `-n`, "next" only adds one (truncating `%`), so the index stays out of range until it reaches 0 |
| `Carousel.PhotoAt` | src/components/FullWidthListingCard.tsx:85 | `images[currentPhotoIndex]` is a photo iff the index is in range (it is one of the photos), and `undefined` otherwise |
| `Carousel.PhotoCarousel.constructor` | src/components/ListingCard.tsx:53 | the index starts at 0 |
| `Carousel.PhotoCarousel.Next` | src/components/FullWidthListingCard.tsx:58-60 | the new index is `next` of the old; an in-range index stays in range; an index past the end comes back |
| `Carousel.PhotoCarousel.Prev` | src/components/FullWidthListingCard.tsx:62-64 | the new index is `previous` of the old; an in-range index stays in range; an index past the end comes back |
| `Carousel.PhotoCarousel.Jump` | src/components/FullWidthListingCard.tsx:98 | the index becomes exactly the clicked target, with no range check |
| `Carousel.NextThenPrev` | src/components/ListingCard.tsx:53-61 | a freshly mounted card clicked next then previous is back at photo 0 |
| `ListingCard.Currency` | src/components/ListingCard.tsx:45 | the currency defaults to the dirham symbol only when the prop is missing |
| `ListingCard.DefaultPriceFormatter` | src/components/ListingCard.tsx:50 | a string price is returned as `currency + " " + price`; a number goes through `toLocaleString` |
| `ListingCard.PriceHeading` | src/components/ListingCard.tsx:100 | a given formatter is used as is; otherwise the heading starts with the currency and passes a string price through |
| `ListingCard.Title` | src/components/ListingCard.tsx:64-65 | `title_ar` iff the locale is "ar" and `title_ar` is non-empty, else `title` |
| `ListingCard.Location` | src/components/ListingCard.tsx:66 | `location_ar` iff the locale is "ar" and `location_ar` is non-empty, else `location` |
| `ListingCard.ShownPhoto` | src/components/ListingCard.tsx:73 | the image source is the photo at an in-range index, and the text "undefined" at any other index |
| `ListingCard.NoPhotosShowUndefined` | src/components/ListingCard.tsx:53-73 | a card mounted with no photos renders the source "undefined" |
| `ListingCard.NextClicksShowPhoto` | src/components/ListingCard.tsx:53-73 | on a card with photos, any number of next clicks from mount shows one of the photos |
| `FullWidthListingCard.Title` | src/components/FullWidthListingCard.tsx:67-68 | `title_ar` iff the locale is "ar" and `title_ar` is non-empty, else `title` |
| `FullWidthListingCard.Condition` | src/components/FullWidthListingCard.tsx:70 | `condition_ar` iff the locale is "ar" and `condition_ar` is non-empty, else `condition`, which may be absent |
| `FullWidthListingCard.Address` | src/components/FullWidthListingCard.tsx:69 | no contract of its own; `FullWidthListingCard.AddressIgnoresLocale` states it |
| `FullWidthListingCard.AddressIgnoresLocale` | src/components/FullWidthListingCard.tsx:69 | the address is always `address`, whatever the locale or `address_ar` |
| `FullWidthListingCard.ConditionBadge` | src/components/FullWidthListingCard.tsx:131-135 | the condition badge is shown iff the resolved condition is non-empty |
| `FullWidthListingCard.MileageBadge` | src/components/FullWidthListingCard.tsx:73-75 | a mileage badge exists iff mileage is present and non-zero, and reads `<formatted> <km>` |
| `FullWidthListingCard.NaturalStringValue` | src/components/FullWidthListingCard.tsx:77 | the digits written for a whole number read back as that number |
| `FullWidthListingCard.DecimalString` | src/components/FullWidthListingCard.tsx:77 | a year's decimal string is never empty |
| `FullWidthListingCard.YearBadge` | src/components/FullWidthListingCard.tsx:141-145 | a year badge exists iff a year is present, and reads the year's decimal string (`toString`) |
| `FullWidthListingCard.ZeroMileageHiddenZeroYearShown` | src/components/FullWidthListingCard.tsx:73-77 | mileage 0 has no badge while year 0 shows "0" |
| `FullWidthListingCard.PriceHeading` | src/components/FullWidthListingCard.tsx:107-109 | the heading starts with the currency and a space; a string price follows unchanged |
| `FullWidthListingCard.Actions` | src/components/FullWidthListingCard.tsx:158-207 | each action is rendered iff offered; call and WhatsApp are disabled iff there is no phone number; their tooltip is "call seller" / "message on WhatsApp" with a phone number and the matching "not available" text without one; chat gets the listing and seller ids |
| `FullWidthListingCard.AbsentListOffersAll` | src/components/FullWidthListingCard.tsx:157-158 | without `contact_methods` all three actions are rendered |
| `FullWidthListingCard.EmptyListOffersNone` | src/components/FullWidthListingCard.tsx:158 | an empty `contact_methods` list renders no action |
| `FullWidthListingCard.ChatIgnoresPhone` | src/components/FullWidthListingCard.tsx:176-182 | the chat action does not depend on `phone_number` |
| `FullWidthListingCard.CallClick` | src/components/FullWidthListingCard.tsx:163-167 | clicking call does nothing iff there is no phone number, and otherwise navigates to `tel:` + the number |
| `FullWidthListingCard.WhatsAppNumber` | src/components/FullWidthListingCard.tsx:192 | the sanitised number holds only digits and `+` and is no longer than the input |
| `FullWidthListingCard.WhatsAppNumberAppend` | src/components/FullWidthListingCard.tsx:192 | sanitising works piece by piece, and per character: a digit or `+` is kept in its place, every other character vanishes |
| `FullWidthListingCard.WhatsAppNumberIdempotent` | src/components/FullWidthListingCard.tsx:192 | sanitising is idempotent and leaves a number alone iff it is already clean |
| `FullWidthListingCard.WhatsAppMessage` | src/components/FullWidthListingCard.tsx:194 | a template without the placeholder is unchanged |
| `FullWidthListingCard.WhatsAppMessageFillsFirst` | src/components/FullWidthListingCard.tsx:194 | a `$`-free title replaces only the first `{listingTitle}` |
| `FullWidthListingCard.DollarPatternInTitle` | src/components/FullWidthListingCard.tsx:194 | the title "A$&" makes the message "A{listingTitle}" |
| `FullWidthListingCard.WhatsAppClick` | src/components/FullWidthListingCard.tsx:189-198 | clicking WhatsApp does nothing iff there is no phone number; otherwise it opens the wa.me URL for the sanitised number and encoded message in a new tab |
| `FullWidthListingCard.EnabledIffClickActs` | src/components/FullWidthListingCard.tsx:163-199 | a rendered call or WhatsApp button acts on click exactly when it is enabled |

## Left out

- Markup, Tailwind classes, `cn` (src/lib/utils.ts:9-11) and the icon SVGs: presentation only.
- `Intl.NumberFormat`, `toLocaleString` and `encodeURIComponent`: locale data and encoding
  tables. They are function parameters with no properties assumed.
- `formatDistance(new Date(...), new Date())`: it depends on the wall clock.
- `window.location.href` and `window.open`: the model returns the effect as a value instead.
- `useTranslation`, `getLocalizedPath`, `ImageNavigation`, `StartChat`, `LikeButton` and the
  icon library: their source is not part of this model. Translations such as
  `t.listings.whatsappMessage` are parameters, and the icon library is a map.
- React's state updater and batching: each click is one sequential method call.
- A photo list that changes length between renders is covered only because every carousel
  method takes the length at the time of the click.
- `Carousel.JsRemainder`: does not model JavaScript numbers as doubles. Indices are exact
  integers, with no precision loss above 2^53 and no NaN.
- `JsString.LowerChar`: full Unicode lower-casing is not modelled. Non-ASCII characters
  other than U+0130 and U+212A are kept as they are. Their real lower case is non-ASCII and
  not whitespace, so the `slugify` filter deletes it either way.
- `JsString.UpperChar`: upper-cases ASCII letters only and keeps every other character.
  JavaScript's `toUpperCase` also upper-cases non-ASCII letters ("é" to "É") and has mappings
  that yield ASCII letters, among them U+0131 to "I", U+017F to "S", "ß" to "SS", the
  ligatures U+FB00-U+FB06 to "FF", "FI", "FL", "FFI", "FFL", "ST", "ST", U+0149 to U+02BC "N"
  and U+01F0 to "J" U+030C, and U+1E96-U+1E9A to "H", "T", "W", "Y" or "A" followed by a mark.
  A segment starting with one of these gets a different key in the model (the model keys
  "ſquare" as "ſquare", JavaScript as "Square"), and a one-to-many mapping also changes the
  key's length.
- `Price.FormatPrice`, `Price.PriceLabel`: amounts are Dafny `real`s, so NaN, the
  infinities and `-0` of JavaScript numbers are not modelled.
- Strings are sequences of Unicode scalar values, not UTF-16 code units, so `charAt(0)` of
  an astral character is not split into surrogates.
- `FullWidthListingCard.DecimalString`: models whole years only. A fractional or
  non-finite `year` is not modelled.
- `FullWidthListingCard.MileageBadge`: NaN mileage (falsy in JavaScript) is not modelled.
- The `Directions` enum and `CURRENCY.CODE`, `CURRENCY.NAME_EN` and `CURRENCY.NAME_AR` of
  src/constants/enums.ts: the core does not use them.
