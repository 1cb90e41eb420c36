/**
 * Locale-dependent choice of a listing field, as both listing cards write it:
 * `isArabic && field_ar ? field_ar : field`. The Arabic variant wins only when the locale
 * is exactly "ar" and the variant is truthy, that is present and non-empty.
 */
module Locale {
  import opened Wrappers
  import opened Enums

  /** `locale === Languages.ARABIC` (a string comparison: "ar-AE" is not Arabic here). */
  predicate IsArabic(locale: string) {
    locale == Arabic.Code()
  }

  /** JavaScript truthiness of an optional string: present and not empty. */
  predicate Truthy(s: Option<string>) {
    s.Some? && s.value != ""
  }

  /** A required field with an optional Arabic variant. */
  function Localized(locale: string, base: string, variant: Option<string>): (r: string)
    ensures r == base || (variant.Some? && r == variant.value)
    ensures r != base ==> IsArabic(locale) && Truthy(variant)
    ensures base != "" ==> r != ""
  {
    if IsArabic(locale) && Truthy(variant) then variant.value else base
  }

  /** An optional field with an optional Arabic variant; the result may be absent. */
  function LocalizedOptional(locale: string, base: Option<string>, variant: Option<string>): (r: Option<string>)
    ensures r == base || (Truthy(variant) && r == variant)
    ensures r != base ==> IsArabic(locale)
    ensures Truthy(base) ==> Truthy(r)
  {
    if IsArabic(locale) && Truthy(variant) then variant else base
  }

  /** The variant is shown exactly when the locale is Arabic and the variant is non-empty. */
  lemma VariantShownIff(locale: string, base: string, variant: string)
    requires variant != base
    ensures Localized(locale, base, Some(variant)) == variant <==> IsArabic(locale) && variant != ""
  {
  }

  /** Outside the Arabic locale, every field is the base field. */
  lemma NonArabicUsesBase(locale: string, base: string, variant: Option<string>, optBase: Option<string>)
    requires !IsArabic(locale)
    ensures Localized(locale, base, variant) == base
    ensures LocalizedOptional(locale, optBase, variant) == optBase
  {
  }

  /** An empty or missing Arabic variant falls back to the base field, whatever the locale. */
  lemma EmptyVariantFallsBack(locale: string, base: string, optBase: Option<string>)
    ensures Localized(locale, base, Some("")) == base && Localized(locale, base, None) == base
    ensures LocalizedOptional(locale, optBase, Some("")) == optBase
    ensures LocalizedOptional(locale, optBase, None) == optBase
  {
  }
}
