/**
 * `slugify` from src/lib/utils.ts: lower-case the text, delete every character that is not
 * a word character, whitespace or `-`, turn each whitespace run into `-`, collapse each run
 * of `-` into one, then `trim`.
 */
module Slug {
  import opened JsString

  predicate IsHyphen(c: char) { c == '-' }

  /** The characters `/[^\w\s-]/g` does not delete. */
  predicate Survives(c: char) { IsWordChar(c) || IsWhitespace(c) || IsHyphen(c) }

  /** The alphabet of every slug: `[a-z0-9_-]`. */
  predicate IsSlugChar(c: char) { IsAsciiLower(c) || IsAsciiDigit(c) || c == '_' || c == '-' }

  /** The four replacement steps, before the final `trim`. */
  function Collapsed(text: string): string {
    var lowered := ToLowerCase(text);
    var stripped := KeepOnly(lowered, Survives);
    var hyphenated := ReplaceRuns(stripped, IsWhitespace, '-');
    ReplaceRuns(hyphenated, IsHyphen, '-')
  }

  function Slugify(text: string): string {
    Trim(Collapsed(text))
  }

  /** Every character left after the replacements is a lower-case ASCII letter, a digit, `_` or `-`. */
  lemma CollapsedAlphabet(text: string)
    ensures forall k :: 0 <= k < |Collapsed(text)| ==> IsSlugChar(Collapsed(text)[k])
  {
    var lowered := ToLowerCase(text);
    var stripped := KeepOnly(lowered, Survives);
    var hyphenated := ReplaceRuns(stripped, IsWhitespace, '-');
    var collapsed := ReplaceRuns(hyphenated, IsHyphen, '-');
    ReplaceRunsAlphabet(stripped, IsWhitespace, '-');
    ReplaceRunsAlphabet(hyphenated, IsHyphen, '-');
    KeepOnlySubset(lowered, Survives);
    forall c | c in stripped ensures Survives(c) && !IsAsciiUpper(c) {
      var k :| 0 <= k < |lowered| && lowered[k] == c;
    }
    forall k | 0 <= k < |collapsed| ensures IsSlugChar(collapsed[k]) {
      assert collapsed[k] in collapsed;
    }
  }

  /** The final `trim` never changes anything: whitespace has already become `-`. */
  lemma TrimIsNoOp(text: string)
    ensures Slugify(text) == Collapsed(text)
  {
    CollapsedAlphabet(text);
    TrimWithoutWhitespace(Collapsed(text));
  }

  /** Slugs use only `[a-z0-9_-]`. */
  lemma SlugAlphabet(text: string)
    ensures forall k :: 0 <= k < |Slugify(text)| ==> IsSlugChar(Slugify(text)[k])
  {
    CollapsedAlphabet(text);
    TrimIsNoOp(text);
  }

  /** No slug contains `--`. */
  lemma NoDoubleHyphen(text: string)
    ensures forall k :: 0 <= k < |Slugify(text)| - 1 ==> !(Slugify(text)[k] == '-' && Slugify(text)[k + 1] == '-')
  {
    TrimIsNoOp(text);
    var hyphenated := ReplaceRuns(KeepOnly(ToLowerCase(text), Survives), IsWhitespace, '-');
    ReplaceRunsNoAdjacent(hyphenated, IsHyphen, '-');
  }

  /** Text over the slug alphabet without `--` is its own slug. */
  lemma SlugFixedPoint(s: string)
    requires forall k :: 0 <= k < |s| ==> IsSlugChar(s[k])
    requires NoAdjacent(s, IsHyphen)
    ensures Slugify(s) == s
  {
    assert ToLowerCase(s) == s by {
      ToLowerCaseFixed(s);
    }
    assert KeepOnly(s, Survives) == s by {
      KeepOnlyFixedIff(s, Survives);
    }
    assert ReplaceRuns(s, IsWhitespace, '-') == s by {
      ReplaceRunsFixed(s, IsWhitespace, '-');
    }
    assert ReplaceRuns(s, IsHyphen, '-') == s by {
      ReplaceRunsFixed(s, IsHyphen, '-');
    }
    assert Collapsed(s) == s;
    TrimIsNoOp(s);
  }

  /** Slugifying a slug gives the same slug. */
  lemma Idempotent(text: string)
    ensures Slugify(Slugify(text)) == Slugify(text)
  {
    var s := Slugify(text);
    SlugAlphabet(text);
    NoDoubleHyphen(text);
    assert NoAdjacent(s, IsHyphen);
    SlugFixedPoint(s);
  }

  /**
   * Text with no character that survives the filter, once lower-cased, gives the empty slug.
   * The two exceptions to "nothing survives" are U+0130 and U+212A, whose lower case is ASCII.
   */
  lemma NothingSurvives(text: string)
    requires forall k :: 0 <= k < |text| ==> !Survives(text[k]) && text[k] != '\U{130}' && text[k] != '\U{212A}'
    ensures Slugify(text) == ""
  {
    NothingSurvivesLowered(text);
    assert KeepOnly(ToLowerCase(text), Survives) == [];
  }

  lemma {:induction false} NothingSurvivesLowered(text: string)
    requires forall k :: 0 <= k < |text| ==> !Survives(text[k]) && text[k] != '\U{130}' && text[k] != '\U{212A}'
    ensures KeepOnly(ToLowerCase(text), Survives) == []
  {
    if text != [] {
      NothingSurvivesLowered(text[1..]);
      assert ToLowerCase(text) == [text[0]] + ToLowerCase(text[1..]);
      assert ([text[0]] + ToLowerCase(text[1..]))[1..] == ToLowerCase(text[1..]);
    }
  }

  /** Whitespace at the start of the text survives as a leading `-`: the final `trim` comes too late to remove it. */
  lemma LeadingWhitespaceKept(text: string)
    requires text != [] && IsWhitespace(text[0])
    ensures Slugify(text) != [] && Slugify(text)[0] == '-'
  {
    var lowered := ToLowerCase(text);
    assert lowered[0] == text[0];
    var stripped := KeepOnly(lowered, Survives);
    assert stripped[0] == text[0];
    TrimIsNoOp(text);
  }

  /** Lower-casing and filtering keep a final whitespace character in last place. */
  lemma FilteredEndsWithWhitespace(text: string)
    requires text != [] && IsWhitespace(text[|text| - 1])
    ensures var stripped := KeepOnly(ToLowerCase(text), Survives);
      stripped != [] && IsWhitespace(stripped[|stripped| - 1])
  {
    var last := text[|text| - 1];
    WhitespaceLowersToItself(last);
    ToLowerCaseLast(text);
    var lowered := ToLowerCase(text);
    assert lowered != [] && lowered[|lowered| - 1] == last;
    KeepOnlyLast(lowered, Survives);
    var stripped := KeepOnly(lowered, Survives);
    assert stripped != [] && stripped[|stripped| - 1] == last;
  }

  lemma WhitespaceLowersToItself(c: char)
    requires IsWhitespace(c)
    ensures !IsAsciiUpper(c) && c != '\U{130}' && c != '\U{212A}' && Survives(c)
  {
  }

  /** A final whitespace run becomes a final `-` in the collapsed text. */
  lemma CollapsedEndsWithHyphen(text: string)
    requires text != [] && IsWhitespace(text[|text| - 1])
    ensures Collapsed(text) != [] && Collapsed(text)[|Collapsed(text)| - 1] == '-'
  {
    FilteredEndsWithWhitespace(text);
    HyphenatedEndsWithHyphen(KeepOnly(ToLowerCase(text), Survives));
    CollapsedSteps(text);
  }

  lemma CollapsedSteps(text: string)
    ensures Collapsed(text) ==
      ReplaceRuns(ReplaceRuns(KeepOnly(ToLowerCase(text), Survives), IsWhitespace, '-'), IsHyphen, '-')
  {
  }

  lemma HyphenatedEndsWithHyphen(stripped: string)
    requires stripped != [] && IsWhitespace(stripped[|stripped| - 1])
    ensures var r := ReplaceRuns(ReplaceRuns(stripped, IsWhitespace, '-'), IsHyphen, '-');
      r != [] && r[|r| - 1] == '-'
  {
    ReplaceRunsLast(stripped, IsWhitespace, '-');
    var hyphenated := ReplaceRuns(stripped, IsWhitespace, '-');
    ReplaceRunsLast(hyphenated, IsHyphen, '-');
  }

  /** Whitespace at the end of the text survives as a trailing `-`. */
  lemma TrailingWhitespaceKept(text: string)
    requires text != [] && IsWhitespace(text[|text| - 1])
    ensures Slugify(text) != [] && Slugify(text)[|Slugify(text)| - 1] == '-'
  {
    CollapsedEndsWithHyphen(text);
    TrimIsNoOp(text);
  }

  /** Arabic letters are not `\w`, so all-Arabic text gives the empty slug. */
  lemma ArabicTextIsDeleted(text: string)
    requires forall k :: 0 <= k < |text| ==> '\U{600}' <= text[k] <= '\U{6FF}'
    ensures Slugify(text) == ""
  {
    forall k | 0 <= k < |text|
      ensures !Survives(text[k]) && text[k] != '\U{130}' && text[k] != '\U{212A}'
    {
      var c := text[k];
      assert c as int < 0x1680;
      assert !IsWordChar(c);
    }
    NothingSurvives(text);
  }

  /** U+0130 lowers to "i" and a combining dot: the dot is deleted, the "i" survives. */
  lemma DottedCapitalISurvives()
    ensures Slugify("\U{130}") == "i"
  {
    DottedCapitalIFiltered();
    ReplaceRunsFixed("i", IsWhitespace, '-');
    ReplaceRunsFixed("i", IsHyphen, '-');
    TrimIsNoOp("\U{130}");
  }

  lemma DottedCapitalIFiltered()
    ensures KeepOnly(ToLowerCase("\U{130}"), Survives) == "i"
  {
    assert ToLowerCase("\U{130}") == "i\U{307}";
    assert KeepOnly("\U{307}", Survives) == "";
  }
}
