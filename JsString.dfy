/**
 * The JavaScript string built-ins the listing code relies on, over `string` (a sequence of
 * Unicode scalar values): the regular-expression classes `\s`, `\w` and `\d`, `toLowerCase`,
 * `toUpperCase` of one character, `trim`, `split` on one character, `indexOf`,
 * `replace(string, string)` with its `$` substitution patterns, and the two global regex
 * replacements the code uses (delete every character outside a class, and collapse every
 * run of a class into one character).
 */
module JsString {
  import opened Wrappers

  /** JavaScript's WhiteSpace and LineTerminator code points: what `\s` matches and `trim` removes. */
  predicate IsWhitespace(c: char) {
    || c == '\t' || c == '\n' || c == '\U{B}' || c == '\U{C}' || c == '\r' || c == ' '
    || c == '\U{A0}' || c == '\U{1680}' || ('\U{2000}' <= c <= '\U{200A}')
    || c == '\U{2028}' || c == '\U{2029}' || c == '\U{202F}' || c == '\U{205F}'
    || c == '\U{3000}' || c == '\U{FEFF}'
  }

  predicate IsAsciiUpper(c: char) { 'A' <= c <= 'Z' }
  predicate IsAsciiLower(c: char) { 'a' <= c <= 'z' }

  /** `\d` without the `u` flag: ASCII digits only. */
  predicate IsAsciiDigit(c: char) { '0' <= c <= '9' }

  /** `\w` without the `u` flag: `[A-Za-z0-9_]`, so letters of other scripts are not word characters. */
  predicate IsWordChar(c: char) { IsAsciiUpper(c) || IsAsciiLower(c) || IsAsciiDigit(c) || c == '_' }

  /**
   * `toLowerCase` of one character. ASCII letters are mapped; so are the only two
   * non-ASCII characters whose lower case contains ASCII letters (U+0130 lowers to
   * "i" followed by U+0307, U+212A KELVIN SIGN lowers to "k"). Every other character is
   * kept as it is: no other character's lower case is ASCII or whitespace.
   */
  function LowerChar(c: char): (r: string)
    ensures |r| >= 1
    ensures forall k :: 0 <= k < |r| ==> !IsAsciiUpper(r[k])
    ensures IsAsciiUpper(c) ==> r == [(c as int + 32) as char] && IsAsciiLower(r[0])
    ensures c == '\U{130}' ==> r == ['i', '\U{307}']
    ensures c == '\U{212A}' ==> r == ['k']
    ensures !IsAsciiUpper(c) && c != '\U{130}' && c != '\U{212A}' ==> r == [c]
  {
    if IsAsciiUpper(c) then [(c as int + 32) as char]
    else if c == '\U{130}' then ['i', '\U{307}']
    else if c == '\U{212A}' then ['k']
    else [c]
  }

  /** `s.toLowerCase()`, character by character. */
  function ToLowerCase(s: string): (r: string)
    ensures forall k :: 0 <= k < |r| ==> !IsAsciiUpper(r[k])
  {
    if s == [] then [] else LowerChar(s[0]) + ToLowerCase(s[1..])
  }

  /**
   * Away from U+0130, lower-casing maps each character to exactly one character: the length
   * is kept, and every character becomes its own lower case.
   */
  lemma {:induction false} ToLowerCasePerChar(s: string)
    requires forall k :: 0 <= k < |s| ==> s[k] != '\U{130}'
    ensures |ToLowerCase(s)| == |s|
    ensures forall k :: 0 <= k < |s| ==> [ToLowerCase(s)[k]] == LowerChar(s[k])
  {
    if s != [] {
      ToLowerCasePerChar(s[1..]);
      var head, tail := LowerChar(s[0]), ToLowerCase(s[1..]);
      assert |head| == 1;
      assert ToLowerCase(s) == head + tail;
      forall k | 0 <= k < |s|
        ensures [ToLowerCase(s)[k]] == LowerChar(s[k])
      {
        if k > 0 {
          assert ToLowerCase(s)[k] == tail[k - 1];
          assert s[k] == s[1..][k - 1];
        }
      }
    }
  }

  /** Lower-casing leaves a string alone when nothing in it has a different lower case. */
  lemma {:induction false} ToLowerCaseFixed(s: string)
    requires forall k :: 0 <= k < |s| ==> !IsAsciiUpper(s[k]) && s[k] != '\U{130}' && s[k] != '\U{212A}'
    ensures ToLowerCase(s) == s
  {
    if s != [] {
      ToLowerCaseFixed(s[1..]);
    }
  }

  /** Lower-casing works piece by piece. */
  lemma {:induction false} ToLowerCaseAppend(a: string, b: string)
    ensures ToLowerCase(a + b) == ToLowerCase(a) + ToLowerCase(b)
  {
    if a == [] {
      assert a + b == b;
    } else {
      assert (a + b)[1..] == a[1..] + b;
      ToLowerCaseAppend(a[1..], b);
    }
  }

  /** A final character that lower-cases to itself stays last. */
  lemma {:induction false} ToLowerCaseLast(s: string)
    requires s != []
    requires !IsAsciiUpper(s[|s| - 1]) && s[|s| - 1] != '\U{130}' && s[|s| - 1] != '\U{212A}'
    ensures var r := ToLowerCase(s); r != [] && r[|r| - 1] == s[|s| - 1]
  {
    var init, last := s[..|s| - 1], s[|s| - 1];
    assert s == init + [last];
    ToLowerCaseAppend(init, [last]);
    assert ToLowerCase([last]) == LowerChar(last) + ToLowerCase([]);
  }

  /** `toUpperCase` of one character, modelled on ASCII letters only; every other character is kept. */
  function UpperChar(c: char): (r: char)
    ensures IsAsciiLower(c) ==> IsAsciiUpper(r) && r as int == c as int - 32
    ensures !IsAsciiLower(c) ==> r == c
  {
    if IsAsciiLower(c) then (c as int - 32) as char else c
  }

  /** `s.replace(/[^<class>]/g, '')`: the characters of `s` that `keep` accepts, in order. */
  function KeepOnly(s: string, keep: char -> bool): (r: string)
    ensures |r| <= |s|
    ensures forall k :: 0 <= k < |r| ==> keep(r[k])
  {
    if s == [] then []
    else if keep(s[0]) then [s[0]] + KeepOnly(s[1..], keep)
    else KeepOnly(s[1..], keep)
  }

  /** Every character the filter keeps comes from the input. */
  lemma {:induction false} KeepOnlySubset(s: string, keep: char -> bool)
    ensures forall c :: c in KeepOnly(s, keep) ==> c in s
  {
    if s != [] {
      KeepOnlySubset(s[1..], keep);
    }
  }

  /** Filtering is a homomorphism: it works on each part of a concatenation separately. */
  lemma {:induction false} KeepOnlyAppend(a: string, b: string, keep: char -> bool)
    ensures KeepOnly(a + b, keep) == KeepOnly(a, keep) + KeepOnly(b, keep)
  {
    if a != [] {
      assert (a + b)[1..] == a[1..] + b;
      KeepOnlyAppend(a[1..], b, keep);
    } else {
      assert a + b == b;
    }
  }

  /** A final character that passes the filter stays last. */
  lemma KeepOnlyLast(s: string, keep: char -> bool)
    requires s != [] && keep(s[|s| - 1])
    ensures var r := KeepOnly(s, keep); r != [] && r[|r| - 1] == s[|s| - 1]
  {
    var init, last := s[..|s| - 1], s[|s| - 1];
    assert s == init + [last];
    KeepOnlyAppend(init, [last], keep);
    assert KeepOnly([last], keep) == [last] + KeepOnly([], keep);
  }

  /** A string is left unchanged by the filter exactly when every character passes it. */
  lemma {:induction false} KeepOnlyFixedIff(s: string, keep: char -> bool)
    ensures KeepOnly(s, keep) == s <==> forall k :: 0 <= k < |s| ==> keep(s[k])
  {
    if s != [] {
      KeepOnlyFixedIff(s[1..], keep);
      if !keep(s[0]) {
        assert |KeepOnly(s, keep)| < |s|;
      }
    }
  }

  /** Filtering twice is filtering once. */
  lemma KeepOnlyIdempotent(s: string, keep: char -> bool)
    ensures KeepOnly(KeepOnly(s, keep), keep) == KeepOnly(s, keep)
  {
    var r := KeepOnly(s, keep);
    forall k | 0 <= k < |r| ensures keep(r[k]) {
      assert r[k] in r;
    }
    KeepOnlyFixedIff(r, keep);
  }

  /** The suffix of `s` after its leading run of `inRun` characters. */
  function DropRun(s: string, inRun: char -> bool): (r: string)
    ensures |r| <= |s| && r == s[|s| - |r|..]
    ensures r == [] || !inRun(r[0])
    ensures forall k :: 0 <= k < |s| - |r| ==> inRun(s[k])
  {
    if s != [] && inRun(s[0]) then DropRun(s[1..], inRun) else s
  }

  /**
   * `s.replace(/<class>+/g, by)`: every maximal run of `inRun` characters becomes one `mark`;
   * every other character is kept.
   */
  function ReplaceRuns(s: string, inRun: char -> bool, mark: char): (r: string)
    ensures s == [] <==> r == []
    ensures s != [] && !inRun(s[0]) ==> r[0] == s[0]
    ensures s != [] && inRun(s[0]) ==> r[0] == mark
    decreases |s|
  {
    if s == [] then []
    else if inRun(s[0]) then
      [mark] + ReplaceRuns(DropRun(s[1..], inRun), inRun, mark)
    else
      [s[0]] + ReplaceRuns(s[1..], inRun, mark)
  }

  /** The result holds only `mark` and characters of the input outside the class. */
  lemma {:induction false} ReplaceRunsAlphabet(s: string, inRun: char -> bool, mark: char)
    ensures forall c :: c in ReplaceRuns(s, inRun, mark) ==> c == mark || (c in s && !inRun(c))
    decreases |s|
  {
    if s != [] {
      if inRun(s[0]) {
        var rest := DropRun(s[1..], inRun);
        ReplaceRunsAlphabet(rest, inRun, mark);
        assert forall c :: c in rest ==> c in s;
      } else {
        ReplaceRunsAlphabet(s[1..], inRun, mark);
      }
    }
  }

  /** A run cannot reach past a character outside the class, so text after one is untouched. */
  lemma {:induction false} DropRunAppend(a: string, b: string, inRun: char -> bool)
    requires a != [] && !inRun(a[|a| - 1])
    ensures DropRun(a + b, inRun) == DropRun(a, inRun) + b
  {
    if inRun(a[0]) {
      assert (a + b)[1..] == a[1..] + b;
      DropRunAppend(a[1..], b, inRun);
    }
  }

  /** A run followed by text that starts outside the class is dropped entirely. */
  lemma {:induction false} DropRunPrefix(run: string, rest: string, inRun: char -> bool)
    requires forall k :: 0 <= k < |run| ==> inRun(run[k])
    requires rest == [] || !inRun(rest[0])
    ensures DropRun(run + rest, inRun) == rest
  {
    if run == [] {
      assert run + rest == rest;
    } else {
      assert (run + rest)[1..] == run[1..] + rest;
      DropRunPrefix(run[1..], rest, inRun);
    }
  }

  /** One step of `ReplaceRuns` on a leading class character. */
  lemma ReplaceRunsConsRun(x: char, t: string, inRun: char -> bool, mark: char)
    requires inRun(x)
    ensures ReplaceRuns([x] + t, inRun, mark) == [mark] + ReplaceRuns(DropRun(t, inRun), inRun, mark)
  {
    assert ([x] + t)[1..] == t;
  }

  /** One step of `ReplaceRuns` on a leading character outside the class. */
  lemma ReplaceRunsConsKept(x: char, t: string, inRun: char -> bool, mark: char)
    requires !inRun(x)
    ensures ReplaceRuns([x] + t, inRun, mark) == [x] + ReplaceRuns(t, inRun, mark)
  {
    assert ([x] + t)[1..] == t;
  }

  /**
   * Replacing runs works piece by piece across a boundary no run straddles: after a
   * character outside the class.
   */
  lemma {:induction false} ReplaceRunsAppend(a: string, b: string, inRun: char -> bool, mark: char)
    requires a == [] || !inRun(a[|a| - 1])
    ensures ReplaceRuns(a + b, inRun, mark) == ReplaceRuns(a, inRun, mark) + ReplaceRuns(b, inRun, mark)
    decreases |a|
  {
    if a == [] {
      assert a + b == b;
    } else {
      var x, m := a[0], a[1..];
      assert a == [x] + m;
      assert a + b == [x] + (m + b);
      if inRun(x) {
        var rest := DropRun(m, inRun);
        DropRunAppend(m, b, inRun);
        ReplaceRunsAppend(rest, b, inRun, mark);
        ReplaceRunsConsRun(x, m + b, inRun, mark);
        ReplaceRunsConsRun(x, m, inRun, mark);
        AppendAssoc([mark], ReplaceRuns(rest, inRun, mark), ReplaceRuns(b, inRun, mark));
      } else {
        ReplaceRunsAppend(m, b, inRun, mark);
        ReplaceRunsConsKept(x, m + b, inRun, mark);
        ReplaceRunsConsKept(x, m, inRun, mark);
        AppendAssoc([x], ReplaceRuns(m, inRun, mark), ReplaceRuns(b, inRun, mark));
      }
    }
  }

  /** A character outside the class is kept in place, with the text on either side replaced separately. */
  lemma ReplaceRunsKeep(a: string, c: char, b: string, inRun: char -> bool, mark: char)
    requires !inRun(c) && (a == [] || !inRun(a[|a| - 1]))
    ensures ReplaceRuns(a + [c] + b, inRun, mark) == ReplaceRuns(a, inRun, mark) + [c] + ReplaceRuns(b, inRun, mark)
  {
    var left := a + [c];
    ReplaceRunsAppend(left, b, inRun, mark);
    ReplaceRunsAppend(a, [c], inRun, mark);
    assert ReplaceRuns([c], inRun, mark) == [c];
  }

  /** A maximal run, however long, becomes exactly one `mark`. */
  lemma ReplaceRunsRun(run: string, rest: string, inRun: char -> bool, mark: char)
    requires run != [] && forall k :: 0 <= k < |run| ==> inRun(run[k])
    requires rest == [] || !inRun(rest[0])
    ensures ReplaceRuns(run + rest, inRun, mark) == [mark] + ReplaceRuns(rest, inRun, mark)
  {
    assert (run + rest)[0] == run[0];
    assert (run + rest)[1..] == run[1..] + rest;
    DropRunPrefix(run[1..], rest, inRun);
  }

  /** Two pieces free of class characters around a run: the run becomes one `mark` between them. */
  lemma ReplaceRunsBetween(w1: string, run: string, w2: string, inRun: char -> bool, mark: char)
    requires forall k :: 0 <= k < |w1| ==> !inRun(w1[k])
    requires forall k :: 0 <= k < |w2| ==> !inRun(w2[k])
    requires run != [] && forall k :: 0 <= k < |run| ==> inRun(run[k])
    ensures ReplaceRuns(w1 + run + w2, inRun, mark) == w1 + [mark] + w2
  {
    AppendAssoc(w1, run, w2);
    ReplaceRunsAppend(w1, run + w2, inRun, mark);
    ReplaceRunsRun(run, w2, inRun, mark);
    ReplaceRunsClassFree(w1, inRun, mark);
    ReplaceRunsClassFree(w2, inRun, mark);
    AppendAssoc(w1, [mark], w2);
  }

  lemma AppendAssoc<T>(s: seq<T>, t: seq<T>, u: seq<T>)
    ensures s + t + u == s + (t + u)
  {
  }

  /** Text without class characters is left as it is. */
  lemma ReplaceRunsClassFree(w: string, inRun: char -> bool, mark: char)
    requires forall k :: 0 <= k < |w| ==> !inRun(w[k])
    ensures ReplaceRuns(w, inRun, mark) == w
  {
    ReplaceRunsFixed(w, inRun, mark);
  }

  /** No two neighbouring characters of `s` both belong to the class. */
  predicate NoAdjacent(s: string, inRun: char -> bool) {
    forall k :: 0 <= k < |s| - 1 ==> !(inRun(s[k]) && inRun(s[k + 1]))
  }

  /** Prepending one character keeps `NoAdjacent` when it or the old first character is outside the class. */
  lemma NoAdjacentCons(c: char, s: string, inRun: char -> bool)
    requires NoAdjacent(s, inRun)
    requires !inRun(c) || s == [] || !inRun(s[0])
    ensures NoAdjacent([c] + s, inRun)
  {
    var r := [c] + s;
    forall k | 1 <= k < |r| - 1 ensures !(inRun(r[k]) && inRun(r[k + 1])) {
      assert r[k] == s[k - 1] && r[k + 1] == s[k];
    }
  }

  /** When the replacement itself belongs to the class, the result has no two adjacent class characters. */
  lemma {:induction false} ReplaceRunsNoAdjacent(s: string, inRun: char -> bool, mark: char)
    requires inRun(mark)
    ensures NoAdjacent(ReplaceRuns(s, inRun, mark), inRun)
  {
    if s != [] {
      if inRun(s[0]) {
        var rest := DropRun(s[1..], inRun);
        ReplaceRunsNoAdjacent(rest, inRun, mark);
        NoAdjacentCons(mark, ReplaceRuns(rest, inRun, mark), inRun);
      } else {
        ReplaceRunsNoAdjacent(s[1..], inRun, mark);
        NoAdjacentCons(s[0], ReplaceRuns(s[1..], inRun, mark), inRun);
      }
    }
  }

  /** A string that ends inside a run ends with the run's replacement. */
  lemma {:induction false} ReplaceRunsLast(s: string, inRun: char -> bool, mark: char)
    requires s != [] && inRun(s[|s| - 1])
    ensures var r := ReplaceRuns(s, inRun, mark); r != [] && r[|r| - 1] == mark
  {
    if inRun(s[0]) {
      var rest := DropRun(s[1..], inRun);
      if rest != [] {
        assert rest[|rest| - 1] == s[|s| - 1];
        ReplaceRunsLast(rest, inRun, mark);
      }
    } else {
      ReplaceRunsLast(s[1..], inRun, mark);
    }
  }

  /**
   * Replacing runs changes nothing in a string whose class characters are all `mark` already
   * and never stand next to each other.
   */
  lemma {:induction false} ReplaceRunsFixed(s: string, inRun: char -> bool, mark: char)
    requires forall k :: 0 <= k < |s| && inRun(s[k]) ==> s[k] == mark
    requires NoAdjacent(s, inRun)
    ensures ReplaceRuns(s, inRun, mark) == s
  {
    if s != [] {
      if inRun(s[0]) {
        assert DropRun(s[1..], inRun) == s[1..];
      }
      ReplaceRunsFixed(s[1..], inRun, mark);
    }
  }

  /** `s.trimStart()`. */
  function TrimStart(s: string): (r: string)
    ensures |r| <= |s| && r == s[|s| - |r|..]
    ensures r == [] || !IsWhitespace(r[0])
    ensures forall k :: 0 <= k < |s| - |r| ==> IsWhitespace(s[k])
  {
    DropRun(s, IsWhitespace)
  }

  /** `s.trimEnd()`. */
  function TrimEnd(s: string): (r: string)
    ensures |r| <= |s| && r == s[..|r|]
    ensures r == [] || !IsWhitespace(r[|r| - 1])
    ensures forall k :: |r| <= k < |s| ==> IsWhitespace(s[k])
  {
    if s != [] && IsWhitespace(s[|s| - 1]) then TrimEnd(s[..|s| - 1]) else s
  }

  /** `s.trim()`: whitespace removed from both ends and nowhere else. */
  function Trim(s: string): (r: string)
    ensures r == [] || (!IsWhitespace(r[0]) && !IsWhitespace(r[|r| - 1]))
  {
    TrimEnd(TrimStart(s))
  }

  /** `trim` is the identity on a string without whitespace. */
  lemma TrimWithoutWhitespace(s: string)
    requires forall k :: 0 <= k < |s| ==> !IsWhitespace(s[k])
    ensures Trim(s) == s
  {
    assert TrimStart(s) == s;
  }

  /** `s.split(sep)` for a one-character separator; `"".split(sep)` is `[""]`. */
  function Split(s: string, sep: char): (parts: seq<string>)
    ensures |parts| >= 1
    ensures forall k :: 0 <= k < |parts| ==> sep !in parts[k]
  {
    if s == [] then [""]
    else
      var rest := Split(s[1..], sep);
      if s[0] == sep then [""] + rest
      else [[s[0]] + rest[0]] + rest[1..]
  }

  /** `parts.join(sep)`. */
  function Join(parts: seq<string>, sep: char): string
    requires |parts| >= 1
  {
    if |parts| == 1 then parts[0] else parts[0] + [sep] + Join(parts[1..], sep)
  }

  /** Splitting and joining on the same separator gives the string back. */
  lemma {:induction false} JoinSplit(s: string, sep: char)
    ensures Join(Split(s, sep), sep) == s
  {
    if s != [] {
      var rest := Split(s[1..], sep);
      JoinSplit(s[1..], sep);
      if s[0] == sep {
        assert Split(s, sep) == [""] + rest;
        assert ([""] + rest)[1..] == rest;
      } else {
        var parts := Split(s, sep);
        assert parts == [[s[0]] + rest[0]] + rest[1..];
        if |rest| > 1 {
          assert parts[1..] == rest[1..];
          assert Join(rest, sep) == rest[0] + [sep] + Join(rest[1..], sep);
        }
      }
    }
  }

  /** `pat` occurs in `s` at position `at`. */
  predicate OccursAt(s: string, pat: string, at: int) {
    0 <= at && at + |pat| <= |s| && s[at..at + |pat|] == pat
  }

  /** `s.indexOf(pat, from)`: the first occurrence at or after `from`. */
  function IndexOfFrom(s: string, pat: string, from: nat): (r: Option<nat>)
    ensures r.Some? ==> from <= r.value && OccursAt(s, pat, r.value)
    ensures r.Some? ==> forall j :: from <= j < r.value ==> !OccursAt(s, pat, j)
    ensures r.None? ==> forall j :: from <= j ==> !OccursAt(s, pat, j)
    decreases |s| - from
  {
    if from + |pat| > |s| then None
    else if s[from..from + |pat|] == pat then Some(from)
    else IndexOfFrom(s, pat, from + 1)
  }

  /** `s.indexOf(pat)`: the earliest position at which `pat` occurs, if any. */
  function IndexOf(s: string, pat: string): (r: Option<nat>)
    ensures r.Some? ==> OccursAt(s, pat, r.value) && forall j :: 0 <= j < r.value ==> !OccursAt(s, pat, j)
    ensures r.None? <==> forall j :: !OccursAt(s, pat, j)
  {
    IndexOfFrom(s, pat, 0)
  }

  /**
   * GetSubstitution (ECMAScript section 22.1.3.19.1) for a string pattern, which has no
   * capture groups: `$$` gives `$`, `$&` the matched text, `` $` `` the text before the
   * match, `$'` the text after it; every other `$` (including `$1` and `$<`) is literal.
   */
  function Substitute(replacement: string, matched: string, before: string, after: string): string
  {
    if replacement == [] then []
    else if replacement[0] == '$' && |replacement| >= 2 && replacement[1] in "$&`'" then
      var expansion :=
        if replacement[1] == '$' then "$"
        else if replacement[1] == '&' then matched
        else if replacement[1] == '`' then before
        else after;
      expansion + Substitute(replacement[2..], matched, before, after)
    else [replacement[0]] + Substitute(replacement[1..], matched, before, after)
  }

  /** A replacement without `$` is inserted literally. */
  lemma {:induction false} SubstituteLiteral(replacement: string, matched: string, before: string, after: string)
    requires '$' !in replacement
    ensures Substitute(replacement, matched, before, after) == replacement
  {
    if replacement != [] {
      assert replacement[1..] == replacement[1..];
      assert '$' !in replacement[1..];
      SubstituteLiteral(replacement[1..], matched, before, after);
    }
  }

  /**
   * `s.replace(pat, replacement)` with a string pattern: only the FIRST occurrence of `pat`
   * is replaced, by the expanded replacement; without an occurrence `s` is returned.
   */
  function ReplaceFirst(s: string, pat: string, replacement: string): (r: string)
    ensures (forall j :: !OccursAt(s, pat, j)) ==> r == s
  {
    match IndexOf(s, pat)
    case None => s
    case Some(at) =>
      s[..at] + Substitute(replacement, pat, s[..at], s[at + |pat|..]) + s[at + |pat|..]
  }

  /**
   * With a `$`-free replacement, `replace` cuts `s` at the first occurrence of `pat`: the text
   * before it (which holds no occurrence) and everything after it are kept verbatim, so later
   * occurrences survive.
   */
  lemma ReplaceFirstLiteral(s: string, pat: string, replacement: string, at: nat)
    requires '$' !in replacement
    requires OccursAt(s, pat, at) && forall j :: 0 <= j < at ==> !OccursAt(s, pat, j)
    ensures ReplaceFirst(s, pat, replacement) == s[..at] + replacement + s[at + |pat|..]
  {
    assert IndexOf(s, pat) == Some(at);
    SubstituteLiteral(replacement, pat, s[..at], s[at + |pat|..]);
  }
}
