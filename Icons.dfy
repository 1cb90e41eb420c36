/**
 * `getIcon` from src/lib/utils.ts: turn a kebab-case category icon name into a PascalCase
 * key, then pick the app's own Vehicles icon for the key "Vehicles", otherwise the icon
 * library's entry for the key, otherwise the Hobbies icon. The icon library is a partial
 * map from key to an icon tag, left abstract.
 */
module Icons {
  import opened Wrappers
  import opened JsString

  /** What `getIcon` can hand back besides `null`. */
  datatype Icon<Tag> = VehiclesIcon | HobbiesIcon | LibraryIcon(tag: Tag)

  /** `word.charAt(0).toUpperCase() + word.slice(1)`; the empty word stays empty. */
  function Capitalize(word: string): (r: string)
    ensures |r| == |word|
    ensures word != [] ==> r[0] == UpperChar(word[0]) && r[1..] == word[1..]
  {
    if word == [] then [] else [UpperChar(word[0])] + word[1..]
  }

  /** `.map(Capitalize).join('')`. */
  function CapitalizeAll(words: seq<string>): string {
    if words == [] then [] else Capitalize(words[0]) + CapitalizeAll(words[1..])
  }

  /** The icon key: `name.split('-').map(Capitalize).join('')`. */
  function IconKey(name: string): string {
    CapitalizeAll(Split(name, '-'))
  }

  /**
   * An independent reading of the same conversion, one character at a time: every `-` is
   * dropped, and a character is upper-cased when it comes first or right after a `-`.
   */
  function PascalCase(s: string, atWordStart: bool): (r: string)
    ensures '-' !in r
  {
    if s == [] then []
    else if s[0] == '-' then PascalCase(s[1..], true)
    else [if atWordStart then UpperChar(s[0]) else s[0]] + PascalCase(s[1..], false)
  }

  lemma {:induction false} IconKeyAsScan(s: string, atWordStart: bool)
    ensures var parts := Split(s, '-');
      PascalCase(s, atWordStart) ==
        if atWordStart then CapitalizeAll(parts) else parts[0] + CapitalizeAll(parts[1..])
  {
    if s != [] {
      var rest := Split(s[1..], '-');
      IconKeyAsScan(s[1..], s[0] == '-');
      if s[0] == '-' {
        assert Split(s, '-') == [""] + rest;
        assert ([""] + rest)[1..] == rest;
      } else {
        var parts := Split(s, '-');
        assert parts == [[s[0]] + rest[0]] + rest[1..];
        assert parts[1..] == rest[1..];
        assert Capitalize([s[0]] + rest[0]) == [UpperChar(s[0])] + rest[0];
        assert CapitalizeAll(rest) == Capitalize(rest[0]) + CapitalizeAll(rest[1..]);
      }
    }
  }

  /** The key is the name with every `-` removed and the first letter of each segment upper-cased. */
  lemma IconKeyIsPascalCase(name: string)
    ensures IconKey(name) == PascalCase(name, true)
    ensures '-' !in IconKey(name)
  {
    IconKeyAsScan(name, true);
  }

  /**
   * `getIcon(iconName)`: `null` for a missing or empty name; otherwise the Vehicles icon
   * for the key "Vehicles", the library's icon when the key is in `library`, and the
   * Hobbies icon for every other key.
   */
  function GetIcon<Tag>(iconName: Option<string>, library: map<string, Tag>): (r: Option<Icon<Tag>>)
    ensures r.None? <==> iconName.None? || iconName.value == ""
    ensures r.Some? ==> (r.value == VehiclesIcon <==> IconKey(iconName.value) == "Vehicles")
    ensures r.Some? && r.value.LibraryIcon? ==>
      IconKey(iconName.value) in library && r.value.tag == library[IconKey(iconName.value)]
    ensures r.Some? && r.value == HobbiesIcon ==> IconKey(iconName.value) !in library
  {
    match iconName
    case None => None
    case Some(name) =>
      if name == "" then None
      else
        var key := IconKey(name);
        if key == "Vehicles" then Some(VehiclesIcon)
        else if key in library then Some(LibraryIcon(library[key]))
        else Some(HobbiesIcon)
  }

  /** Every non-empty name resolves to some icon: the Hobbies fallback means there is no miss. */
  lemma NonEmptyNameHasIcon<Tag>(name: string, library: map<string, Tag>)
    requires name != ""
    ensures GetIcon(Some(name), library).Some?
    ensures GetIcon(Some(name), library).value == HobbiesIcon <==>
      IconKey(name) != "Vehicles" && IconKey(name) !in library
  {
  }

  /** A name without `-` is a single segment: its key is the name capitalised. */
  lemma SingleSegmentKey(w: string)
    requires '-' !in w
    ensures IconKey(w) == Capitalize(w)
  {
    IconKeyIsPascalCase(w);
    PascalCaseWord(w, true);
  }

  /**
   * A single-segment name that capitalises to "Vehicles" (so "vehicles" or "Vehicles") gives
   * the app's own Vehicles icon, whatever the library holds under "Vehicles".
   */
  lemma VehiclesNameWins<Tag>(name: string, library: map<string, Tag>)
    requires '-' !in name && Capitalize(name) == "Vehicles"
    ensures GetIcon(Some(name), library) == Some(VehiclesIcon)
  {
    SingleSegmentKey(name);
  }

  /** A name without `-` is one segment: it is capitalised and nothing else. */
  lemma {:induction false} PascalCaseWord(w: string, atWordStart: bool)
    requires '-' !in w
    ensures PascalCase(w, atWordStart) == if atWordStart then Capitalize(w) else w
  {
    if w != [] {
      PascalCaseWord(w[1..], false);
    }
  }

  /** A leading segment is converted on its own and the rest starts a new segment. */
  lemma {:induction false} PascalCaseSegment(w: string, rest: string, atWordStart: bool)
    requires '-' !in w
    ensures PascalCase(w + "-" + rest, atWordStart) ==
      (if atWordStart then Capitalize(w) else w) + PascalCase(rest, true)
  {
    if w != [] {
      assert (w + "-" + rest)[1..] == w[1..] + "-" + rest;
      PascalCaseSegment(w[1..], rest, false);
    } else {
      assert w + "-" + rest == "-" + rest;
    }
  }

  /** A two-segment kebab name `first-second` has the key `First` + `Second`, and finds that library entry. */
  lemma TwoSegmentName<Tag>(first: string, second: string, library: map<string, Tag>)
    requires first != "" && '-' !in first && '-' !in second
    ensures IconKey(first + "-" + second) == Capitalize(first) + Capitalize(second)
    ensures var key := Capitalize(first) + Capitalize(second);
      key != "Vehicles" && key in library ==>
        GetIcon(Some(first + "-" + second), library) == Some(LibraryIcon(library[key]))
  {
    IconKeyIsPascalCase(first + "-" + second);
    PascalCaseSegment(first, second, true);
    PascalCaseWord(second, true);
  }
}
