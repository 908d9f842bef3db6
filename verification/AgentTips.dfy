/** Tips with inline code: the text between backticks is styled as code. */
module AgentTips {
  import opened Options

  const TICK := '`'
  const PLACEHOLDER := "<keybinding>"

  datatype Fragment = PlainText(text: string) | InlineCode(text: string)

  /** A character and whether it is shown as code. */
  datatype Styled = Styled(c: char, code: bool)

  // ----- the specification, character by character

  /** The number of backticks. */
  function Ticks(text: string): nat {
    if text == "" then 0 else (if text[0] == TICK then 1 else 0) + Ticks(text[1..])
  }

  /** A scan that switches the style at every backtick and shows everything else. */
  function Scan(text: string, code: bool): seq<Styled> {
    if text == "" then []
    else if text[0] == TICK then Scan(text[1..], !code)
    else [Styled(text[0], code)] + Scan(text[1..], code)
  }

  function Tag(text: string, code: bool): seq<Styled> {
    seq(|text|, i requires 0 <= i < |text| => Styled(text[i], code))
  }

  /** What a list of fragments shows. */
  function Shown(fragments: seq<Fragment>): seq<Styled> {
    if fragments == [] then []
    else Tag(fragments[0].text, fragments[0].InlineCode?) + Shown(fragments[1..])
  }

  // ----- the code

  /** `text.split('`')` */
  function Split(text: string): (parts: seq<string>)
    ensures parts != []
  {
    if text == "" then [""]
    else
      var rest := Split(text[1..]);
      if text[0] == TICK then [""] + rest else [[text[0]] + rest[0]] + rest[1..]
  }

  /** The fragments for the parts, the first of which is code or not; empty parts are left out. */
  function Fragments(parts: seq<string>, code: bool): seq<Fragment> {
    if parts == [] then []
    else Piece(parts[0], code) + Fragments(parts[1..], !code)
  }

  /** The fragment of one part, or none if the part is empty. */
  function Piece(part: string, code: bool): seq<Fragment> {
    if part == "" then [] else [if code then InlineCode(part) else PlainText(part)]
  }

  /** One pass of the loop: the fragments so far and those of the remaining parts are all the fragments. */
  lemma NextPart(
    parts: seq<string>, i: nat, code: bool, fragments: seq<Fragment>, next: seq<Fragment>, all: seq<Fragment>)
    requires i < |parts|
    requires fragments + Fragments(parts[i..], code) == all
    requires next == fragments + Piece(parts[i], code)
    ensures next + Fragments(parts[i + 1..], !code) == all
  {
    assert parts[i..][1..] == parts[i + 1..];
    var piece, rest := Piece(parts[i], code), Fragments(parts[i + 1..], !code);
    assert Fragments(parts[i..], code) == piece + rest;
    assert fragments + (piece + rest) == fragments + piece + rest;
  }

  /** The loop shared by both versions of `to_formatted_text`. */
  method FormatText(text: string) returns (fragments: seq<Fragment>)
    ensures forall i :: 0 <= i < |fragments| ==> fragments[i].text != ""
    ensures Shown(fragments) == Scan(text, false)
  {
    var parts := Split(text);
    fragments := [];
    assert [] + Fragments(parts, false) == Fragments(parts, false);
    assert parts[0..] == parts;
    for i := 0 to |parts|
      invariant fragments + Fragments(parts[i..], i % 2 == 1) == Fragments(parts, false)
    {
      ghost var before := fragments;
      if parts[i] != "" {
        fragments := fragments + [if i % 2 == 0 then PlainText(parts[i]) else InlineCode(parts[i])];
      }
      assert fragments == before + Piece(parts[i], i % 2 == 1);
      NextPart(parts, i, i % 2 == 1, before, fragments, Fragments(parts, false));
    }
    assert parts[|parts|..] == [];
    assert fragments + [] == fragments;
    FragmentsShowTheParts(parts, false);
    PartsShowTheText(text, false);
  }

  /** `str::replace` with a non-empty pattern: occurrences are found from the left and do not overlap. */
  function Replace(text: string, pattern: string, replacement: string): string
    requires pattern != ""
  {
    if text == "" then ""
    else if pattern <= text then replacement + Replace(text[|pattern|..], pattern, replacement)
    else [text[0]] + Replace(text[1..], pattern, replacement)
  }

  /** `AgentTip::to_formatted_text`; without a keystroke this is the default of the trait. */
  method ToFormattedText(description: string, keystroke: Option<string>) returns (fragments: seq<Fragment>)
    ensures forall i :: 0 <= i < |fragments| ==> fragments[i].text != ""
    ensures Shown(fragments) == Scan(TipText(description, keystroke), false)
    ensures keystroke.None? ==> Shown(fragments) == Scan("Tip: " + description, false)
    ensures keystroke.Some? ==> Shown(fragments) == ScanWithKey("Tip: " + description, keystroke.value, false)
  {
    if keystroke.Some? {
      ReplaceThenScan("Tip: " + description, keystroke.value, false);
    }
    var text := "Tip: " + description;
    if keystroke.Some? {
      text := Replace(text, PLACEHOLDER, keystroke.value);
    }
    fragments := FormatText(text);
  }

  function TipText(description: string, keystroke: Option<string>): string {
    if keystroke.Some? then Replace("Tip: " + description, PLACEHOLDER, keystroke.value) else "Tip: " + description
  }

  // ----- the fragments show the scan

  function TagParts(parts: seq<string>, code: bool): seq<Styled> {
    if parts == [] then [] else Tag(parts[0], code) + TagParts(parts[1..], !code)
  }

  lemma {:induction false} FragmentsShowTheParts(parts: seq<string>, code: bool)
    ensures Shown(Fragments(parts, code)) == TagParts(parts, code)
    ensures forall i :: 0 <= i < |Fragments(parts, code)| ==> Fragments(parts, code)[i].text != ""
  {
    if parts != [] {
      FragmentsShowTheParts(parts[1..], !code);
      if parts[0] != "" {
        var f := if code then InlineCode(parts[0]) else PlainText(parts[0]);
        assert ([f] + Fragments(parts[1..], !code))[1..] == Fragments(parts[1..], !code);
      } else {
        assert Tag(parts[0], code) == [];
        assert [] + Fragments(parts[1..], !code) == Fragments(parts[1..], !code);
      }
    }
  }

  lemma {:induction false} PartsShowTheText(text: string, code: bool)
    ensures TagParts(Split(text), code) == Scan(text, code)
  {
    if text == "" {
      assert TagParts([""], code) == Tag("", code) + TagParts([], !code) == [];
    } else if text[0] == TICK {
      PartsShowTheText(text[1..], !code);
      assert Tag("", code) == [];
    } else {
      PartsShowTheText(text[1..], code);
      var rest := Split(text[1..]);
      assert Tag([text[0]] + rest[0], code) == [Styled(text[0], code)] + Tag(rest[0], code);
      assert Split(text)[1..] == rest[1..];
    }
  }

  // ----- what the scan means

  /** The text without its backticks. */
  function WithoutTicks(text: string): string {
    if text == "" then "" else (if text[0] == TICK then "" else [text[0]]) + WithoutTicks(text[1..])
  }

  function Texts(fragments: seq<Fragment>): string {
    if fragments == [] then "" else fragments[0].text + Texts(fragments[1..])
  }

  function Characters(shown: seq<Styled>): string {
    seq(|shown|, i requires 0 <= i < |shown| => shown[i].c)
  }

  lemma {:induction false} ScanDropsOnlyTicks(text: string, code: bool)
    ensures Characters(Scan(text, code)) == WithoutTicks(text)
  {
    if text != "" {
      ScanDropsOnlyTicks(text[1..], if text[0] == TICK then !code else code);
    }
  }

  lemma {:induction false} CharactersAreTheTexts(fragments: seq<Fragment>)
    ensures Characters(Shown(fragments)) == Texts(fragments)
  {
    if fragments != [] {
      CharactersAreTheTexts(fragments[1..]);
      assert Characters(Tag(fragments[0].text, fragments[0].InlineCode?)) == fragments[0].text;
    }
  }

  /** Any fragments that show the scan of a text have the text without backticks as their texts. */
  lemma TextsAreTheTextWithoutTicks(fragments: seq<Fragment>, text: string)
    requires Shown(fragments) == Scan(text, false)
    ensures Texts(fragments) == WithoutTicks(text)
  {
    CharactersAreTheTexts(fragments);
    ScanDropsOnlyTicks(text, false);
  }

  lemma {:induction false} ScanLength(text: string, code: bool)
    ensures |Scan(text, code)| == |text| - Ticks(text)
  {
    if text != "" {
      ScanLength(text[1..], if text[0] == TICK then !code else code);
    }
  }

  /** A character that is not a backtick is shown, as code iff an odd number of backticks precede it. */
  lemma {:induction false} CodeIffOddTicksBefore(text: string, code: bool, i: nat)
    requires i < |text| && text[i] != TICK
    ensures ShownAs(text, code, i, Ticks(text[..i]))
  {
    if i > 0 {
      var first := if text[0] == TICK then 1 else 0;
      var n := Ticks(text[1..][..i - 1]);
      CodeIffOddTicksBefore(text[1..], code != (first == 1), i - 1);
      assert text[..i][1..] == text[1..][..i - 1];
      assert Ticks(text[..i]) == first + n;
      assert ShownAs(text[1..], code != (first == 1), i - 1, n);
    }
  }

  /** Character `i`, which `n` backticks precede, is the next after the `i - n` other characters before it, and it
      keeps the style of the beginning iff `n` is even. */
  predicate ShownAs(text: string, code: bool, i: nat, n: nat)
    requires i < |text|
  {
    && n <= i
    && i - n < |Scan(text, code)|
    && Scan(text, code)[i - n] == Styled(text[i], code != (n % 2 == 1))
  }

  // ----- the keybinding

  predicate OddTicks(text: string) {
    Ticks(text) % 2 == 1
  }

  lemma {:induction false} ScanOfConcat(a: string, b: string, code: bool)
    ensures Scan(a + b, code) == Scan(a, code) + Scan(b, code != OddTicks(a))
    ensures Ticks(a + b) == Ticks(a) + Ticks(b)
  {
    if a == "" {
      assert a + b == b;
    } else {
      var next := if a[0] == TICK then !code else code;
      assert (a + b)[1..] == a[1..] + b;
      ScanOfConcat(a[1..], b, next);
      assert (code != OddTicks(a)) == (next != OddTicks(a[1..]));
    }
  }

  /** The style of a tip whose placeholders show a keystroke: the text around the placeholders is styled as if each
      of them were as many backticks as the keystroke has. */
  function ScanWithKey(text: string, key: string, code: bool): seq<Styled> {
    if text == "" then []
    else if PLACEHOLDER <= text then Scan(key, code) + ScanWithKey(text[|PLACEHOLDER|..], key, code != OddTicks(key))
    else if text[0] == TICK then ScanWithKey(text[1..], key, !code)
    else [Styled(text[0], code)] + ScanWithKey(text[1..], key, code)
  }

  lemma {:induction false} ReplaceThenScan(text: string, key: string, code: bool)
    ensures Scan(Replace(text, PLACEHOLDER, key), code) == ScanWithKey(text, key, code)
  {
    if text == "" {
    } else if PLACEHOLDER <= text {
      var rest := text[|PLACEHOLDER|..];
      ScanOfConcat(key, Replace(rest, PLACEHOLDER, key), code);
      ReplaceThenScan(rest, key, code != OddTicks(key));
    } else {
      var rest := Replace(text[1..], PLACEHOLDER, key);
      assert ([text[0]] + rest)[1..] == rest;
      ReplaceThenScan(text[1..], key, if text[0] == TICK then !code else code);
    }
  }

  /** Replacing puts the keystroke in the place of the first placeholder, and goes on after it. */
  lemma {:induction false} ReplaceFirst(before: string, rest: string, key: string)
    requires '<' !in before
    ensures Replace(before + PLACEHOLDER + rest, PLACEHOLDER, key) == before + key + Replace(rest, PLACEHOLDER, key)
  {
    var text := before + PLACEHOLDER + rest;
    if before == "" {
      assert text == PLACEHOLDER + rest;
      assert text[|PLACEHOLDER|..] == rest;
    } else {
      assert PLACEHOLDER[0] == '<' && text[0] == before[0];
      assert text[1..] == before[1..] + PLACEHOLDER + rest;
      ReplaceFirst(before[1..], rest, key);
      assert [before[0]] + (before[1..] + key + Replace(rest, PLACEHOLDER, key))
          == before + key + Replace(rest, PLACEHOLDER, key);
    }
  }

  lemma {:induction false} ReplaceNothing(text: string, key: string)
    requires Placeholders(text) == 0
    ensures Replace(text, PLACEHOLDER, key) == text
  {
    if text != "" {
      ReplaceNothing(text[1..], key);
    }
  }

  /** What such a tip should show: every placeholder as the whole keystroke, in the style of its place. */
  function Intended(text: string, key: string, code: bool): seq<Styled> {
    if text == "" then []
    else if PLACEHOLDER <= text then Tag(key, code) + Intended(text[|PLACEHOLDER|..], key, code)
    else if text[0] == TICK then Intended(text[1..], key, !code)
    else [Styled(text[0], code)] + Intended(text[1..], key, code)
  }

  /** The number of placeholders. */
  function Placeholders(text: string): nat {
    if text == "" then 0
    else if PLACEHOLDER <= text then 1 + Placeholders(text[|PLACEHOLDER|..])
    else Placeholders(text[1..])
  }

  lemma {:induction false} KeysLoseTheirTicks(text: string, key: string, code: bool, other: bool)
    ensures |ScanWithKey(text, key, code)| <= |Intended(text, key, other)|
    ensures Placeholders(text) > 0 && Ticks(key) > 0 ==> |ScanWithKey(text, key, code)| < |Intended(text, key, other)|
  {
    if text == "" {
    } else if PLACEHOLDER <= text {
      var rest := text[|PLACEHOLDER|..];
      KeysLoseTheirTicks(rest, key, code != OddTicks(key), other);
      ScanLength(key, code);
    } else {
      var isTick := text[0] == TICK;
      KeysLoseTheirTicks(text[1..], key, if isTick then !code else code, if isTick then !other else other);
    }
  }

  lemma {:induction false} ScanWithoutTicks(key: string, code: bool)
    requires Ticks(key) == 0
    ensures Scan(key, code) == Tag(key, code)
  {
    if key != "" {
      ScanWithoutTicks(key[1..], code);
    }
  }

  lemma {:induction false} KeysWithoutTicks(text: string, key: string, code: bool)
    requires Ticks(key) == 0
    ensures ScanWithKey(text, key, code) == Intended(text, key, code)
  {
    if text == "" {
    } else if PLACEHOLDER <= text {
      ScanWithoutTicks(key, code);
      KeysWithoutTicks(text[|PLACEHOLDER|..], key, code);
    } else {
      KeysWithoutTicks(text[1..], key, if text[0] == TICK then !code else code);
    }
  }

  /** A tip shows its keystroke as intended iff it has no placeholder or the keystroke has no backtick: the keystroke is
      put into the text before the text is split. */
  lemma TipsAreAsIntendedIff(description: string, key: string)
    ensures var text := "Tip: " + description;
            Scan(TipText(description, Some(key)), false) == Intended(text, key, false)
            <==> Placeholders(text) == 0 || Ticks(key) == 0
  {
    var text := "Tip: " + description;
    ReplaceThenScan(text, key, false);
    KeysLoseTheirTicks(text, key, false, false);
    if Placeholders(text) == 0 {
      NoPlaceholders(text, key, false);
    } else if Ticks(key) == 0 {
      KeysWithoutTicks(text, key, false);
    }
  }

  lemma {:induction false} NoPlaceholders(text: string, key: string, code: bool)
    requires Placeholders(text) == 0
    ensures ScanWithKey(text, key, code) == Intended(text, key, code)
  {
    if text != "" {
      NoPlaceholders(text[1..], key, if text[0] == TICK then !code else code);
    }
  }

  lemma {:induction false} PlainCharacter(text: string, key: string, code: bool)
    requires text != "" && text[0] != '<' && text[0] != TICK
    ensures ScanWithKey(text, key, code) == [Styled(text[0], code)] + ScanWithKey(text[1..], key, code)
    ensures Intended(text, key, code) == [Styled(text[0], code)] + Intended(text[1..], key, code)
  {
    assert PLACEHOLDER[0] == '<';
  }

  /** Plain text in front of other text keeps the style of the beginning. */
  lemma {:induction false} PlainPrefix(before: string, rest: string, key: string, code: bool)
    requires '<' !in before && TICK !in before
    ensures ScanWithKey(before + rest, key, code) == Tag(before, code) + ScanWithKey(rest, key, code)
    ensures Intended(before + rest, key, code) == Tag(before, code) + Intended(rest, key, code)
  {
    var text := before + rest;
    if before == "" {
      assert text == rest;
    } else {
      assert text[0] == before[0] && text[1..] == before[1..] + rest;
      PlainCharacter(text, key, code);
      PlainPrefix(before[1..], rest, key, code);
      var first, tail := [Styled(before[0], code)], Tag(before[1..], code);
      assert Tag(before, code) == first + tail;
      assert first + (tail + ScanWithKey(rest, key, code)) == first + tail + ScanWithKey(rest, key, code);
      assert first + (tail + Intended(rest, key, code)) == first + tail + Intended(rest, key, code);
    }
  }

  /** A tip that begins with its keystroke, when that ends with a backtick: the backtick is missing, and everything
      after the keystroke is shown as code. */
  lemma {:induction false} TickedKeyTurnsTheRestIntoCode(
    description: string, rest: string, key: string, modifiers: string)
    requires TICK !in modifiers && '<' !in rest && TICK !in rest
    requires description == PLACEHOLDER + rest && key == modifiers + [TICK]
    ensures var shown := Scan(TipText(description, Some(key)), false);
            && shown == Tag("Tip: ", false) + Tag(modifiers, false) + Tag(rest, true)
            && shown != Intended("Tip: " + description, key, false)
  {
    ReplaceThenScan("Tip: " + description, key, false);
    PlainPrefix("Tip: ", description, key, false);
    TickedKey(modifiers, key);
    KeyFirst(description, rest, key, false);
    PlainPrefix(rest, "", key, true);
    PlainPrefix(rest, "", key, false);
    assert rest + "" == rest;
  }

  lemma {:induction false} KeyFirst(description: string, rest: string, key: string, code: bool)
    requires description == PLACEHOLDER + rest
    ensures ScanWithKey(description, key, code) == Scan(key, code) + ScanWithKey(rest, key, code != OddTicks(key))
    ensures Intended(description, key, code) == Tag(key, code) + Intended(rest, key, code)
  {
    assert description[|PLACEHOLDER|..] == rest;
  }

  lemma {:induction false} TickedKey(modifiers: string, key: string)
    requires TICK !in modifiers && key == modifiers + [TICK]
    ensures Scan(key, false) == Tag(modifiers, false) && OddTicks(key)
  {
    TicksOfPlainText(modifiers);
    ScanOfConcat(modifiers, [TICK], false);
    ScanWithoutTicks(modifiers, false);
    assert Scan([TICK], false) == [] && Ticks([TICK]) == 1;
  }

  lemma {:induction false} TicksOfPlainText(text: string)
    requires TICK !in text
    ensures Ticks(text) == 0
  {
    if text != "" {
      TicksOfPlainText(text[1..]);
    }
  }

  lemma {:induction false} CancelTipStartsWithItsKey(description: string, rest: string)
    requires description == "<keybinding> to cancel the current agent task."
    requires rest == " to cancel the current agent task."
    ensures description == PLACEHOLDER + rest
  {
  }

  /** The tip about cancelling, bound to the control key and the backtick, as displayed on Linux and Windows. */
  lemma {:induction false} CancelTipWithTickedKey(description: string, rest: string, key: string, modifiers: string)
    requires description == "<keybinding> to cancel the current agent task." && key == "Ctrl `"
    requires rest == " to cancel the current agent task." && modifiers == "Ctrl "
    ensures var shown := Scan(TipText(description, Some(key)), false);
            && shown == Tag("Tip: ", false) + Tag(modifiers, false) + Tag(rest, true)
            && shown != Intended("Tip: " + description, key, false)
  {
    CancelTipStartsWithItsKey(description, rest);
    TickedKeyTurnsTheRestIntoCode(description, rest, key, modifiers);
  }
}
