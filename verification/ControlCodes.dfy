/** Rendering raw terminal bytes as display text in which control codes appear as `<ctrl-c>` and the like. */
module ControlCodes {
  import opened Options
  import opened Utf8

  datatype Keystroke = Keystroke(ctrl: bool, alt: bool, shift: bool, cmd: bool, meta: bool, key: string) {
    function Modifiers(): string {
      (if ctrl then "ctrl-" else "") + (if alt then "alt-" else "") + (if shift then "shift-" else "") +
      (if cmd then "cmd-" else "") + (if meta then "meta-" else "")
    }

    /** `Keystroke::normalized` */
    function Normalized(): string {
      Modifiers() + if key == " " then "space" else key
    }
  }

  function Ctrl(key: string): Option<Keystroke> {
    Some(Keystroke(true, false, false, false, false, key))
  }

  function Plain(key: string): Option<Keystroke> {
    Some(Keystroke(false, false, false, false, false, key))
  }

  predicate PrintableAscii(s: string) {
    forall i :: 0 <= i < |s| ==> 0x20 <= s[i] as int <= 0x7E
  }

  /** Printable and without the brackets that delimit a token. */
  predicate Clean(name: string) {
    name != "" && PrintableAscii(name) && '<' !in name && '>' !in name
  }

  /** The control codes that have a key of their own: backspace, tab, line feed, carriage return, escape, delete. */
  const NAMED_KEYS: set<nat> := {0x08, 0x09, 0x0A, 0x0D, 0x1B, 0x7F}

  /** `byte_value_to_keystroke`: the C0 control codes and DEL, except NUL. */
  function ByteToKeystroke(b: Byte): (k: Option<Keystroke>)
    ensures k.Some? <==> 0x01 <= b <= 0x1F || b == 0x7F
    ensures k.Some? ==> Clean(k.value.key) && !k.value.alt && !k.value.shift && !k.value.cmd && !k.value.meta
  {
    match b
    case 0x01 => Ctrl("a") case 0x02 => Ctrl("b") case 0x03 => Ctrl("c") case 0x04 => Ctrl("d")
    case 0x05 => Ctrl("e") case 0x06 => Ctrl("f") case 0x07 => Ctrl("g") case 0x0B => Ctrl("k")
    case 0x0C => Ctrl("l") case 0x0E => Ctrl("n") case 0x0F => Ctrl("o") case 0x10 => Ctrl("p")
    case 0x11 => Ctrl("q") case 0x12 => Ctrl("r") case 0x13 => Ctrl("s") case 0x14 => Ctrl("t")
    case 0x15 => Ctrl("u") case 0x16 => Ctrl("v") case 0x17 => Ctrl("w") case 0x18 => Ctrl("x")
    case 0x19 => Ctrl("y") case 0x1A => Ctrl("z") case 0x1C => Ctrl("\\") case 0x1D => Ctrl("]")
    case 0x1E => Ctrl("^") case 0x1F => Ctrl("_")
    case 0x09 => Plain("tab") case 0x1B => Plain("escape") case 0x7F => Plain("delete") case 0x08 => Plain("backspace")
    case 0x0A => Plain("enter") case 0x0D => Plain("enter")
    case _ => None
  }

  /** A code without a key of its own is sent by the control key and the character 0x40 above it, in lower case if that
      is a letter. */
  lemma ControlKeysAreAsciiControls(b: Byte)
    requires ByteToKeystroke(b).Some?
    ensures var k := ByteToKeystroke(b).value;
            && (k.ctrl <==> b !in NAMED_KEYS)
            && (k.ctrl ==>
                  |k.key| == 1 &&
                  k.key[0] as int == if 'A' as int <= b + 0x40 <= 'Z' as int then b + 0x60 else b + 0x40)
  {
  }

  /** A keystroke tells which control code it sends, but for enter, which stands for two. */
  lemma KeystrokesIdentifyTheirBytes(b: Byte, c: Byte)
    requires ByteToKeystroke(b).Some? && ByteToKeystroke(b) == ByteToKeystroke(c)
    ensures b == c || {b, c} == {0x0A, 0x0D}
  {
    ControlKeysAreAsciiControls(b);
    ControlKeysAreAsciiControls(c);
    assert "escape"[0] == 'e' && "delete"[0] == 'd';
  }

  /** The name of the key that sends a control code. */
  function ControlName(b: Byte): Option<string> {
    match ByteToKeystroke(b)
    case Some(k) => Some(k.Normalized())
    case None => None
  }

  /** Which bytes are control codes, and their names. Rendering works for any such table. */
  type Table = Byte -> Option<string>

  function HexDigit(n: nat): char
    requires n < 16
  {
    "0123456789ABCDEF"[n]
  }

  function Hex(b: Byte): string {
    "<0x" + [HexDigit(b / 16), HexDigit(b % 16)] + ">"
  }

  function Bracketed(name: string): string {
    " <" + name + ">"
  }

  /** The text of one byte: a control code after a space, a printable character or a space as it is, anything else in
      hexadecimal. */
  function Token(table: Table, b: Byte): string {
    if table(b).Some? then Bracketed(table(b).value)
    else if 0x20 <= b <= 0x7E then [b as char]
    else Hex(b)
  }

  datatype Range = Range(start: nat, end: nat)

  datatype Output = Output(display: string, ranges: seq<Range>)

  /** The output after one more token. */
  function Append(o: Output, token: string, control: bool): Output {
    Output(o.display + token,
           if control then o.ranges + [Range(|o.display| + 1, |o.display| + |token|)] else o.ranges)
  }

  function Render(table: Table, bytes: seq<Byte>): Output {
    if bytes == [] then Output("", [])
    else
      var last := |bytes| - 1;
      Append(Render(table, bytes[..last]), Token(table, bytes[last]), table(bytes[last]).Some?)
  }

  lemma RenderNext(table: Table, bytes: seq<Byte>, i: nat, o: Output, next: Output)
    requires i < |bytes| && o == Render(table, bytes[..i])
    requires next == Append(o, Token(table, bytes[i]), table(bytes[i]).Some?)
    ensures next == Render(table, bytes[..i + 1])
  {
    assert bytes[..i + 1][..i] == bytes[..i];
  }

  /** The loop of `parse_control_codes_from_bytes`. */
  method ParseWith(table: Table, bytes: seq<Byte>) returns (display: string, ranges: seq<Range>)
    ensures Output(display, ranges) == Render(table, bytes)
  {
    display, ranges := "", [];
    for i := 0 to |bytes|
      invariant Output(display, ranges) == Render(table, bytes[..i])
    {
      ghost var before := Output(display, ranges);
      var name := table(bytes[i]);
      if name.Some? {
        var keystrokeString := Bracketed(name.value);
        ranges := ranges + [Range(|display| + 1, |display| + |keystrokeString|)];
        display := display + keystrokeString;
      } else if 0x21 <= bytes[i] <= 0x7E || bytes[i] == 0x20 {
        display := display + [bytes[i] as char];
      } else {
        display := display + Hex(bytes[i]);
      }
      RenderNext(table, bytes, i, before, Output(display, ranges));
    }
    assert bytes[..|bytes|] == bytes;
  }

  // ----- the text of each byte, said directly

  /** The six control codes with keys of their own, and the others by the key that sends them with control. */
  function KeyName(b: Byte): string
    requires 0x01 <= b <= 0x1F || b == 0x7F
  {
    if b == 0x08 then "backspace"
    else if b == 0x09 then "tab"
    else if b == 0x0A || b == 0x0D then "enter"
    else if b == 0x1B then "escape"
    else if b == 0x7F then "delete"
    else "ctrl-" + [(if b <= 0x1A then b + 0x60 else b + 0x40) as char]
  }

  function UpperHexDigit(n: nat): char
    requires n < 16
  {
    (if n < 10 then n + 0x30 else n + 0x37) as char
  }

  /** A control code is shown as its key in brackets after a space, a printable character or a space as itself, and any
      other byte as two hexadecimal digits. */
  function TextOf(b: Byte): string {
    if 0x20 <= b <= 0x7E then [b as char]
    else if 0x01 <= b <= 0x1F || b == 0x7F then " <" + KeyName(b) + ">"
    else "<0x" + [UpperHexDigit(b / 16), UpperHexDigit(b % 16)] + ">"
  }

  function TextsOf(bytes: seq<Byte>): string {
    if bytes == [] then "" else TextsOf(bytes[..|bytes| - 1]) + TextOf(bytes[|bytes| - 1])
  }

  lemma {:induction false} ControlNameIsKeyName(b: Byte)
    ensures ControlName(b).Some? <==> 0x01 <= b <= 0x1F || b == 0x7F
    ensures ControlName(b).Some? ==> ControlName(b).value == KeyName(b)
  {
    if ControlName(b).Some? {
      var k := ByteToKeystroke(b).value;
      ControlKeysAreAsciiControls(b);
      assert k.Modifiers() == if k.ctrl then "ctrl-" else "";
      assert k.key != " ";
      if k.ctrl {
        assert k.key == [k.key[0]];
      }
    }
  }

  lemma {:induction false} HexDigitIsUpper(n: nat)
    requires n < 16
    ensures HexDigit(n) == UpperHexDigit(n)
  {
  }

  lemma {:induction false} TokenIsText(b: Byte)
    ensures Token(ControlName, b) == TextOf(b)
  {
    ControlNameIsKeyName(b);
    HexDigitIsUpper(b / 16);
    HexDigitIsUpper(b % 16);
  }

  /** The display is the texts of the bytes, one after the other. */
  lemma {:induction false} DisplayIsTheTexts(bytes: seq<Byte>)
    ensures Render(ControlName, bytes).display == TextsOf(bytes)
  {
    if bytes != [] {
      DisplayIsTheTexts(bytes[..|bytes| - 1]);
      TokenIsText(bytes[|bytes| - 1]);
    }
  }

  /** `parse_control_codes_from_bytes` */
  method ParseControlCodes(bytes: seq<Byte>) returns (display: string, ranges: seq<Range>)
    ensures Output(display, ranges) == Render(ControlName, bytes)
    ensures display == TextsOf(bytes)
  {
    DisplayIsTheTexts(bytes);
    display, ranges := ParseWith(ControlName, bytes);
  }

  // ----- rendering chunk by chunk

  function Shift(ranges: seq<Range>, offset: nat): seq<Range> {
    seq(|ranges|, i requires 0 <= i < |ranges| => Range(ranges[i].start + offset, ranges[i].end + offset))
  }

  function Concat(a: Output, b: Output): Output {
    Output(a.display + b.display, a.ranges + Shift(b.ranges, |a.display|))
  }

  /** Rendering two chunks one after the other is rendering them together, with the second one's ranges shifted. */
  lemma {:induction false} RenderIsHomomorphic(table: Table, a: seq<Byte>, b: seq<Byte>)
    ensures Render(table, a + b) == Concat(Render(table, a), Render(table, b))
  {
    if b == [] {
      assert a + b == a;
      assert Concat(Render(table, a), Render(table, b)) == Render(table, a);
    } else {
      var last := |b| - 1;
      RenderIsHomomorphic(table, a, b[..last]);
      assert (a + b)[..|a + b| - 1] == a + b[..last];
      AppendToConcat(Render(table, a), Render(table, b[..last]), Token(table, b[last]), table(b[last]).Some?);
    }
  }

  lemma AppendToConcat(a: Output, b: Output, token: string, control: bool)
    ensures Append(Concat(a, b), token, control) == Concat(a, Append(b, token, control))
  {
    assert a.display + b.display + token == a.display + (b.display + token);
    assert Append(Concat(a, b), token, control).ranges == Concat(a, Append(b, token, control)).ranges;
  }

  // ----- the ranges

  /** Range `r` of the display is the bracketed name, right after a space. */
  predicate Delimits(display: string, r: Range, name: string) {
    && 1 <= r.start < r.end <= |display|
    && display[r.start - 1] == ' '
    && display[r.start..r.end] == "<" + name + ">"
  }

  lemma AppendKeepsDelimits(display: string, token: string, r: Range, name: string)
    requires Delimits(display, r, name)
    ensures Delimits(display + token, r, name)
  {
    assert (display + token)[r.start..r.end] == display[r.start..r.end];
  }

  lemma AppendDelimits(display: string, name: string)
    ensures var token := " <" + name + ">";
            Delimits(display + token, Range(|display| + 1, |display| + |token|), name)
  {
    var token := " <" + name + ">";
    assert (display + token)[|display| + 1..|display| + |token|] == token[1..] == "<" + name + ">";
  }

  /** One range per control byte, in order, disjoint with a gap in between, in bounds, and each exactly the token. */
  ghost predicate RangesMatch(o: Output, names: seq<string>) {
    && |o.ranges| == |names|
    && (forall i :: 0 <= i < |o.ranges| ==> Delimits(o.display, o.ranges[i], names[i]))
    && (forall i, j :: 0 <= i < j < |o.ranges| ==> o.ranges[i].end < o.ranges[j].start)
  }

  lemma AppendKeepsMatch(o: Output, names: seq<string>, token: string, control: bool, name: string)
    requires RangesMatch(o, names) && (control ==> token == " <" + name + ">")
    ensures RangesMatch(Append(o, token, control), if control then names + [name] else names)
  {
    var next, names' := Append(o, token, control), if control then names + [name] else names;
    forall i | 0 <= i < |next.ranges| ensures Delimits(next.display, next.ranges[i], names'[i]) {
      if i < |o.ranges| {
        AppendKeepsDelimits(o.display, token, o.ranges[i], names[i]);
      } else {
        AppendDelimits(o.display, name);
      }
    }
    forall i, j | 0 <= i < j < |next.ranges| ensures next.ranges[i].end < next.ranges[j].start {
      assert Delimits(o.display, o.ranges[i], names[i]);
    }
  }

  /** The names of the control codes among the bytes, in order. */
  function ControlNames(table: Table, bytes: seq<Byte>): seq<string> {
    if bytes == [] then []
    else
      var last := |bytes| - 1;
      ControlNames(table, bytes[..last]) + if table(bytes[last]).Some? then [table(bytes[last]).value] else []
  }

  lemma {:induction false} RangesDelimitTheControlCodes(table: Table, bytes: seq<Byte>)
    ensures RangesMatch(Render(table, bytes), ControlNames(table, bytes))
  {
    if bytes != [] {
      var last := |bytes| - 1;
      var k := table(bytes[last]);
      RangesDelimitTheControlCodes(table, bytes[..last]);
      AppendKeepsMatch(Render(table, bytes[..last]), ControlNames(table, bytes[..last]),
                       Token(table, bytes[last]), k.Some?,
                       if k.Some? then k.value else "");
    }
  }

  /** The names in the table are printable and without brackets, so that a token ends at its first `>`. */
  ghost predicate CleanTable(table: Table) {
    forall b: Byte :: table(b).Some? ==> Clean(table(b).value)
  }

  lemma TokensArePrintable(table: Table, b: Byte)
    requires CleanTable(table)
    ensures PrintableAscii(Token(table, b))
  {
  }

  lemma {:induction false} CleanTablesRenderCleanly(table: Table, bytes: seq<Byte>)
    requires CleanTable(table)
    ensures PrintableAscii(Render(table, bytes).display)
    ensures forall name :: name in ControlNames(table, bytes) ==> Clean(name)
  {
    if bytes != [] {
      CleanTablesRenderCleanly(table, bytes[..|bytes| - 1]);
      TokensArePrintable(table, bytes[|bytes| - 1]);
    }
  }

  predicate Tidy(s: string) {
    PrintableAscii(s) && '<' !in s && '>' !in s
  }

  lemma TidyConcat(a: string, b: string)
    requires Tidy(a) && Tidy(b)
    ensures Tidy(a + b)
  {
  }

  lemma TidyIf(present: bool, word: string)
    requires Tidy(word)
    ensures Tidy(if present then word else "")
  {
  }

  lemma {:induction false} ModifiersAreTidy(k: Keystroke)
    ensures Tidy(k.Modifiers())
  {
    TidyIf(k.ctrl, "ctrl-");
    TidyIf(k.alt, "alt-");
    TidyIf(k.shift, "shift-");
    TidyIf(k.cmd, "cmd-");
    TidyIf(k.meta, "meta-");
    var c, a, s := if k.ctrl then "ctrl-" else "", if k.alt then "alt-" else "", if k.shift then "shift-" else "";
    var d, m := if k.cmd then "cmd-" else "", if k.meta then "meta-" else "";
    TidyConcat(c, a);
    TidyConcat(c + a, s);
    TidyConcat(c + a + s, d);
    TidyConcat(c + a + s + d, m);
  }

  lemma NormalizedIsClean(k: Keystroke)
    requires Clean(k.key)
    ensures Clean(k.Normalized())
  {
    ModifiersAreTidy(k);
    TidyConcat(k.Modifiers(), if k.key == " " then "space" else k.key);
  }

  /** With the actual table the display is printable ASCII, so character positions are byte positions, and no name of a
      control code contains a bracket. */
  lemma {:induction false} ControlCodesRenderCleanly(bytes: seq<Byte>)
    ensures PrintableAscii(Render(ControlName, bytes).display)
    ensures forall name :: name in ControlNames(ControlName, bytes) ==> Clean(name)
  {
    forall b: Byte | ControlName(b).Some? ensures Clean(ControlName(b).value) {
      NormalizedIsClean(ByteToKeystroke(b).value);
    }
    CleanTablesRenderCleanly(ControlName, bytes);
  }
}
