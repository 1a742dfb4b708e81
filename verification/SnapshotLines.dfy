/** Printing a terminal row so that playing it on a blank row shows the same cells. */
module SnapshotLines {
  import opened Wrappers
  import opened Utf8Prefixes

  datatype Color = DefaultColor | Indexed(index: nat) | Rgb(red: nat, green: nat, blue: nat)

  datatype Style = Style(bold: bool, italic: bool, blink: bool, reverse: bool, strike: bool, underline: nat,
                         foreground: Color, background: Color)

  const PLAIN: Style := Style(false, false, false, false, false, 0, DefaultColor, DefaultColor)

  datatype Cell = Cell(width: nat, chars: seq<nat>, style: Style)

  const SPACE: nat := 0x20

  // ----- style sequences

  function ColorParameters(c: Color, foreground: bool): seq<nat> {
    match c
    case DefaultColor => [if foreground then 39 else 49]
    case Indexed(index) => [if foreground then 38 else 48, 5, index]
    case Rgb(red, green, blue) => [if foreground then 38 else 48, 2, red, green, blue]
  }

  /** The parameters of the sequence that selects a style from scratch. */
  function StyleParameters(s: Style): seq<nat> {
    if s == PLAIN then [0]
    else
      [0] + ((if s.bold then [1] else []) + ((if s.italic then [3] else [])
      + ((if s.underline != 0 then [if s.underline == 2 then 21 else 4] else [])
      + ((if s.blink then [5] else []) + ((if s.reverse then [7] else []) + ((if s.strike then [9] else [])
      + (ColorParameters(s.foreground, true) + ColorParameters(s.background, false))))))))
  }

  /** What a terminal makes of a parameter that stands alone. */
  function WithCode(s: Style, p: nat): Style {
    match p
    case 0 => PLAIN
    case 1 => s.(bold := true)
    case 3 => s.(italic := true)
    case 4 => s.(underline := 1)
    case 21 => s.(underline := 2)
    case 5 => s.(blink := true)
    case 7 => s.(reverse := true)
    case 9 => s.(strike := true)
    case 39 => s.(foreground := DefaultColor)
    case 49 => s.(background := DefaultColor)
    case _ => s
  }

  /** What a terminal makes of style parameters. */
  function ApplyStyle(s: Style, ps: seq<nat>): Style
    decreases |ps|
  {
    if ps == [] then s
    else if ps[0] != 38 && ps[0] != 48 then ApplyStyle(WithCode(s, ps[0]), ps[1..])
    else if |ps| >= 3 && ps[1] == 5 then
      ApplyStyle(if ps[0] == 38 then s.(foreground := Indexed(ps[2])) else s.(background := Indexed(ps[2])), ps[3..])
    else if |ps| >= 5 && ps[1] == 2 then
      ApplyStyle(if ps[0] == 38 then s.(foreground := Rgb(ps[2], ps[3], ps[4]))
                 else s.(background := Rgb(ps[2], ps[3], ps[4])), ps[5..])
    else s
  }

  lemma {:induction false} ApplyMaybe(s: Style, on: bool, p: nat, rest: seq<nat>)
    requires p != 38 && p != 48
    ensures ApplyStyle(s, (if on then [p] else []) + rest) == ApplyStyle(if on then WithCode(s, p) else s, rest)
  {
    hide WithCode;
    if on {
      assert ([p] + rest)[1..] == rest;
    } else {
      assert [] + rest == rest;
    }
  }

  lemma {:induction false} ApplyColor(s: Style, c: Color, foreground: bool, rest: seq<nat>)
    ensures ApplyStyle(s, ColorParameters(c, foreground) + rest)
         == ApplyStyle(if foreground then s.(foreground := c) else s.(background := c), rest)
  {
    var ps := ColorParameters(c, foreground) + rest;
    match c {
      case DefaultColor => assert ps[1..] == rest;
      case Indexed(_) => assert ps[3..] == rest;
      case Rgb(_, _, _) => assert ps[5..] == rest;
    }
  }

  /** The style a terminal ends up with: underlines other than single and double come out as single. */
  function Settled(s: Style): Style {
    s.(underline := if s.underline == 0 || s.underline == 2 then s.underline else 1)
  }

  /** Selecting a style from scratch works whatever was selected before. */
  lemma {:induction false} StyleSelected(before: Style, s: Style)
    ensures ApplyStyle(before, StyleParameters(s)) == Settled(s)
  {
    hide ApplyStyle, ColorParameters;
    if s == PLAIN {
      ApplyMaybe(before, true, 0, []);
      assert [0] + [] == [0];
      ApplyNothing(PLAIN);
    } else {
      var colors := ColorParameters(s.foreground, true) + ColorParameters(s.background, false);
      var p4 := (if s.blink then [5] else [])
                + ((if s.reverse then [7] else []) + ((if s.strike then [9] else []) + colors));
      var line := if s.underline == 2 then 21 else 4;
      var p3 := (if s.underline != 0 then [line] else []) + p4;
      var p2 := (if s.italic then [3] else []) + p3;
      var p1 := (if s.bold then [1] else []) + p2;
      assert StyleParameters(s) == [0] + p1;
      ApplyMaybe(before, true, 0, p1);
      ApplyMaybe(PLAIN, s.bold, 1, p2);
      ApplyMaybe(PLAIN.(bold := s.bold), s.italic, 3, p3);
      var s2 := PLAIN.(bold := s.bold, italic := s.italic);
      ApplyMaybe(s2, s.underline != 0, line, p4);
      LastParameters(s2.(underline := Settled(s).underline), s);
    }
  }

  lemma {:induction false} ApplyNothing(s: Style)
    ensures ApplyStyle(s, []) == s
  {
  }

  lemma {:induction false} LastParameters(t: Style, s: Style)
    requires !t.blink && !t.reverse && !t.strike
    ensures var colors := ColorParameters(s.foreground, true) + ColorParameters(s.background, false);
            var ps := (if s.blink then [5] else [])
                      + ((if s.reverse then [7] else []) + ((if s.strike then [9] else []) + colors));
            ApplyStyle(t, ps)
            == t.(blink := s.blink, reverse := s.reverse, strike := s.strike, foreground := s.foreground,
                  background := s.background)
  {
    hide ApplyStyle, ColorParameters;
    var colors := ColorParameters(s.foreground, true) + ColorParameters(s.background, false);
    var p6 := (if s.strike then [9] else []) + colors;
    var p5 := (if s.reverse then [7] else []) + p6;
    ApplyMaybe(t, s.blink, 5, p5);
    var t1 := t.(blink := s.blink);
    ApplyMaybe(t1, s.reverse, 7, p6);
    var t2 := t1.(reverse := s.reverse);
    ApplyMaybe(t2, s.strike, 9, colors);
    var t3 := t2.(strike := s.strike);
    ApplyColor(t3, s.foreground, true, ColorParameters(s.background, false));
    ApplyLastColor(t3.(foreground := s.foreground), s.background);
  }

  lemma {:induction false} ApplyLastColor(s: Style, c: Color)
    ensures ApplyStyle(s, ColorParameters(c, false)) == s.(background := c)
  {
    ApplyColor(s, c, false, []);
    assert ColorParameters(c, false) + [] == ColorParameters(c, false);
  }

  // ----- the cells of a row

  predicate HasText(c: Cell) {
    c.chars != [] && c.chars[0] != 0
  }

  type Fills = Option<seq<Option<Style>>>

  function FillAt(fills: Fills, col: nat): Option<Style> {
    if fills.None? || col >= |fills.value| then None else fills.value[col]
  }

  /** The style a cell is shown in when its row has been erased in some style. */
  function Effective(c: Cell, fill: Option<Style>): Style {
    if fill.None? then c.style
    else if c.width == 0 || (!HasText(c) && c.style == PLAIN) then fill.value
    else if fill.value.background == DefaultColor || c.style.background != DefaultColor then c.style
    else c.style.(background := fill.value.background)
  }

  function StyleAt(cells: seq<Cell>, fills: Fills, col: nat): Style
    requires col < |cells|
  {
    Effective(cells[col], FillAt(fills, col))
  }

  predicate Rendered(cells: seq<Cell>, fills: Fills, col: nat)
    requires col < |cells|
  {
    cells[col].width != 0 && (HasText(cells[col]) || StyleAt(cells, fills, col) != PLAIN)
  }

  predicate Textual(cells: seq<Cell>, col: nat)
    requires col < |cells|
  {
    cells[col].width != 0 && HasText(cells[col])
  }

  /** One past the last cell that must be written, and one past the last with text. */
  function RenderedEnd(cells: seq<Cell>, fills: Fills, n: nat): (e: nat)
    requires n <= |cells|
    ensures e <= n && (e > 0 ==> Rendered(cells, fills, e - 1)) && forall k :: e <= k < n ==> !Rendered(cells, fills, k)
  {
    if n == 0 || Rendered(cells, fills, n - 1) then n else RenderedEnd(cells, fills, n - 1)
  }

  function TextEnd(cells: seq<Cell>, n: nat): (e: nat)
    requires n <= |cells|
    ensures e <= n && (e > 0 ==> Textual(cells, e - 1)) && forall k :: e <= k < n ==> !Textual(cells, k)
  {
    if n == 0 || Textual(cells, n - 1) then n else TextEnd(cells, n - 1)
  }

  /** Whether the end of the row is blank in one style other than the plain one. */
  predicate EndsInFill(cells: seq<Cell>, fills: Fills) {
    var n, t := |cells|, TextEnd(cells, |cells|);
    && RenderedEnd(cells, fills, n) == n && t < n
    && StyleAt(cells, fills, t) != PLAIN
    && forall k ::
         t <= k < n ==>
           cells[k].width != 0 && !HasText(cells[k]) && StyleAt(cells, fills, k) == StyleAt(cells, fills, t)
  }

  // ----- the printed line

  /** A style sequence, the code points of one cell, or the sequence that erases to the end of the line. */
  datatype Token = SelectStyle(parameters: seq<nat>) | Glyph(text: seq<nat>) | EraseRest

  /** The code points of a cell that are actually written. */
  function Writes(chars: seq<nat>): seq<nat> {
    if chars == [] then [] else (if Skipped(chars[0]) then [] else [chars[0]]) + Writes(chars[1..])
  }

  function GlyphOf(c: Cell): seq<Token> {
    var text := if HasText(c) then Writes(c.chars) else [SPACE];
    if text == [] then [] else [Glyph(text)]
  }

  /** The line so far and the style selected last, after the cells below column k. */
  function PrintedTo(cells: seq<Cell>, fills: Fills, k: nat): (seq<Token>, Style)
    requires k <= |cells|
  {
    if k == 0 then ([], PLAIN)
    else
      var (line, current) := PrintedTo(cells, fills, k - 1);
      var style := StyleAt(cells, fills, k - 1);
      if cells[k - 1].width == 0 then (line, current)
      else (line + Switch(current, style) + GlyphOf(cells[k - 1]), style)
  }

  function Switch(current: Style, style: Style): seq<Token> {
    if style == current then [] else [SelectStyle(StyleParameters(style))]
  }

  function Line(cells: seq<Cell>, fills: Fills, allowErase: bool): seq<Token> {
    var n := RenderedEnd(cells, fills, |cells|);
    if n == 0 then []
    else
      var t := TextEnd(cells, |cells|);
      var erase := allowErase && EndsInFill(cells, fills);
      var (line, current) := PrintedTo(cells, fills, if erase then t else n);
      var fill := if erase then StyleAt(cells, fills, t) else current;
      line + Switch(current, fill) + (if erase then [EraseRest] else []) + Switch(fill, PLAIN)
  }

  method LastRendered(cells: seq<Cell>, fills: Fills) returns (e: int)
    ensures e == RenderedEnd(cells, fills, |cells|) - 1
  {
    e := -1;
    for col := 0 to |cells|
      invariant e == RenderedEnd(cells, fills, col) - 1
    {
      if Rendered(cells, fills, col) {
        e := col;
      }
    }
  }

  method LastText(cells: seq<Cell>) returns (e: int)
    ensures e == TextEnd(cells, |cells|) - 1
  {
    e := -1;
    for col := 0 to |cells|
      invariant e == TextEnd(cells, col) - 1
    {
      if Textual(cells, col) {
        e := col;
      }
    }
  }

  method ShouldErase(cells: seq<Cell>, fills: Fills, lastRendered: int, lastText: int) returns (erase: bool)
    requires lastRendered == RenderedEnd(cells, fills, |cells|) - 1 && lastText == TextEnd(cells, |cells|) - 1
    ensures erase <==> EndsInFill(cells, fills)
  {
    if lastRendered != |cells| - 1 {
      return false;
    }
    var first := lastText + 1;
    if first > lastRendered {
      return false;
    }
    var style := StyleAt(cells, fills, first);
    if style == PLAIN {
      return false;
    }
    for col := first to |cells|
      invariant forall k ::
                  first <= k < col ==> cells[k].width != 0 && !HasText(cells[k]) && StyleAt(cells, fills, k) == style
    {
      if cells[col].width == 0 || HasText(cells[col]) || StyleAt(cells, fills, col) != style {
        return false;
      }
    }
    return true;
  }

  // ----- playing a line on a blank row

  datatype Shown = Shown(text: seq<nat>, style: Style)

  /** A row on a terminal; erasing there keeps the whole style in force, or its colors only. */
  datatype Screen = Screen(row: seq<Shown>, cursor: nat, style: Style, colorsOnly: bool)

  function Erased(s: Style, colorsOnly: bool): Style {
    if colorsOnly then PLAIN.(foreground := s.foreground, background := s.background) else s
  }

  /** A cell is overwritten, the cursor goes on; erasing leaves blanks. */
  function Play(s: Screen, t: Token): Screen {
    match t
    case SelectStyle(parameters) => s.(style := ApplyStyle(s.style, parameters))
    case Glyph(text) => if s.cursor < |s.row| then
                          s.(row := s.row[s.cursor := Shown(text, s.style)], cursor := s.cursor + 1) else s
    case EraseRest =>
      s.(row := seq(|s.row|,
                    i requires 0 <= i < |s.row| => if i < s.cursor then s.row[i]
                                                   else Shown([SPACE], Erased(s.style, s.colorsOnly))))
  }

  function PlayAll(s: Screen, line: seq<Token>): Screen
    decreases |line|
  {
    if line == [] then s else PlayAll(Play(s, line[0]), line[1..])
  }

  function Blank(n: nat, colorsOnly: bool): Screen {
    Screen(seq(n, i => Shown([SPACE], PLAIN)), 0, PLAIN, colorsOnly)
  }

  /** The text of a cell, without the zeros that end it; a blank reads as a space. */
  function Spelled(chars: seq<nat>): seq<nat> {
    if chars == [] then [] else (if chars[0] == 0 then [] else [chars[0]]) + Spelled(chars[1..])
  }

  function Expected(cells: seq<Cell>, fills: Fills): (r: seq<Shown>)
    ensures |r| == |cells|
  {
    seq(|cells|, i requires 0 <= i < |cells| =>
      Shown(if HasText(cells[i]) then Spelled(cells[i].chars) else [SPACE], StyleAt(cells, fills, i)))
  }

  /** A row that can be printed faithfully: every code point can be written and no underline is curly. */
  predicate Faithful(cells: seq<Cell>, fills: Fills) {
    forall i ::
      0 <= i < |cells| ==> StyleAt(cells, fills, i).underline <= 2 && (HasText(cells[i]) ==> Writable(cells[i].chars))
  }

  predicate Writable(chars: seq<nat>) {
    forall c :: c in chars ==> c == 0 || !Skipped(c)
  }

  lemma {:induction false} WritesAll(chars: seq<nat>)
    requires Writable(chars)
    ensures Writes(chars) == Spelled(chars)
    ensures chars != [] && chars[0] != 0 ==> Writes(chars) != []
  {
    if chars != [] {
      assert forall c :: c in chars[1..] ==> c in chars;
      WritesAll(chars[1..]);
      assert chars[0] in chars;
    }
  }

  lemma {:induction false} PlayAppend(s: Screen, a: seq<Token>, b: seq<Token>)
    ensures PlayAll(s, a + b) == PlayAll(PlayAll(s, a), b)
    decreases |a|
  {
    hide Play;
    if a == [] {
      assert a + b == b;
    } else {
      assert (a + b)[1..] == a[1..] + b;
      PlayAppend(Play(s, a[0]), a[1..], b);
    }
  }

  lemma {:induction false} PlayOne(s: Screen, t: Token)
    ensures PlayAll(s, [t]) == Play(s, t)
  {
    hide Play;
    assert [t][1..] == [];
    assert PlayAll(Play(s, t), []) == Play(s, t);
  }

  lemma {:induction false} PlaySwitch(s: Screen, current: Style, style: Style)
    requires s.style == Settled(current)
    ensures PlayAll(s, Switch(current, style)) == s.(style := Settled(style))
  {
    hide ApplyStyle, StyleParameters;
    if style != current {
      PlayOne(s, SelectStyle(StyleParameters(style)));
      StyleSelected(s.style, style);
    }
  }

  predicate OneColumn(cells: seq<Cell>) {
    forall c :: c in cells ==> c.width == 1
  }

  /** The row after the cells below column k have been played. */
  ghost predicate PlayedTo(cells: seq<Cell>, fills: Fills, colorsOnly: bool, k: nat, s: Screen)
    requires k <= |cells|
  {
    && |s.row| == |cells| && s.cursor == k && s.colorsOnly == colorsOnly
    && forall i :: 0 <= i < |cells| ==> s.row[i] == if i < k then Expected(cells, fills)[i] else Shown([SPACE], PLAIN)
  }

  lemma {:induction false} PrintedPlays(cells: seq<Cell>, fills: Fills, colorsOnly: bool, k: nat)
    requires k <= |cells| && OneColumn(cells) && Faithful(cells, fills)
    ensures var (line, current) := PrintedTo(cells, fills, k);
            var s := PlayAll(Blank(|cells|, colorsOnly), line);
            PlayedTo(cells, fills, colorsOnly, k, s) && s.style == Settled(current)
  {
    hide ApplyStyle, StyleParameters, Writes, Spelled, Play, Effective, FillAt, PlayAll, GlyphOf;
    if k == 0 {
      PlayNothing(Blank(|cells|, colorsOnly));
    } else {
      PrintedPlays(cells, fills, colorsOnly, k - 1);
      var (line, current) := PrintedTo(cells, fills, k - 1);
      var style := StyleAt(cells, fills, k - 1);
      assert cells[k - 1] in cells;
      PlayThree(Blank(|cells|, colorsOnly), line, current, style, GlyphOf(cells[k - 1]));
      PlayCell(PlayAll(Blank(|cells|, colorsOnly), line).(style := Settled(style)), cells, fills, colorsOnly, k - 1);
    }
  }

  lemma {:induction false} PlayNothing(s: Screen)
    ensures PlayAll(s, []) == s
  {
  }

  lemma {:induction false} PlayThree(s: Screen, line: seq<Token>, current: Style, style: Style, more: seq<Token>)
    requires PlayAll(s, line).style == Settled(current)
    ensures PlayAll(s, line + Switch(current, style) + more)
              == PlayAll(PlayAll(s, line).(style := Settled(style)), more)
  {
    hide PlayAll, Play, Switch;
    PlayAppend(s, line + Switch(current, style), more);
    PlayAppend(s, line, Switch(current, style));
    PlaySwitch(PlayAll(s, line), current, style);
  }

  /** A faithful cell prints exactly one glyph. */
  lemma {:induction false} PlayCell(s: Screen, cells: seq<Cell>, fills: Fills, colorsOnly: bool, k: nat)
    requires k < |cells| && PlayedTo(cells, fills, colorsOnly, k, s) && Faithful(cells, fills)
             && s.style == Settled(StyleAt(cells, fills, k))
    ensures var s' := PlayAll(s, GlyphOf(cells[k]));
            PlayedTo(cells, fills, colorsOnly, k + 1, s') && s'.style == s.style
  {
    hide ApplyStyle, Effective, FillAt, PlayedTo, PlayAll, Play, Spelled, Writes;
    var c := cells[k];
    if HasText(c) {
      WritesAll(c.chars);
    }
    var text := if HasText(c) then Writes(c.chars) else [SPACE];
    assert GlyphOf(c) == [Glyph(text)];
    PlayOne(s, Glyph(text));
    assert Settled(StyleAt(cells, fills, k)) == StyleAt(cells, fills, k);
    assert Expected(cells, fills)[k] == Shown(text, s.style);
    CellShown(s, cells, fills, colorsOnly, k, text);
  }

  lemma {:induction false} CellShown(s: Screen, cells: seq<Cell>, fills: Fills, colorsOnly: bool, k: nat,
                                     text: seq<nat>)
    requires k < |cells| && PlayedTo(cells, fills, colorsOnly, k, s)
             && Expected(cells, fills)[k] == Shown(text, s.style)
    ensures var s' := Play(s, Glyph(text)); PlayedTo(cells, fills, colorsOnly, k + 1, s') && s'.style == s.style
  {
    hide Expected, ApplyStyle;
  }

  /** What playing the printed line on a blank row shows: every cell's text and style, except that a blank end that
      is erased instead of written may come out without its attributes. */
  function Replayed(cells: seq<Cell>, fills: Fills, allowErase: bool, colorsOnly: bool): (r: seq<Shown>)
    ensures |r| == |cells|
  {
    var t := TextEnd(cells, |cells|);
    seq(|cells|, i requires 0 <= i < |cells| =>
      if allowErase && EndsInFill(cells, fills) && t <= i then
        Shown([SPACE], Erased(StyleAt(cells, fills, t), colorsOnly))
      else Expected(cells, fills)[i])
  }

  lemma {:induction false} FaithfulReplay(cells: seq<Cell>, fills: Fills, allowErase: bool, colorsOnly: bool)
    requires OneColumn(cells) && Faithful(cells, fills)
    ensures var s := PlayAll(Blank(|cells|, colorsOnly), Line(cells, fills, allowErase));
            s.row == Replayed(cells, fills, allowErase, colorsOnly) && s.style == PLAIN
  {
    hide ApplyStyle, StyleParameters, Writes, Spelled, Play, PrintedTo, RenderedEnd, TextEnd, EndsInFill, GlyphOf;
    hide Effective, FillAt;
    var n := RenderedEnd(cells, fills, |cells|);
    var blank := Blank(|cells|, colorsOnly);
    if n == 0 {
      PlainTail(cells, fills, 0);
      EndsRendered(cells, fills);
      assert PlayAll(blank, []) == blank;
    } else {
      var t := TextEnd(cells, |cells|);
      var erase := allowErase && EndsInFill(cells, fills);
      var k := if erase then t else n;
      PrintedPlays(cells, fills, colorsOnly, k);
      var (line, current) := PrintedTo(cells, fills, k);
      var s := PlayAll(blank, line);
      if erase {
        ErasePlays(cells, fills, colorsOnly, s, line, current);
      } else {
        PlainTail(cells, fills, n);
        assert s.row == Expected(cells, fills);
        PlayAppend(blank, line, Switch(current, PLAIN));
        PlaySwitch(s, current, PLAIN);
        assert Switch(current, current) == [] && line + [] + [] == line;
      }
    }
  }

  lemma {:induction false} EndsRendered(cells: seq<Cell>, fills: Fills)
    ensures EndsInFill(cells, fills) ==> RenderedEnd(cells, fills, |cells|) > 0
  {
    hide RenderedEnd, TextEnd;
  }

  /** Cells behind the last one written are plain blanks. */
  lemma {:induction false} PlainTail(cells: seq<Cell>, fills: Fills, k: nat)
    requires OneColumn(cells) && k <= |cells| && RenderedEnd(cells, fills, |cells|) == k
    ensures forall i :: k <= i < |cells| ==> Expected(cells, fills)[i] == Shown([SPACE], PLAIN)
  {
    forall i | k <= i < |cells| ensures Expected(cells, fills)[i] == Shown([SPACE], PLAIN) {
      assert cells[i] in cells && !Rendered(cells, fills, i);
    }
  }

  lemma {:induction false} ErasePlays(cells: seq<Cell>, fills: Fills, colorsOnly: bool, s: Screen, line: seq<Token>,
                                      current: Style)
    requires EndsInFill(cells, fills) && Faithful(cells, fills) && RenderedEnd(cells, fills, |cells|) > 0
    requires var t := TextEnd(cells, |cells|);
             PrintedTo(cells, fills, t) == (line, current) && PlayedTo(cells, fills, colorsOnly, t, s)
             && s == PlayAll(Blank(|cells|, colorsOnly), line)
    requires s.style == Settled(current)
    ensures PlayAll(Blank(|cells|, colorsOnly), Line(cells, fills, true)).row
              == Replayed(cells, fills, true, colorsOnly)
    ensures PlayAll(Blank(|cells|, colorsOnly), Line(cells, fills, true)).style == PLAIN
  {
    hide ApplyStyle, StyleParameters, Writes, Spelled, PrintedTo, RenderedEnd, TextEnd, GlyphOf, Effective, FillAt;
    hide PlayAll, Play;
    var t := TextEnd(cells, |cells|);
    var fill := StyleAt(cells, fills, t);
    var blank := Blank(|cells|, colorsOnly);
    var a := line + Switch(current, fill);
    PlayAppend(blank, line, Switch(current, fill));
    PlaySwitch(s, current, fill);
    PlayAppend(blank, a, [EraseRest]);
    var s1 := s.(style := Settled(fill));
    PlayOne(s1, EraseRest);
    PlayAppend(blank, a + [EraseRest], Switch(fill, PLAIN));
    EraseShows(cells, fills, colorsOnly, s1);
    PlaySwitch(Play(s1, EraseRest), fill, PLAIN);
  }

  lemma {:induction false} EraseShows(cells: seq<Cell>, fills: Fills, colorsOnly: bool, s: Screen)
    requires EndsInFill(cells, fills) && Faithful(cells, fills)
             && PlayedTo(cells, fills, colorsOnly, TextEnd(cells, |cells|), s)
    requires s.style == Settled(StyleAt(cells, fills, TextEnd(cells, |cells|)))
    ensures Play(s, EraseRest).row == Replayed(cells, fills, true, colorsOnly) && Play(s, EraseRest).style == s.style
  {
    hide Effective, FillAt, Writes, Spelled;
  }

  /** Erasing the end loses nothing: the terminal keeps the whole style, or the style has colors only. */
  predicate EraseKeeps(cells: seq<Cell>, fills: Fills, colorsOnly: bool) {
    EndsInFill(cells, fills) ==>
      var fill := StyleAt(cells, fills, TextEnd(cells, |cells|)); Erased(fill, colorsOnly) == fill
  }

  lemma {:induction false} ReplayedExpected(cells: seq<Cell>, fills: Fills, allowErase: bool, colorsOnly: bool)
    ensures Replayed(cells, fills, allowErase, colorsOnly) == Expected(cells, fills)
            <==> !allowErase || EraseKeeps(cells, fills, colorsOnly)
  {
    hide Effective, FillAt, Spelled, Erased, RenderedEnd;
    var t := TextEnd(cells, |cells|);
    if allowErase && EndsInFill(cells, fills) {
      assert Replayed(cells, fills, allowErase, colorsOnly)[t].style == Erased(StyleAt(cells, fills, t), colorsOnly);
      assert Expected(cells, fills)[t].style == StyleAt(cells, fills, t);
    }
  }

  // ----- nothing else can be shown

  /** What a printed line can put on the screen at all. */
  predicate Clean(x: Shown) {
    x.style.underline <= 2 && forall c :: c in x.text ==> !Skipped(c)
  }

  ghost predicate CleanLine(line: seq<Token>) {
    forall t ::
      t in line ==>
        (t.Glyph? ==> forall c :: c in t.text ==> !Skipped(c))
        && (t.SelectStyle? ==> exists s :: t.parameters == StyleParameters(s))
  }

  lemma {:induction false} WritesClean(chars: seq<nat>)
    ensures forall c :: c in Writes(chars) ==> !Skipped(c)
  {
    if chars != [] {
      WritesClean(chars[1..]);
    }
  }

  lemma {:induction false} PrintedClean(cells: seq<Cell>, fills: Fills, k: nat)
    requires k <= |cells|
    ensures CleanLine(PrintedTo(cells, fills, k).0)
  {
    hide StyleParameters, Writes, Effective, FillAt;
    if k > 0 {
      PrintedClean(cells, fills, k - 1);
      WritesClean(cells[k - 1].chars);
    }
  }

  lemma {:induction false} PlayClean(s: Screen, line: seq<Token>)
    requires CleanLine(line) && s.style.underline <= 2 && forall x :: x in s.row ==> Clean(x)
    ensures var s' := PlayAll(s, line);
            |s'.row| == |s.row| && s'.style.underline <= 2 && forall x :: x in s'.row ==> Clean(x)
    decreases |line|
  {
    hide ApplyStyle, StyleParameters;
    if line != [] {
      var t := line[0];
      assert t in line && forall u :: u in line[1..] ==> u in line;
      if t.SelectStyle? {
        var style :| t.parameters == StyleParameters(style);
        StyleSelected(s.style, style);
      }
      StepClean(s, t);
      PlayClean(Play(s, t), line[1..]);
    }
  }

  lemma {:induction false} StepClean(s: Screen, t: Token)
    requires s.style.underline <= 2 && forall x :: x in s.row ==> Clean(x)
    requires t.Glyph? ==> forall c :: c in t.text ==> !Skipped(c)
    requires t.SelectStyle? ==> ApplyStyle(s.style, t.parameters).underline <= 2
    ensures var s' := Play(s, t); |s'.row| == |s.row| && s'.style.underline <= 2 && forall x :: x in s'.row ==> Clean(x)
  {
    hide ApplyStyle, Clean;
    var s' := Play(s, t);
    CleanShown([SPACE], Erased(s.style, s.colorsOnly));
    if t.Glyph? {
      CleanShown(t.text, s.style);
    }
    forall i | 0 <= i < |s'.row| ensures Clean(s'.row[i]) {
      assert s.row[i] in s.row;
    }
  }

  lemma {:induction false} CleanShown(text: seq<nat>, style: Style)
    requires style.underline <= 2 && forall c :: c in text ==> !Skipped(c)
    ensures Clean(Shown(text, style))
  {
  }

  /** A row is shown again exactly as it was if, and only if, it is faithful and its erased end, if it is erased,
      loses no attribute: the replacement character, curly underlines and attributes of blanks are what gets lost. */
  lemma {:induction false} ReplayIff(cells: seq<Cell>, fills: Fills, allowErase: bool, colorsOnly: bool)
    requires OneColumn(cells)
    ensures PlayAll(Blank(|cells|, colorsOnly), Line(cells, fills, allowErase)).row == Expected(cells, fills)
            <==> Faithful(cells, fills) && (!allowErase || EraseKeeps(cells, fills, colorsOnly))
  {
    hide ApplyStyle, StyleParameters, Writes, Play, PlayAll, PrintedTo, Effective, FillAt, Line, EndsInFill;
    hide EraseKeeps, Faithful, Blank, Replayed;
    if Faithful(cells, fills) {
      FaithfulReplay(cells, fills, allowErase, colorsOnly);
      ReplayedExpected(cells, fills, allowErase, colorsOnly);
    } else {
      LineClean(cells, fills, allowErase);
      CleanReplay(cells, fills, colorsOnly, Line(cells, fills, allowErase));
    }
  }

  /** Whatever clean line is played, a row that is not faithful does not appear. */
  lemma {:induction false} CleanReplay(cells: seq<Cell>, fills: Fills, colorsOnly: bool, line: seq<Token>)
    requires CleanLine(line) && !Faithful(cells, fills)
    ensures PlayAll(Blank(|cells|, colorsOnly), line).row != Expected(cells, fills)
  {
    hide ApplyStyle, StyleParameters, Writes, Play, PlayAll, Effective, FillAt, CleanLine;
    PlayClean(Blank(|cells|, colorsOnly), line);
    var row := PlayAll(Blank(|cells|, colorsOnly), line).row;
    if row == Expected(cells, fills) {
      forall i | 0 <= i < |cells|
        ensures StyleAt(cells, fills, i).underline <= 2 && (HasText(cells[i]) ==> Writable(cells[i].chars)) {
        assert row[i] in row;
        if HasText(cells[i]) {
          SpelledClean(cells[i].chars);
        }
      }
    }
  }

  lemma {:induction false} LineClean(cells: seq<Cell>, fills: Fills, allowErase: bool)
    ensures CleanLine(Line(cells, fills, allowErase))
  {
    hide StyleParameters, Writes, PrintedTo, EndsInFill, Effective, FillAt;
    var n, t := RenderedEnd(cells, fills, |cells|), TextEnd(cells, |cells|);
    PrintedClean(cells, fills, if allowErase && EndsInFill(cells, fills) then t else n);
  }

  lemma {:induction false} SpelledClean(chars: seq<nat>)
    requires forall c :: c in Spelled(chars) ==> !Skipped(c)
    ensures Writable(chars)
  {
    if chars != [] {
      var rest := Spelled(chars[1..]);
      assert forall c :: c in rest ==> c in Spelled(chars);
      SpelledClean(chars[1..]);
      assert chars[0] != 0 ==> chars[0] in Spelled(chars);
      assert forall c :: c in chars ==> c == chars[0] || c in chars[1..];
    }
  }
}
