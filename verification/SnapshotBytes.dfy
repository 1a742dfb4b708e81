/** The bytes of a printed row, and what a terminal makes of them. */
module SnapshotBytes {
  import opened ByteStreams
  import opened Utf8Prefixes
  import opened ControlSequences
  import opened SnapshotLines

  const SEPARATOR: Byte := 0x3B
  const SELECT_STYLE: Byte := 0x6D
  const ERASE_LINE: Byte := 0x4B

  // ----- writing

  function Digits(n: nat): (d: Bytes)
    ensures d != [] && forall b :: b in d ==> 0x30 <= b <= 0x39
  {
    if n < 10 then [0x30 + n] else Digits(n / 10) + [0x30 + n % 10]
  }

  function Parameters(ps: seq<nat>): Bytes {
    if ps == [] then []
    else if |ps| == 1 then Digits(ps[0])
    else Parameters(ps[..|ps| - 1]) + [SEPARATOR] + Digits(ps[|ps| - 1])
  }

  function SpellToken(t: Token): Bytes {
    match t
    case SelectStyle(parameters) => [ESCAPE, BRACKET] + Parameters(parameters) + [SELECT_STYLE]
    case Glyph(text) => EncodeAll(text)
    case EraseRest => [ESCAPE, BRACKET, ERASE_LINE]
  }

  function SpellLine(line: seq<Token>): Bytes {
    if line == [] then [] else SpellToken(line[0]) + SpellLine(line[1..])
  }

  lemma {:induction false} SpellAppend(a: seq<Token>, b: seq<Token>)
    ensures SpellLine(a + b) == SpellLine(a) + SpellLine(b)
  {
    hide SpellToken;
    if a == [] {
      assert a + b == b;
    } else {
      assert (a + b)[1..] == a[1..] + b;
      SpellAppend(a[1..], b);
    }
  }

  lemma {:induction false} SpellOne(t: Token)
    ensures SpellLine([t]) == SpellToken(t)
  {
    hide SpellToken;
    assert [t][1..] == [];
    assert SpellToken(t) + [] == SpellToken(t);
  }

  lemma {:induction false} SpellMore(line: seq<Token>, t: Token)
    ensures SpellLine(line + [t]) == SpellLine(line) + SpellToken(t)
  {
    hide SpellToken, SpellLine;
    SpellAppend(line, [t]);
    SpellOne(t);
  }

  /** The sequence that selects a style. */
  method SgrSequence(style: Style) returns (sequence: Bytes)
    ensures sequence == SpellToken(SelectStyle(StyleParameters(style)))
  {
    hide StyleParameters, Digits;
    if style == PLAIN {
      PlainParameters();
      return [ESCAPE, BRACKET, 0x30, SELECT_STYLE];
    }
    var parameters := StyleParameters(style);
    sequence := [ESCAPE, BRACKET];
    for index := 0 to |parameters|
      invariant sequence == [ESCAPE, BRACKET] + Parameters(parameters[..index])
    {
      if index > 0 {
        sequence := sequence + [SEPARATOR];
      }
      assert parameters[..index + 1][..index] == parameters[..index];
      sequence := sequence + Digits(parameters[index]);
    }
    assert parameters[..|parameters|] == parameters;
    sequence := sequence + [SELECT_STYLE];
  }

  lemma {:induction false} PlainParameters()
    ensures StyleParameters(PLAIN) == [0] && Parameters([0]) == [0x30]
  {
  }

  method AppendCellText(line: Bytes, c: Cell) returns (r: Bytes)
    ensures r == line + SpellLine(GlyphOf(c))
  {
    hide Encode, EncodeAll, Writes, SpellLine, SpellToken;
    CellSpelled(c);
    if !HasText(c) {
      return line + [0x20];
    }
    r := line;
    var i := 0;
    while i < |c.chars|
      invariant 0 <= i <= |c.chars| && r + EncodeAll(Writes(c.chars[i..])) == line + EncodeAll(Writes(c.chars))
    {
      assert c.chars[i..][1..] == c.chars[i + 1..];
      WritesStep(c.chars[i..]);
      r := AppendUtf8(r, c.chars[i]);
      i := i + 1;
    }
    assert c.chars[i..] == [];
    NothingWritten();
    assert r + [] == r;
  }

  lemma {:induction false} NothingWritten()
    ensures EncodeAll(Writes([])) == []
  {
  }

  lemma {:induction false} CellSpelled(c: Cell)
    ensures SpellLine(GlyphOf(c)) == if HasText(c) then EncodeAll(Writes(c.chars)) else [0x20]
  {
    hide Writes;
    var text := if HasText(c) then Writes(c.chars) else [SPACE];
    if text == [] {
      assert EncodeAll(text) == [];
    } else {
      SpellOne(Glyph(text));
    }
    assert [SPACE][1..] == [] && EncodeAll([SPACE]) == Encode(SPACE) + EncodeAll([]);
  }

  lemma {:induction false} WritesStep(chars: seq<nat>)
    requires chars != []
    ensures EncodeAll(Writes(chars)) == Encode(chars[0]) + EncodeAll(Writes(chars[1..]))
  {
    var rest := Writes(chars[1..]);
    if Skipped(chars[0]) {
      assert [] + rest == rest;
    } else {
      assert ([chars[0]] + rest)[1..] == rest;
    }
  }

  /** Print a row. */
  method RenderLine(cells: seq<Cell>, fills: Fills, allowErase: bool) returns (line: Bytes)
    ensures line == SpellLine(Line(cells, fills, allowErase))
  {
    hide StyleParameters, Effective, Writes, SpellLine, SpellToken, GlyphOf;
    var lastRendered := LastRendered(cells, fills);
    line := [];
    NothingSpelled();
    if lastRendered < 0 {
      return;
    }
    var lastText := LastText(cells);
    var erase := ShouldErase(cells, fills, lastRendered, lastText);
    erase := allowErase && erase;
    var end := if erase then lastText + 1 else lastRendered + 1;
    var current := PLAIN;
    ghost var tokens := [];
    for col := 0 to end
      invariant (tokens, current) == PrintedTo(cells, fills, col) && line == SpellLine(tokens)
    {
      if cells[col].width != 0 {
        var next := StyleAt(cells, fills, col);
        line := SwitchTo(line, current, next, tokens);
        tokens := tokens + Switch(current, next);
        current := next;
        SpellAppend(tokens, GlyphOf(cells[col]));
        line := AppendCellText(line, cells[col]);
        tokens := tokens + GlyphOf(cells[col]);
      }
    }
    if erase {
      var fill := StyleAt(cells, fills, lastText + 1);
      line := SwitchTo(line, current, fill, tokens);
      tokens := tokens + Switch(current, fill);
      current := fill;
      SpellMore(tokens, EraseRest);
      EraseSpelled();
      line := line + [ESCAPE, BRACKET, ERASE_LINE];
      tokens := tokens + [EraseRest];
    }
    assert tokens + [] == tokens;
    line := SwitchTo(line, current, PLAIN, tokens);
  }

  lemma {:induction false} EraseSpelled()
    ensures SpellToken(EraseRest) == [ESCAPE, BRACKET, ERASE_LINE]
  {
  }

  lemma {:induction false} NothingSpelled()
    ensures SpellLine([]) == []
  {
  }

  /** Select a style unless it is selected already. */
  method SwitchTo(line: Bytes, current: Style, style: Style, ghost tokens: seq<Token>) returns (r: Bytes)
    requires line == SpellLine(tokens)
    ensures r == SpellLine(tokens + Switch(current, style))
  {
    hide StyleParameters, SpellLine, SpellToken;
    assert tokens + [] == tokens;
    if style == current {
      return line;
    }
    SpellMore(tokens, SelectStyle(StyleParameters(style)));
    var sequence := SgrSequence(style);
    return line + sequence;
  }

  // ----- reading

  /** Control characters show nothing. */
  predicate Control(c: nat) {
    c < 0x20 || 0x7F <= c <= 0x9F
  }

  datatype Heard = Sgr(parameters: seq<nat>) | Erase | Character(code: nat)

  /** Decimal numbers between separators, the first of which has begun already. */
  function Numbers(s: Bytes, value: nat): seq<nat> {
    if s == [] then [value]
    else if s[0] == SEPARATOR then [value] + Numbers(s[1..], 0)
    else if 0x30 <= s[0] <= 0x39 then Numbers(s[1..], value * 10 + (s[0] as int - 0x30))
    else Numbers(s[1..], value)
  }

  function HearSequence(parameters: Bytes, command: Byte): seq<Heard> {
    if command == SELECT_STYLE then [Sgr(Numbers(parameters, 0))]
    else if command == ERASE_LINE && parameters == [] then [Erase]
    else []
  }

  function HearCharacter(s: Bytes): seq<Heard>
    requires MultiByte(s) || (|s| == 1 && s[0] < 0x80)
  {
    if Control(Utf8Prefixes.Decode(s)) then [] else [Character(Utf8Prefixes.Decode(s))]
  }

  /** What a terminal makes of bytes: control sequences and characters; other sequences and malformed bytes are
      passed over. */
  function Hear(s: Bytes): seq<Heard>
    decreases |s|
  {
    if s == [] then []
    else if IntroducerAt(s, 0) then
      var f := FindFinal(s, 2);
      if f == |s| then [] else HearSequence(s[2..f], s[f]) + Hear(s[f + 1..])
    else
      var n := SequenceLength(s[0]);
      if n <= |s| && (MultiByte(s[..n]) || (n == 1 && s[0] < 0x80)) then HearCharacter(s[..n]) + Hear(s[n..])
      else Hear(s[1..])
  }

  function Characters(text: seq<nat>): (hs: seq<Heard>)
    ensures |hs| == |text|
  {
    seq(|text|, i requires 0 <= i < |text| => Character(text[i]))
  }

  function HeardOf(t: Token): seq<Heard> {
    match t
    case SelectStyle(parameters) => [Sgr(parameters)]
    case Glyph(text) => Characters(text)
    case EraseRest => [Erase]
  }

  function HeardAll(line: seq<Token>): seq<Heard> {
    if line == [] then [] else HeardOf(line[0]) + HeardAll(line[1..])
  }

  lemma {:induction false} NumbersDigits(n: nat, rest: Bytes)
    ensures Numbers(Digits(n) + rest, 0) == Numbers(rest, n)
  {
    if n < 10 {
      assert (Digits(n) + rest)[1..] == rest;
    } else {
      var last: Bytes := [0x30 + n % 10];
      assert Digits(n) + rest == Digits(n / 10) + (last + rest);
      NumbersDigits(n / 10, last + rest);
      assert (last + rest)[1..] == rest;
      assert n / 10 * 10 + n % 10 == n;
    }
  }

  /** Reading a parameter list gives the parameters back. */
  lemma {:induction false} NumbersParameters(ps: seq<nat>, rest: Bytes)
    requires ps != []
    ensures Numbers(Parameters(ps) + rest, 0) == ps[..|ps| - 1] + Numbers(rest, ps[|ps| - 1])
  {
    hide Digits, Numbers;
    var n := |ps| - 1;
    if n == 0 {
      NumbersDigits(ps[0], rest);
      assert ps[..0] + Numbers(rest, ps[0]) == Numbers(rest, ps[0]);
    } else {
      var digits := Digits(ps[n]) + rest;
      assert Parameters(ps) + rest == Parameters(ps[..n]) + ([SEPARATOR] + digits);
      NumbersParameters(ps[..n], [SEPARATOR] + digits);
      NumbersSeparator(digits, ps[n - 1]);
      NumbersDigits(ps[n], rest);
      assert ps[..n][..n - 1] + ([ps[n - 1]] + Numbers(rest, ps[n])) == ps[..n] + Numbers(rest, ps[n]);
    }
  }

  lemma {:induction false} NumbersSeparator(s: Bytes, value: nat)
    ensures Numbers([SEPARATOR] + s, value) == [value] + Numbers(s, 0)
    ensures Numbers([], value) == [value]
  {
    assert ([SEPARATOR] + s)[1..] == s;
  }

  lemma {:induction false} ParametersRead(ps: seq<nat>)
    requires ps != []
    ensures Numbers(Parameters(ps), 0) == ps
    ensures forall b :: b in Parameters(ps) ==> !IsFinal(b)
  {
    hide Digits, Numbers, Parameters;
    NumbersParameters(ps, []);
    NumbersSeparator([], ps[|ps| - 1]);
    assert Parameters(ps) + [] == Parameters(ps);
    assert ps[..|ps| - 1] + [ps[|ps| - 1]] == ps;
    ParametersOpen(ps);
  }

  lemma {:induction false} ParametersOpen(ps: seq<nat>)
    ensures forall b :: b in Parameters(ps) ==> !IsFinal(b)
  {
    hide Digits;
    if |ps| > 1 {
      ParametersOpen(ps[..|ps| - 1]);
    }
  }

  /** A control sequence is heard whole. */
  lemma {:induction false} SequenceHeard(parameters: Bytes, command: Byte, rest: Bytes)
    requires IsFinal(command) && forall b :: b in parameters ==> !IsFinal(b)
    ensures Hear([ESCAPE, BRACKET] + parameters + [command] + rest) == HearSequence(parameters, command) + Hear(rest)
  {
    hide HearSequence;
    var s := [ESCAPE, BRACKET] + parameters + [command] + rest;
    var f := 2 + |parameters|;
    forall k | 2 <= k < f ensures !IsFinal(s[k]) {
      assert s[k] == parameters[k - 2];
    }
    FindFinalIs(s, 2, f);
    assert s[2..f] == parameters && s[f] == command && s[f + 1..] == rest;
  }

  /** A written character is heard whole. */
  lemma {:induction false} CharacterHeard(c: nat, rest: Bytes)
    requires !Skipped(c) && !Control(c)
    ensures Hear(Encode(c) + rest) == [Character(c)] + Hear(rest)
  {
    hide Encode, Utf8Prefixes.Decode, MultiByte;
    var e := Encode(c);
    EncodeDecode(c);
    LeadByte(c);
    var s := e + rest;
    assert s[..|e|] == e && s[|e|..] == rest && s[0] == e[0];
  }

  lemma {:induction false} LeadByte(c: nat)
    requires !Skipped(c) && !Control(c)
    ensures var e := Encode(c); e != [] && |e| == SequenceLength(e[0]) && e[0] != ESCAPE
  {
  }

  lemma {:induction false} TextHeard(text: seq<nat>, rest: Bytes)
    requires forall c :: c in text ==> !Skipped(c) && !Control(c)
    ensures Hear(EncodeAll(text) + rest) == Characters(text) + Hear(rest)
  {
    hide Encode, Hear, Skipped, Control;
    if text == [] {
      assert EncodeAll(text) + rest == rest;
      assert Characters(text) + Hear(rest) == Hear(rest);
    } else {
      var more := EncodeAll(text[1..]) + rest;
      assert EncodeAll(text) + rest == Encode(text[0]) + more;
      CharacterHeard(text[0], more);
      TextHeard(text[1..], rest);
      assert Characters(text) == [Character(text[0])] + Characters(text[1..]);
    }
  }

  /** A token that can be heard as it was meant. */
  predicate Plain(t: Token) {
    match t
    case SelectStyle(parameters) => parameters != []
    case Glyph(text) => forall c :: c in text ==> !Skipped(c) && !Control(c)
    case EraseRest => true
  }

  lemma {:induction false} TokenHeard(t: Token, rest: Bytes)
    requires Plain(t)
    ensures Hear(SpellToken(t) + rest) == HeardOf(t) + Hear(rest)
  {
    hide Hear, Parameters, EncodeAll, Numbers;
    match t {
      case SelectStyle(parameters) =>
        ParametersRead(parameters);
        SequenceHeard(Parameters(parameters), SELECT_STYLE, rest);
        assert SpellToken(t) + rest == [ESCAPE, BRACKET] + Parameters(parameters) + [SELECT_STYLE] + rest;
      case Glyph(text) =>
        TextHeard(text, rest);
      case EraseRest =>
        SequenceHeard([], ERASE_LINE, rest);
        assert SpellToken(t) + rest == [ESCAPE, BRACKET] + [] + [ERASE_LINE] + rest;
    }
  }

  /** What is written is what is heard. */
  lemma {:induction false} LineHeard(line: seq<Token>)
    requires forall t :: t in line ==> Plain(t)
    ensures Hear(SpellLine(line)) == HeardAll(line)
  {
    hide SpellToken, HeardOf, Plain;
    if line != [] {
      TokenHeard(line[0], SpellLine(line[1..]));
      LineHeard(line[1..]);
    }
  }

  // ----- characters that join the one before

  /** One past the last of the characters from position i on that all join. */
  function JoinRun(hs: seq<Heard>, i: nat, joins: nat -> bool): (k: nat)
    requires i <= |hs|
    ensures i <= k <= |hs| && forall j :: i <= j < k ==> hs[j].Character?
    decreases |hs| - i
  {
    if i < |hs| && hs[i].Character? && joins(hs[i].code) then JoinRun(hs, i + 1, joins) else i
  }

  function Codes(hs: seq<Heard>): seq<nat> {
    seq(|hs|, i requires 0 <= i < |hs| => if hs[i].Character? then hs[i].code else 0)
  }

  /** A character that does not join begins a cell; those that join go into it. */
  function Glued(hs: seq<Heard>, joins: nat -> bool): seq<Token>
    decreases |hs|
  {
    if hs == [] then []
    else match hs[0]
      case Sgr(parameters) => [SelectStyle(parameters)] + Glued(hs[1..], joins)
      case Erase => [EraseRest] + Glued(hs[1..], joins)
      case Character(_) =>
        var k := JoinRun(hs, 1, joins);
        [Glyph(Codes(hs[..k]))] + Glued(hs[k..], joins)
  }

  /** The text of one cell: a character that does not join, and characters that do. */
  predicate IsCluster(text: seq<nat>, joins: nat -> bool) {
    text != [] && !joins(text[0]) && forall i :: 1 <= i < |text| ==> joins(text[i])
  }

  predicate BeginsCell(hs: seq<Heard>, joins: nat -> bool) {
    hs == [] || !hs[0].Character? || !joins(hs[0].code)
  }

  lemma {:induction false} JoinRunIs(hs: seq<Heard>, i: nat, k: nat, joins: nat -> bool)
    requires i <= k <= |hs| && (forall j :: i <= j < k ==> hs[j].Character? && joins(hs[j].code))
             && BeginsCell(hs[k..], joins)
    ensures JoinRun(hs, i, joins) == k
    decreases k - i
  {
    if i < k {
      JoinRunIs(hs, i + 1, k, joins);
    } else if k < |hs| {
      assert hs[k..][0] == hs[k];
    }
  }

  predicate Whole(t: Token, joins: nat -> bool) {
    t.Glyph? ==> IsCluster(t.text, joins)
  }

  lemma {:induction false} GluedToken(t: Token, rest: seq<Heard>, joins: nat -> bool)
    requires Whole(t, joins) && BeginsCell(rest, joins)
    ensures Glued(HeardOf(t) + rest, joins) == [t] + Glued(rest, joins) && BeginsCell(HeardOf(t) + rest, joins)
  {
    var hs := HeardOf(t) + rest;
    if t.Glyph? {
      var k := |t.text|;
      assert hs[k..] == rest && hs[..k] == Characters(t.text);
      JoinRunIs(hs, 1, k, joins);
      assert Codes(Characters(t.text)) == t.text;
    } else {
      assert hs[1..] == rest;
    }
  }

  lemma {:induction false} GluedLine(line: seq<Token>, joins: nat -> bool)
    requires forall t :: t in line ==> Whole(t, joins)
    ensures Glued(HeardAll(line), joins) == line && BeginsCell(HeardAll(line), joins)
  {
    hide Whole, HeardOf;
    if line != [] {
      GluedLine(line[1..], joins);
      GluedToken(line[0], HeardAll(line[1..]), joins);
    }
  }

  ghost predicate CleanHeard(h: Heard) {
    && (h.Character? ==> !Skipped(h.code))
    && (h.Sgr? ==> exists s :: h.parameters == StyleParameters(s))
  }

  lemma {:induction false} HeardClean(line: seq<Token>)
    requires CleanLine(line)
    ensures forall h :: h in HeardAll(line) ==> CleanHeard(h)
  {
    hide StyleParameters, Skipped;
    if line != [] {
      assert line[0] in line && forall t :: t in line[1..] ==> t in line;
      HeardClean(line[1..]);
    }
  }

  /** However characters are joined, nothing shows that has not been written. */
  lemma {:induction false} GluedClean(hs: seq<Heard>, joins: nat -> bool)
    requires forall h :: h in hs ==> CleanHeard(h)
    ensures CleanLine(Glued(hs, joins))
    decreases |hs|
  {
    hide StyleParameters, Skipped, JoinRun;
    if hs != [] {
      assert hs[0] in hs;
      var k := if hs[0].Character? then JoinRun(hs, 1, joins) else 1;
      assert forall h :: h in hs[k..] ==> h in hs;
      GluedClean(hs[k..], joins);
      if hs[0].Character? {
        CodesClean(hs[..k], hs);
      }
    }
  }

  lemma {:induction false} CodesClean(part: seq<Heard>, hs: seq<Heard>)
    requires part <= hs && forall h :: h in hs ==> CleanHeard(h)
    ensures (forall i :: 0 <= i < |part| ==> part[i].Character?) ==> forall c :: c in Codes(part) ==> !Skipped(c)
  {
    hide StyleParameters, Skipped;
    forall i | 0 <= i < |part| ensures CleanHeard(part[i]) {
      assert part[i] == hs[i] && hs[i] in hs;
    }
  }

  // ----- whole rows

  /** Tokens of a printed row. */
  ghost predicate FromRow(t: Token, cells: seq<Cell>) {
    match t
    case SelectStyle(parameters) => exists s :: parameters == StyleParameters(s)
    case Glyph(text) => exists i :: 0 <= i < |cells| && GlyphOf(cells[i]) == [t]
    case EraseRest => true
  }

  lemma {:induction false} PrintedFrom(cells: seq<Cell>, fills: Fills, k: nat)
    requires k <= |cells|
    ensures forall t :: t in PrintedTo(cells, fills, k).0 ==> FromRow(t, cells)
  {
    hide StyleParameters, GlyphOf, Effective, FillAt, FromRow;
    if k > 0 {
      PrintedFrom(cells, fills, k - 1);
      var (line, current) := PrintedTo(cells, fills, k - 1);
      SwitchFrom(current, StyleAt(cells, fills, k - 1), cells);
      GlyphFrom(cells, k - 1);
    }
  }

  lemma {:induction false} SwitchFrom(current: Style, style: Style, cells: seq<Cell>)
    ensures forall t :: t in Switch(current, style) ==> FromRow(t, cells)
  {
    hide StyleParameters;
  }

  lemma {:induction false} GlyphFrom(cells: seq<Cell>, i: nat)
    requires i < |cells|
    ensures forall t :: t in GlyphOf(cells[i]) ==> FromRow(t, cells)
  {
    hide Writes;
  }

  lemma {:induction false} LineFrom(cells: seq<Cell>, fills: Fills, allowErase: bool)
    ensures forall t :: t in Line(cells, fills, allowErase) ==> FromRow(t, cells)
  {
    hide StyleParameters, GlyphOf, Effective, FillAt, FromRow, PrintedTo, RenderedEnd, TextEnd, Switch;
    var n := RenderedEnd(cells, fills, |cells|);
    if n > 0 {
      var t := TextEnd(cells, |cells|);
      var erase := allowErase && EndsInFill(cells, fills);
      var k := if erase then t else n;
      PrintedFrom(cells, fills, k);
      var (line, current) := PrintedTo(cells, fills, k);
      var fill := if erase then StyleAt(cells, fills, t) else current;
      SwitchFrom(current, fill, cells);
      SwitchFrom(fill, PLAIN, cells);
      EraseFrom(cells);
    }
  }

  lemma {:induction false} EraseFrom(cells: seq<Cell>)
    ensures FromRow(EraseRest, cells)
  {
  }

  /** The text of every cell is a character and those that join it, none of them a control character. A blank
      does not join. */
  predicate Legible(cells: seq<Cell>, joins: nat -> bool) {
    && !joins(SPACE)
    && forall c :: c in cells && HasText(c) ==>
         IsCluster(Spelled(c.chars), joins) && forall code :: code in c.chars ==> Skipped(code) || !Control(code)
  }

  lemma {:induction false} WritesSome(chars: seq<nat>)
    ensures forall c :: c in Writes(chars) ==> c in chars && !Skipped(c)
  {
    if chars != [] {
      WritesSome(chars[1..]);
    }
  }

  lemma {:induction false} LinePlain(cells: seq<Cell>, fills: Fills, allowErase: bool, joins: nat -> bool)
    requires Legible(cells, joins)
    ensures forall t :: t in Line(cells, fills, allowErase) ==> Plain(t)
  {
    hide Line, Writes, Spelled, IsCluster, Skipped, Control, Legible;
    LineFrom(cells, fills, allowErase);
    forall t | t in Line(cells, fills, allowErase) ensures Plain(t) {
      if t.SelectStyle? {
        StyleNamed(t.parameters);
      } else if t.Glyph? {
        var i :| 0 <= i < |cells| && GlyphOf(cells[i]) == [t];
        CellPlain(cells, i, joins);
      }
    }
  }

  lemma {:induction false} StyleNamed(parameters: seq<nat>)
    requires exists s :: parameters == StyleParameters(s)
    ensures parameters != []
  {
  }

  lemma {:induction false} CellPlain(cells: seq<Cell>, i: nat, joins: nat -> bool)
    requires i < |cells| && Legible(cells, joins)
    ensures forall t :: t in GlyphOf(cells[i]) ==> Plain(t)
  {
    hide Writes, Spelled, IsCluster;
    assert cells[i] in cells;
    WritesSome(cells[i].chars);
  }

  lemma {:induction false} LineWhole(cells: seq<Cell>, fills: Fills, allowErase: bool, joins: nat -> bool)
    requires Legible(cells, joins) && Faithful(cells, fills)
    ensures forall t :: t in Line(cells, fills, allowErase) ==> Whole(t, joins)
  {
    hide Line, Writes, Spelled, IsCluster, Skipped, Control, Legible, StyleParameters, Faithful;
    LineFrom(cells, fills, allowErase);
    forall t | t in Line(cells, fills, allowErase) ensures Whole(t, joins) {
      if t.Glyph? {
        var i :| 0 <= i < |cells| && GlyphOf(cells[i]) == [t];
        CellWhole(cells, fills, i, joins);
        assert t in GlyphOf(cells[i]);
      }
    }
  }

  lemma {:induction false} CellWhole(cells: seq<Cell>, fills: Fills, i: nat, joins: nat -> bool)
    requires i < |cells| && Legible(cells, joins) && Faithful(cells, fills)
    ensures forall t :: t in GlyphOf(cells[i]) ==> Whole(t, joins)
  {
    hide Writes, Spelled, Effective, FillAt;
    assert cells[i] in cells;
    if HasText(cells[i]) {
      WritesAll(cells[i].chars);
    }
  }

  /** The bytes of a printed row, heard by a terminal with a blank row, show the row again exactly as it was if, and
      only if, it is faithful and its erased end, if it is erased, loses no attribute. */
  lemma {:induction false} BytesReplayIff(cells: seq<Cell>, fills: Fills, allowErase: bool, colorsOnly: bool,
                                          joins: nat -> bool)
    requires OneColumn(cells) && Legible(cells, joins)
    ensures var line := Glued(Hear(SpellLine(Line(cells, fills, allowErase))), joins);
            PlayAll(Blank(|cells|, colorsOnly), line).row == Expected(cells, fills)
            <==> Faithful(cells, fills) && (!allowErase || EraseKeeps(cells, fills, colorsOnly))
  {
    hide Line, Hear, Glued, SpellLine, PlayAll, Legible, Faithful, EraseKeeps, Expected, Blank, CleanHeard, CleanLine;
    var line := Line(cells, fills, allowErase);
    LinePlain(cells, fills, allowErase, joins);
    LineHeard(line);
    if Faithful(cells, fills) {
      LineWhole(cells, fills, allowErase, joins);
      GluedLine(line, joins);
      ReplayIff(cells, fills, allowErase, colorsOnly);
    } else {
      LineClean(cells, fills, allowErase);
      HeardClean(line);
      GluedClean(HeardAll(line), joins);
      CleanReplay(cells, fills, colorsOnly, Glued(HeardAll(line), joins));
    }
  }
}
