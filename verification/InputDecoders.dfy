/** Telling typed text from commands in the input stream of the parent. */
module InputDecoders {
  import opened Wrappers
  import opened ByteStreams

  const PREFIX: Byte := 0x18

  datatype Navigation = NavUp | NavDown | NavRight | NavLeft | NavTab | NavBacktab | NavEnter

  datatype PaneAction =
    | PaneUp | PaneDown | PaneLeft | PaneRight
    | SplitAcross | SplitBelow | SelectOrSwap | PromoteNode | DescendNode
    | Grow | Shrink | Equalize | MoveNode | ConfirmMove | RotateLevel | Maximize | ClosePane

  datatype Command =
    | ToggleCommandMode
    | SwitchTray(number: nat)
    | ToggleOverlay
    | BeginAction(clear: bool)
    | Resolve(confirm: bool)
    | Navigate(navigation: Navigation)
    | Pane(action: PaneAction)

  /** Trays are numbered from one to nine. */
  predicate Allowed(c: Command) {
    c.SwitchTray? ==> 1 <= c.number <= 9
  }

  function NavigationByte(n: Navigation): Byte {
    match n
    case NavUp => 0x41
    case NavDown => 0x42
    case NavRight => 0x43
    case NavLeft => 0x44
    case NavTab => 0x49
    case NavBacktab => 0x5A
    case NavEnter => 0x4D
  }

  function ActionByte(a: PaneAction): Byte {
    match a
    case PaneUp => 0x69
    case PaneDown => 0x6B
    case PaneLeft => 0x6A
    case PaneRight => 0x6C
    case SplitAcross => 0x76
    case SplitBelow => 0x68
    case SelectOrSwap => 0x73
    case PromoteNode => 0x5B
    case DescendNode => 0x5D
    case Grow => 0x2B
    case Shrink => 0x2D
    case Equalize => 0x3D
    case MoveNode => 0x6D
    case ConfirmMove => 0x0D
    case RotateLevel => 0x74
    case Maximize => 0x7A
    case ClosePane => 0x78
  }

  function CommandByte(c: Command): Byte
    requires Allowed(c)
  {
    match c
    case ToggleCommandMode => 0x65
    case SwitchTray(number) => 0x30 + number
    case ToggleOverlay => 0x77
    case BeginAction(clear) => if clear then 0x63 else 0x72
    case Resolve(confirm) => if confirm then 0x79 else 0x6E
    case Navigate(navigation) => NavigationByte(navigation)
    case Pane(action) => ActionByte(action)
  }

  function DecodeCommand(b: Byte): Option<Command> {
    if 0x31 <= b <= 0x39 then Some(SwitchTray(b as int - 0x30))
    else if b == 0x65 then Some(ToggleCommandMode)
    else if b == 0x77 then Some(ToggleOverlay)
    else if b == 0x63 then Some(BeginAction(true))
    else if b == 0x72 then Some(BeginAction(false))
    else if b == 0x79 then Some(Resolve(true))
    else if b == 0x6E then Some(Resolve(false))
    else if b == 0x41 then Some(Navigate(NavUp))
    else if b == 0x42 then Some(Navigate(NavDown))
    else if b == 0x43 then Some(Navigate(NavRight))
    else if b == 0x44 then Some(Navigate(NavLeft))
    else if b == 0x49 then Some(Navigate(NavTab))
    else if b == 0x5A then Some(Navigate(NavBacktab))
    else if b == 0x4D then Some(Navigate(NavEnter))
    else if b == 0x69 then Some(Pane(PaneUp))
    else if b == 0x6B then Some(Pane(PaneDown))
    else if b == 0x6A then Some(Pane(PaneLeft))
    else if b == 0x6C then Some(Pane(PaneRight))
    else if b == 0x76 then Some(Pane(SplitAcross))
    else if b == 0x68 then Some(Pane(SplitBelow))
    else if b == 0x73 then Some(Pane(SelectOrSwap))
    else if b == 0x5B then Some(Pane(PromoteNode))
    else if b == 0x5D then Some(Pane(DescendNode))
    else if b == 0x2B then Some(Pane(Grow))
    else if b == 0x2D then Some(Pane(Shrink))
    else if b == 0x3D then Some(Pane(Equalize))
    else if b == 0x6D then Some(Pane(MoveNode))
    else if b == 0x0D then Some(Pane(ConfirmMove))
    else if b == 0x74 then Some(Pane(RotateLevel))
    else if b == 0x7A then Some(Pane(Maximize))
    else if b == 0x78 then Some(Pane(ClosePane))
    else None
  }

  /** Command bytes and commands determine each other. */
  lemma {:induction false} CommandBytes(c: Command, b: Byte)
    requires Allowed(c)
    ensures DecodeCommand(b) == Some(c) <==> CommandByte(c) == b
  {
    match c {
      case Navigate(n) => match n { case _ => }
      case Pane(a) => match a { case _ => }
      case _ =>
    }
  }

  lemma {:induction false} Decoded(b: Byte)
    requires DecodeCommand(b).Some?
    ensures Allowed(DecodeCommand(b).value) && CommandByte(DecodeCommand(b).value) == b
  {
    CommandBytes(DecodeCommand(b).value, b);
  }

  datatype Event = Literal(bytes: Bytes) | Issued(command: Command)

  // ----- reading the input byte by byte

  datatype Atom = Typed(byte: Byte) | Ordered(command: Command)

  /** What one byte adds, given whether a prefix is open before it. */
  function Here(open: bool, b: Byte): seq<Atom> {
    if !open then (if b == PREFIX then [] else [Typed(b)])
    else if DecodeCommand(b).Some? then [Ordered(DecodeCommand(b).value)] else [Typed(PREFIX), Typed(b)]
  }

  /** The input as single typed bytes and commands, starting with or without a prefix still open. */
  function Atoms(open: bool, s: Bytes): seq<Atom>
    decreases |s|
  {
    if s == [] then [] else Here(open, s[0]) + Atoms(!open && s[0] == PREFIX, s[1..])
  }

  function Open(open: bool, s: Bytes): bool
    decreases |s|
  {
    if s == [] then open else Open(!open && s[0] == PREFIX, s[1..])
  }

  /** Event lists that differ only in how typed bytes are grouped have the same atoms. */
  function Flatten(events: seq<Event>): seq<Atom> {
    if events == [] then []
    else (if events[0].Literal? then TypedAll(events[0].bytes) else [Ordered(events[0].command)]) + Flatten(events[1..])
  }

  function TypedAll(s: Bytes): (r: seq<Atom>)
    ensures |r| == |s|
  {
    seq(|s|, i requires 0 <= i < |s| => Typed(s[i]))
  }

  /** Typed bytes collected so far become an event, unless there are none. */
  function Flush(literal: Bytes): seq<Event> {
    if literal == [] then [] else [Literal(literal)]
  }

  /** How typed bytes are grouped: those typed in a row make one event, which a prefix or the end of the input
      closes; a prefix that leads to no command makes two events of its own. */
  function Grouped(open: bool, s: Bytes, literal: Bytes): seq<Event>
    decreases |s|
  {
    if s == [] then Flush(literal)
    else if open then
      (if DecodeCommand(s[0]).Some? then [Issued(DecodeCommand(s[0]).value)] else [Literal([PREFIX]), Literal([s[0]])])
      + Grouped(false, s[1..], literal)
    else if s[0] == PREFIX then Flush(literal) + Grouped(true, s[1..], [])
    else Grouped(false, s[1..], literal + [s[0]])
  }

  lemma {:induction false} GroupedEnd(open: bool, literal: Bytes)
    ensures Grouped(open, [], literal) == Flush(literal)
  {
  }

  lemma {:induction false} NothingTyped()
    ensures TypedAll([]) == []
  {
  }

  lemma {:induction false} TypedSnoc(literal: Bytes, b: Byte)
    ensures TypedAll(literal + [b]) == TypedAll(literal) + [Typed(b)]
  {
  }

  lemma {:induction false} HereTyped(b: Byte)
    ensures Here(false, b) == if b == PREFIX then [] else [Typed(b)]
  {
  }

  lemma {:induction false} GroupedStep(open: bool, s: Bytes, literal: Bytes)
    requires s != []
    ensures Grouped(open, s, literal) ==
              if open then
                (if DecodeCommand(s[0]).Some? then [Issued(DecodeCommand(s[0]).value)]
                 else [Literal([PREFIX]), Literal([s[0]])])
                + Grouped(false, s[1..], literal)
              else if s[0] == PREFIX then Flush(literal) + Grouped(true, s[1..], [])
              else Grouped(false, s[1..], literal + [s[0]])
  {
    hide DecodeCommand;
  }

  lemma {:induction false} FlushFlattens(literal: Bytes)
    ensures Flatten(Flush(literal)) == TypedAll(literal)
  {
    if literal != [] {
      assert Flush(literal)[1..] == [];
    } else {
      assert TypedAll(literal) == [];
    }
  }

  /** The events are the atoms of the input, however grouped, and no event is empty. */
  lemma {:induction false} GroupedFlattens(open: bool, s: Bytes, literal: Bytes)
    requires open ==> literal == []
    ensures Flatten(Grouped(open, s, literal)) == TypedAll(literal) + Atoms(open, s)
    ensures forall e :: e in Grouped(open, s, literal) ==> e.Literal? ==> e.bytes != []
    decreases |s|
  {
    hide DecodeCommand, Flatten, TypedAll, Grouped, Here;
    FlushFlattens(literal);
    NothingTyped();
    GroupedEnd(open, literal);
    if s == [] {
      return;
    }
    GroupedStep(open, s, literal);
    if open {
      GroupedFlattens(false, s[1..], []);
      var here := if DecodeCommand(s[0]).Some? then [Issued(DecodeCommand(s[0]).value)]
                  else [Literal([PREFIX]), Literal([s[0]])];
      FlattenAppend(here, Grouped(false, s[1..], []));
      BytesHere(s[0]);
    } else if s[0] == PREFIX {
      GroupedFlattens(true, s[1..], []);
      HereTyped(s[0]);
      FlattenAppend(Flush(literal), Grouped(true, s[1..], []));
    } else {
      GroupedFlattens(false, s[1..], literal + [s[0]]);
      TypedSnoc(literal, s[0]);
      HereTyped(s[0]);
    }
  }

  lemma {:induction false} BytesHere(b: Byte)
    ensures Flatten(if DecodeCommand(b).Some? then [Issued(DecodeCommand(b).value)]
                    else [Literal([PREFIX]), Literal([b])]) == Here(true, b)
  {
    hide DecodeCommand;
    var two := [Literal([PREFIX]), Literal([b])];
    assert two[1..] == [Literal([b])] && [Literal([b])][1..] == [];
    assert Flatten([Literal([b])]) == TypedAll([b]) + Flatten([]);
    assert Flatten(two) == TypedAll([PREFIX]) + Flatten([Literal([b])]);
    assert TypedAll([PREFIX]) == [Typed(PREFIX)] && TypedAll([b]) == [Typed(b)];
    if DecodeCommand(b).Some? {
      assert [Issued(DecodeCommand(b).value)][1..] == [];
    }
  }

  /** Splitting the input anywhere gives the same atoms. */
  lemma {:induction false} SplitAnywhere(open: bool, a: Bytes, b: Bytes)
    ensures Atoms(open, a + b) == Atoms(open, a) + Atoms(Open(open, a), b)
    ensures Open(open, a + b) == Open(Open(open, a), b)
    decreases |a|
  {
    hide Here;
    if a == [] {
      assert a + b == b;
    } else {
      assert (a + b)[1..] == a[1..] + b;
      SplitAnywhere(!open && a[0] == PREFIX, a[1..], b);
    }
  }

  function Written(atoms: seq<Atom>): Bytes
    requires forall a :: a in atoms ==> a.Ordered? ==> Allowed(a.command)
  {
    if atoms == [] then []
    else
      (if atoms[0].Typed? then [atoms[0].byte]
       else assert atoms[0] in atoms; [PREFIX, CommandByte(atoms[0].command)]) + Written(atoms[1..])
  }

  lemma {:induction false} AtomsAllowed(open: bool, s: Bytes)
    ensures forall a :: a in Atoms(open, s) ==> a.Ordered? ==> Allowed(a.command)
    decreases |s|
  {
    if s != [] {
      AtomsAllowed(!open && s[0] == PREFIX, s[1..]);
      HereWritten(open, s[0]);
    }
  }

  /** One byte is written as itself; an open prefix is written with the byte that closes it. */
  lemma {:induction false} HereWritten(open: bool, b: Byte)
    ensures forall a :: a in Here(open, b) ==> a.Ordered? ==> Allowed(a.command)
    ensures Written(Here(open, b)) + (if !open && b == PREFIX then [PREFIX] else [])
              == (if open then [PREFIX] else []) + [b]
  {
    if open && DecodeCommand(b).Some? {
      Decoded(b);
      var a := Ordered(DecodeCommand(b).value);
      assert [a][1..] == [] && Written([a]) == [PREFIX, CommandByte(a.command)] + Written([]);
    } else if open {
      var a := [Typed(PREFIX), Typed(b)];
      assert a[1..] == [Typed(b)] && a[1..][1..] == [] && Written(a) == [PREFIX] + Written(a[1..]);
    } else if b != PREFIX {
      assert [Typed(b)][1..] == [] && Written([Typed(b)]) == [b] + Written([]);
    }
  }

  /** Nothing is lost: writing the atoms out again, with a prefix still open at the end, gives the input back. */
  lemma {:induction false} Lossless(open: bool, s: Bytes)
    ensures forall a :: a in Atoms(open, s) ==> a.Ordered? ==> Allowed(a.command)
    ensures Written(Atoms(open, s)) + (if Open(open, s) then [PREFIX] else []) == (if open then [PREFIX] else []) + s
    decreases |s|
  {
    hide Here, Allowed, Written, Atoms;
    AtomsAllowed(open, s);
    NothingWritten();
    if s != [] {
      var next, rest := !open && s[0] == PREFIX, s[1..];
      AtomsStep(open, s);
      Lossless(next, rest);
      HereWritten(open, s[0]);
      WrittenStep(Here(open, s[0]), Atoms(next, rest));
      var tail: Bytes := if Open(open, s) then [PREFIX] else [];
      var gap: Bytes := if next then [PREFIX] else [];
      var front: Bytes := if open then [PREFIX] else [];
      Join(Written(Here(open, s[0])), Written(Atoms(next, rest)), tail, gap, rest, front + [s[0]]);
      assert front + s == front + [s[0]] + rest;
    }
  }

  lemma {:induction false} Join(a: Bytes, b: Bytes, tail: Bytes, gap: Bytes, rest: Bytes, front: Bytes)
    requires b + tail == gap + rest && a + gap == front
    ensures a + b + tail == front + rest
  {
    assert a + b + tail == a + (b + tail);
    assert a + (gap + rest) == (a + gap) + rest;
  }

  lemma {:induction false} NothingWritten()
    ensures Written([]) == []
    ensures forall open :: Atoms(open, []) == []
  {
  }

  lemma {:induction false} AtomsStep(open: bool, s: Bytes)
    requires s != []
    ensures Atoms(open, s) == Here(open, s[0]) + Atoms(!open && s[0] == PREFIX, s[1..])
  {
    hide Here;
  }

  lemma {:induction false} WrittenStep(a: seq<Atom>, b: seq<Atom>)
    requires forall x :: x in a + b ==> x.Ordered? ==> Allowed(x.command)
    ensures (forall x :: x in a ==> x.Ordered? ==> Allowed(x.command))
            && forall x :: x in b ==> x.Ordered? ==> Allowed(x.command)
    ensures Written(a + b) == Written(a) + Written(b)
  {
    assert forall x :: x in a ==> x in a + b;
    assert forall x :: x in b ==> x in a + b;
    if a == [] {
      assert a + b == b;
    } else {
      assert (a + b)[1..] == a[1..] + b;
      WrittenStep(a[1..], b);
    }
  }

  class InputDecoder {
    var open: bool              // a command byte is expected
    var pendingPrefix: Byte

    ghost predicate Valid()
      reads this
    {
      open ==> pendingPrefix == PREFIX
    }

    constructor ()
      ensures Valid() && !open
    {
      open, pendingPrefix := false, 0;
    }

    /** Turn a chunk of input into events. */
    method Consume(bytes: Bytes) returns (events: seq<Event>)
      requires Valid()
      modifies this
      ensures Valid()
      ensures events == Grouped(old(open), bytes, []) && open == Open(old(open), bytes)
    {
      events := [];
      var literal: Bytes := [];
      for i := 0 to |bytes|
        invariant Valid() && (open ==> literal == [])
        invariant Open(open, bytes[i..]) == Open(old(open), bytes)
        invariant events + Grouped(open, bytes[i..], literal) == Grouped(old(open), bytes, [])
      {
        assert bytes[i..][1..] == bytes[i + 1..];
        events, literal := Accept(bytes[i], events, literal, bytes[i..]);
      }
      events := Flushed(events, literal);
    }

    /** Take in one byte: typed bytes are collected, a finished command or a prefix that led to none is an event. */
    method Accept(byte: Byte, events: seq<Event>, literal: Bytes, ghost rest: Bytes) returns (e: seq<Event>, l: Bytes)
      requires Valid() && (open ==> literal == []) && rest != [] && rest[0] == byte
      modifies this
      ensures Valid() && open == (!old(open) && byte == PREFIX) && (open ==> l == [])
      ensures e + Grouped(open, rest[1..], l) == events + Grouped(old(open), rest, literal)
    {
      hide DecodeCommand, Grouped;
      GroupedStep(open, rest, literal);
      if !open {
        if byte == PREFIX {
          e := Flushed(events, literal);
          l := [];
          pendingPrefix := byte;
          open := true;
        } else {
          e, l := events, literal + [byte];
        }
        return;
      }
      l := [];
      var command := DecodeCommand(byte);
      if command.Some? {
        e := events + [Issued(command.value)];
      } else {
        e := events + [Literal([pendingPrefix])] + [Literal([byte])];
        assert e == events + [Literal([pendingPrefix]), Literal([byte])];
      }
      open := false;
    }

    /** The events with the typed bytes collected so far behind them. */
    method Flushed(events: seq<Event>, literal: Bytes) returns (r: seq<Event>)
      ensures r == events + Flush(literal)
    {
      if literal == [] {
        return events;
      }
      return events + [Literal(literal)];
    }
  }

  lemma {:induction false} FlattenAppend(a: seq<Event>, b: seq<Event>)
    ensures Flatten(a + b) == Flatten(a) + Flatten(b)
  {
    if a == [] {
      assert a + b == b;
    } else {
      assert (a + b)[1..] == a[1..] + b;
      FlattenAppend(a[1..], b);
    }
  }

  /** However input is cut into chunks, the events are the same up to the grouping of typed bytes, and written out
      again they are the input. */
  method ConsumeAll(chunks: seq<Bytes>) returns (events: seq<Event>, open: bool)
    ensures Flatten(events) == Atoms(false, Concat(chunks)) && open == Open(false, Concat(chunks))
    ensures forall a :: a in Flatten(events) ==> a.Ordered? ==> Allowed(a.command)
    ensures Written(Flatten(events)) + (if open then [PREFIX] else []) == Concat(chunks)
  {
    hide Atoms, Open, Written, Grouped;
    var decoder := new InputDecoder();
    events := [];
    SplitAnywhere(false, [], []);
    NoAtoms();
    for i := 0 to |chunks|
      invariant fresh(decoder) && decoder.Valid()
      invariant Flatten(events) == Atoms(false, Concat(chunks[..i])) && decoder.open == Open(false, Concat(chunks[..i]))
    {
      ghost var open := decoder.open;
      var more := decoder.Consume(chunks[i]);
      GroupedFlattens(open, chunks[i], []);
      NoneTyped(Atoms(open, chunks[i]));
      FlattenAppend(events, more);
      assert chunks[..i + 1][..i] == chunks[..i] && chunks[..i + 1][i] == chunks[i];
      SplitAnywhere(false, Concat(chunks[..i]), chunks[i]);
      events := events + more;
    }
    assert chunks[..|chunks|] == chunks;
    Lossless(false, Concat(chunks));
    open := decoder.open;
  }

  lemma {:induction false} NoneTyped(atoms: seq<Atom>)
    ensures TypedAll([]) + atoms == atoms
  {
  }

  lemma {:induction false} NoAtoms()
    ensures Atoms(false, []) == [] && !Open(false, [])
  {
  }
}
