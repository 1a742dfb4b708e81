/** Feeding program output to the terminal in chunks, and noticing the erase sequences in it. */
module TerminalScreens {
  import opened ByteStreams
  import opened Utf8Prefixes
  import opened ControlSequences
  import opened EraseScans

  /** One step of a scan, seen from the input that follows what has been fed already. */
  lemma {:induction false} ScanShift(p: Bytes, s: Bytes, i: nat)
    requires i <= |s|
    ensures var e, here := FindIntroducer(s, i), ScanChunk(p + s, |p| + i);
            if e == |s| then here == ChunkScan([], if i < |s| && s[|s| - 1] == ESCAPE then |p| + |s| - 1 else |p| + |s|)
            else
              && !Parse(s, e).NotIntroducer?
              && if Parse(s, e).Complete? then
                   var q := Parse(s, e).sequence;
                   var rest := ScanChunk(p + s, |p| + q.end);
                   && q.start == e && e + 2 < q.end <= |s| && IsFinal(s[q.end - 1])
                   && here == ChunkScan(Counted(q.(start := |p| + q.start, end := |p| + q.end)) + rest.found, rest.cut)
                 else if |s| - e > MAX_PENDING then here == ScanChunk(p + s, |p| + e + 1)
                 else here == ChunkScan([], |p| + e)
  {
    hide Parse, Counted, FindIntroducer, IntroducerAt, IsErase;
    var u, e := p + s, FindIntroducer(s, i);
    FindShift(p, s, i);
    ParseShift(p, s, e);
    if e < |s| {
      ParsedInside(s, e);
    } else if s != [] {
      assert u[|u| - 1] == s[|s| - 1];
    }
  }

  /** The scan that is to reach goal has come to position i, with these erases noticed. */
  ghost predicate Scanned(goal: Feed, u: Bytes, i: nat, erases: seq<ControlSequence>) {
    && i <= |u|
    && var rest := ScanChunk(u, i);
    && goal.fed == u[..rest.cut] && goal.control == u[rest.cut..]
    && goal.erases == erases + rest.found
  }

  /** The four ways a scan can go on, seen from the input that follows what has been fed already. */
  lemma {:induction false} ScanOn(goal: Feed, p: Bytes, s: Bytes, i: nat, erases: seq<ControlSequence>)
    requires i <= |s| && Scanned(goal, p + s, |p| + i, erases)
    ensures var e := FindIntroducer(s, i);
            if e == |s| then
              var cut := if i < |s| && s[|s| - 1] == ESCAPE then |s| - 1 else |s|;
              goal.fed == p + s[..cut] && goal.control == s[cut..] && goal.erases == erases
            else
              && !Parse(s, e).NotIntroducer?
              && if Parse(s, e).Complete? then
                   var q := Parse(s, e).sequence;
                   && q.start == e && e + 2 < q.end <= |s| && s[q.end - 1] != ESCAPE
                   && Scanned(goal, p + s, |p| + q.end,
                              if IsErase(q) then erases + [q.(start := |p| + q.start, end := |p| + q.end)] else erases)
                 else if |s| - e > MAX_PENDING then e + 1 < |s| && Scanned(goal, p + s, |p| + e + 1, erases)
                 else goal.fed == p + s[..e] && goal.control == s[e..] && goal.erases == erases
  {
    hide ScanChunk, Parse, FindIntroducer;
    var e := FindIntroducer(s, i);
    ScanShift(p, s, i);
    assert forall k: nat :: k <= |s| ==> (p + s)[..|p| + k] == p + s[..k] && (p + s)[|p| + k..] == s[k..];
    if e < |s| && Parse(s, e).Complete? {
      var q := Parse(s, e).sequence;
      var rest := ScanChunk(p + s, |p| + q.end);
      Assoc(erases, Counted(q.(start := |p| + q.start, end := |p| + q.end)), rest.found);
    }
  }

  lemma {:induction false} ScanStart(s: Feed, bytes: Bytes)
    ensures Scanned(Completed(s, bytes), s.fed + (s.control + bytes), |s.fed|, s.erases)
    ensures Completed(s, bytes).text == s.text
  {
    hide ScanChunk;
    assert s.fed + s.control + bytes == s.fed + (s.control + bytes);
  }

  class TerminalScreen {
    var fed: Bytes                     // what the terminal has been given
    var erases: seq<ControlSequence>   // where it has been told to erase, by position in the stream
    var pendingControl: Bytes
    var pendingUtf8: Bytes
    ghost var ingested: Bytes

    ghost predicate Valid()
      reads this
    {
      && fed + pendingControl + pendingUtf8 == ingested
      && |pendingControl| <= MAX_PENDING && |pendingUtf8| <= 3
      && LeftOver(pendingControl)
      && CompletePrefix(ingested) == |fed + pendingControl| && CompletePrefix(pendingUtf8) == 0
    }

    ghost function State(): Feed
      reads this
    {
      Feed(fed, pendingControl, pendingUtf8, erases)
    }

    constructor ()
      ensures Valid() && ingested == [] && State() == Feed([], [], [], [])
    {
      fed, erases, pendingControl, pendingUtf8, ingested := [], [], [], [], [];
    }

    method FeedInput(bytes: Bytes)
      modifies this`fed
      ensures fed == old(fed) + bytes
    {
      fed := fed + bytes;
    }

    method RecordErase(q: ControlSequence)
      modifies this`erases
      ensures erases == old(erases) + [q]
    {
      erases := erases + [q];
    }

    /** Pass on whole characters; what may still be part of one is kept for the next chunk. */
    method Ingest(bytes: Bytes)
      requires Valid()
      modifies this
      ensures Valid() && ingested == old(ingested) + bytes
      ensures State() == Fed(old(State()), bytes)
    {
      hide ScanChunk, Parse, LeftOver, CompletePrefix, Completed;
      ghost var before, whole, was := fed + pendingControl, ingested + bytes, State();
      var input := pendingUtf8 + bytes;
      WholePrefix(before, pendingUtf8, bytes);
      assert whole == before + input;
      pendingUtf8 := [];
      var completeSize := CompletePrefixSize(input);
      ghost var rest := HeldBack(input);
      PrefixStops(input);
      CutInput(before, input, completeSize);
      CompletedText(was, [], input[..completeSize]);
      CompletedKeeps(State(), input[..completeSize]);
      if completeSize > 0 {
        IngestCompleteInput(input[..completeSize]);
      } else {
        Idle(State());
      }
      if completeSize < |input| {
        pendingUtf8 := input[completeSize..];
      }
      ingested := whole;
    }

    /** Pass on a control sequence in one piece and notice where the terminal is told to erase. */
    method IngestCompleteInput(bytes: Bytes)
      modifies this`fed, this`erases, this`pendingControl
      ensures State() == Completed(old(State()), bytes)
    {
      hide Scanned, Completed, Parse, FindIntroducer;
      var input := pendingControl + bytes;
      ghost var start, goal := fed, Completed(State(), bytes);
      ScanStart(State(), bytes);
      pendingControl := [];
      var segmentStart := 0;
      var scanStart := 0;
      while scanStart < |input|
        invariant 0 <= segmentStart <= scanStart <= |input|
        invariant pendingControl == [] && fed == start + input[..segmentStart]
        invariant Scanned(goal, start + input, |start| + scanStart, erases)
        invariant Terminated(input, scanStart)
      {
        var escapeStart := FindEscape(input, scanStart);
        ScanOn(goal, start, input, scanStart, erases);
        if escapeStart == |input| {
          break;
        }
        var parsed := ParseControlSequence(input, escapeStart);
        if parsed.Incomplete? {
          if |input| - escapeStart > MAX_PENDING {
            scanStart := escapeStart + 1;
            continue;
          }
          KeepFrom(input, segmentStart, escapeStart, start);
          return;
        }
        var sequence := parsed.sequence;
        if !IsErase(sequence) {
          scanStart := sequence.end;
          continue;
        }
        TakeErase(input, segmentStart, sequence, start);
        segmentStart := sequence.end;
        scanStart := sequence.end;
      }
      ScanOn(goal, start, input, scanStart, erases);
      if segmentStart < |input| && input[|input| - 1] == ESCAPE {
        KeepFrom(input, segmentStart, |input| - 1, start);
        return;
      }
      KeepFrom(input, segmentStart, |input|, start);
    }

    /** Feed what precedes an erase sequence, look at the cursor, feed the sequence, and note where the cursor was. */
    method TakeErase(input: Bytes, segmentStart: nat, q: ControlSequence, ghost start: Bytes)
      requires segmentStart <= q.start <= q.end <= |input| && fed == start + input[..segmentStart]
      modifies this`fed, this`erases
      ensures fed == start + input[..q.end]
      ensures erases == old(erases) + [q.(start := |start| + q.start, end := |start| + q.end)]
    {
      FeedInput(input[segmentStart..q.start]);
      assert input[..segmentStart] + input[segmentStart..q.start] == input[..q.start];
      var cursorAt := |fed|;
      FeedInput(input[q.start..q.end]);
      assert input[..q.start] + input[q.start..q.end] == input[..q.end];
      RecordErase(q.(start := cursorAt, end := |fed|));
    }

    /** Feed the input up to a position and keep what follows. */
    method KeepFrom(input: Bytes, segmentStart: nat, cut: nat, ghost start: Bytes)
      requires segmentStart <= cut <= |input| && fed == start + input[..segmentStart]
      modifies this`fed, this`pendingControl
      ensures fed == start + input[..cut] && pendingControl == input[cut..]
    {
      FeedInput(input[segmentStart..cut]);
      pendingControl := input[cut..];
      assert input[..segmentStart] + input[segmentStart..cut] == input[..cut];
    }
  }

  lemma {:induction false} CutInput(before: Bytes, input: Bytes, n: nat)
    requires n <= |input|
    ensures before + input[..n] + input[n..] == before + input && |before + input[..n]| == |before| + n
    ensures n == 0 ==> before + input[..n] == before
    ensures n == |input| ==> input[n..] == []
  {
    assert input[..n] + input[n..] == input;
  }

  /** The text held back plays no part in scanning what is whole. */
  lemma {:induction false} CompletedText(s: Feed, text: Bytes, bytes: Bytes)
    ensures Completed(s.(text := text), bytes) == Completed(s, bytes).(text := text)
  {
  }

  lemma {:induction false} CompletedKeeps(s: Feed, bytes: Bytes)
    ensures var r := Completed(s, bytes);
            && r.fed + r.control == s.fed + s.control + bytes
            && |r.control| <= MAX_PENDING && LeftOver(r.control)
  {
    hide ScanChunk, LeftOver;
    CutLeftOver(s.fed + s.control + bytes, |s.fed|);
  }

  /** Without new input nothing happens. */
  lemma {:induction false} Idle(s: Feed)
    requires LeftOver(s.control) && |s.control| <= MAX_PENDING
    ensures Completed(s, []) == s
  {
    var u := s.fed + s.control;
    assert u + [] == u && u[..|s.fed|] == s.fed && u[|s.fed|..] == s.control;
    FindShift(s.fed, s.control, 0);
    ScanShift(s.fed, s.control, 0);
    assert s.erases + [] == s.erases;
  }

  /** The byte before a scan position ends a sequence, is an escape that is scanned over, or there is none. */
  predicate Terminated(input: Bytes, i: nat)
  {
    i <= |input| && (i == 0 || i < |input| || input[i - 1] != ESCAPE)
  }

  method FindEscape(input: Bytes, from: nat) returns (e: nat)
    requires from <= |input|
    ensures e == FindIntroducer(input, from)
  {
    e := from;
    while e < |input| && !(e + 1 < |input| && input[e] == ESCAPE && input[e + 1] == BRACKET)
      invariant from <= e <= |input| && FindIntroducer(input, from) == FindIntroducer(input, e)
    {
      e := e + 1;
    }
  }

  /** The prefix of everything ingested is what was passed on before and the prefix of the new input. */
  lemma {:induction false} WholePrefix(passed: Bytes, held: Bytes, bytes: Bytes)
    requires CompletePrefix(passed + held) == |passed|
    ensures CompletePrefix(passed + held + bytes) == |passed| + CompletePrefix(held + bytes)
  {
    ChunkIndependent(passed + held, bytes);
    assert (passed + held)[|passed|..] == held;
  }

  lemma {:induction false} PrefixStops(s: Bytes)
    ensures CompletePrefix(s[CompletePrefix(s)..]) == 0
  {
    ChunkIndependent(s, []);
    assert s + [] == s && s[CompletePrefix(s)..] + [] == s[CompletePrefix(s)..];
  }

  /** However the output is cut into chunks, the terminal has been given the same bytes in the same order, up to
      what is still held back. The recorded erases are those of the whole stream, each with the cursor read when
      exactly the bytes before it had been given, if the stream is robust; if it is not, some other way of cutting it
      gives other erases. */
  method IngestAll(chunks: seq<Bytes>) returns (screen: TerminalScreen)
    ensures fresh(screen) && screen.Valid() && screen.State() == After(chunks)
    ensures var all := Concat(chunks);
            && screen.fed + screen.pendingControl == Passed(all) && screen.pendingUtf8 == all[|Passed(all)|..]
            && |screen.pendingControl| <= MAX_PENDING && |screen.pendingUtf8| <= 3
            && (Robust(all, 0) ==> screen.erases == Scan(Passed(all), 0))
            && (!Robust(all, 0) ==>
                  exists other: seq<Bytes> :: Concat(other) == all && After(other).erases != screen.erases)
  {
    hide Scan, ScanChunk, CompletePrefix, LeftOver, Fed, Robust;
    screen := new TerminalScreen();
    for i := 0 to |chunks|
      invariant fresh(screen) && screen.Valid() && screen.ingested == Concat(chunks[..i])
                && screen.State() == After(chunks[..i])
    {
      screen.Ingest(chunks[i]);
      assert chunks[..i + 1][..i] == chunks[..i] && chunks[..i + 1][i] == chunks[i];
    }
    assert chunks[..|chunks|] == chunks;
    ghost var all, passed := Concat(chunks), screen.fed + screen.pendingControl;
    assert all == passed + screen.pendingUtf8 && all[..|all|] == all;
    assert all[..|passed|] == passed && all[|passed|..] == screen.pendingUtf8;
    if Robust(all, 0) {
      RobustSound(chunks);
    } else {
      ghost var other := OtherErases(all, screen.erases);
    }
  }

  /** A stream that is not robust can be read in two ways, so in one that differs from any given. */
  lemma {:induction false} OtherErases(all: Bytes, erases: seq<ControlSequence>) returns (other: seq<Bytes>)
    requires !Robust(all, 0)
    ensures Concat(other) == all && After(other).erases != erases
  {
    hide Scan, After, Robust, Passed;
    NothingYet();
    assert all[..0] == [];
    other := Differently(all, 0, []);
    if After(other).erases == erases {
      other := Finish(all, 0, []);
    }
  }
}
