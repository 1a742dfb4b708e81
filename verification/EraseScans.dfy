/** Looking for erase sequences in a byte stream that arrives in chunks, and when the chunks matter. */
module EraseScans {
  import opened Wrappers
  import opened ByteStreams
  import opened Utf8Prefixes
  import opened ControlSequences

  const MAX_PENDING: nat := 128

  function Counted(q: ControlSequence): seq<ControlSequence> {
    if IsErase(q) then [q] else []
  }

  /** The erase sequences of a stream from position i on, where each control sequence starts behind the one before. */
  ghost function Scan(s: Bytes, i: nat): seq<ControlSequence>
    requires i <= |s|
    decreases |s| - i
  {
    var e := FindIntroducer(s, i);
    if e == |s| then []
    else
      var r := Parse(s, e);
      if !r.Complete? then [] else Counted(r.sequence) + Scan(s, r.sequence.end)
  }

  datatype ChunkScan = ChunkScan(found: seq<ControlSequence>, cut: nat)

  /** One pass over what is there: the erases found, and from where on input is kept for the next chunk.
      A sequence that has not ended after 128 bytes is given up and scanned through. */
  ghost function ScanChunk(s: Bytes, i: nat): (r: ChunkScan)
    requires i <= |s|
    ensures i <= r.cut <= |s|
    decreases |s| - i
  {
    var e := FindIntroducer(s, i);
    if e == |s| then ChunkScan([], if i < |s| && s[|s| - 1] == ESCAPE then |s| - 1 else |s|)
    else
      var r := Parse(s, e);
      if r.Complete? then
        var rest := ScanChunk(s, r.sequence.end);
        ChunkScan(Counted(r.sequence) + rest.found, rest.cut)
      else if |s| - e > MAX_PENDING then ScanChunk(s, e + 1)
      else ChunkScan([], e)
  }

  /** What a terminal has been given, what is held back for a control sequence and for a character, and the
      erases noticed so far, by position in the stream. */
  datatype Feed = Feed(fed: Bytes, control: Bytes, text: Bytes, erases: seq<ControlSequence>)

  ghost function Completed(s: Feed, bytes: Bytes): Feed {
    var u := s.fed + s.control + bytes;
    var r := ScanChunk(u, |s.fed|);
    Feed(u[..r.cut], u[r.cut..], s.text, s.erases + r.found)
  }

  ghost function Fed(s: Feed, bytes: Bytes): Feed {
    var input := s.text + bytes;
    var n := CompletePrefix(input);
    Completed(s, input[..n]).(text := input[n..])
  }

  ghost function After(chunks: seq<Bytes>): Feed {
    if chunks == [] then Feed([], [], [], [])
    else Fed(After(chunks[..|chunks| - 1]), chunks[|chunks| - 1])
  }

  /** What may be left over: nothing, a lone escape, or a control sequence without its end. */
  predicate LeftOver(s: Bytes) {
    s == [] || s == [ESCAPE] || (IntroducerAt(s, 0) && Parse(s, 0).Incomplete?)
  }

  // ----- the parts of a stream

  function Whole(all: Bytes, b: nat): (n: nat)
    requires b <= |all|
    ensures n <= b
  {
    CompletePrefix(all[..b])
  }

  /** All of a stream that is passed on. */
  function Passed(all: Bytes): Bytes {
    all[..Whole(all, |all|)]
  }

  /** The state when b bytes have arrived and p bytes have been given to the terminal. */
  ghost function StateAt(all: Bytes, b: nat, p: nat, erases: seq<ControlSequence>): Feed
    requires b <= |all| && p <= Whole(all, b)
  {
    Feed(all[..p], all[p..Whole(all, b)], all[Whole(all, b)..b], erases)
  }

  lemma {:induction false} WholeGrows(all: Bytes, b: nat, c: nat)
    requires b <= c <= |all|
    ensures Whole(all, c) == Whole(all, b) + CompletePrefix(all[Whole(all, b)..c])
    ensures Whole(all, b) <= Whole(all, c)
  {
    hide CompletePrefix;
    ChunkIndependent(all[..b], all[b..c]);
    assert all[..b] + all[b..c] == all[..c];
    assert all[..b][Whole(all, b)..] + all[b..c] == all[Whole(all, b)..c];
  }

  /** A step moves the arrival position on and scans what has become whole. */
  lemma {:induction false} FedAt(all: Bytes, b: nat, p: nat, erases: seq<ControlSequence>, c: nat)
    requires b <= c <= |all| && p <= Whole(all, b)
    ensures Whole(all, b) <= Whole(all, c)
    ensures var r := ScanChunk(all[..Whole(all, c)], p);
            Fed(StateAt(all, b, p, erases), all[b..c]) == StateAt(all, c, r.cut, erases + r.found)
  {
    hide ScanChunk, CompletePrefix;
    WholeGrows(all, b, c);
    var s, n, m := StateAt(all, b, p, erases), Whole(all, b), Whole(all, c);
    assert s.text + all[b..c] == all[n..c];
    assert s.fed + s.control + all[n..c][..m - n] == all[..m];
    var r := ScanChunk(all[..m], p);
    assert all[..m][..r.cut] == all[..r.cut] && all[..m][r.cut..] == all[r.cut..m];
    assert all[n..c][m - n..] == all[m..c];
  }

  lemma {:induction false} CutLeftOver(s: Bytes, i: nat)
    requires i <= |s|
    ensures LeftOver(s[ScanChunk(s, i).cut..]) && |s| - ScanChunk(s, i).cut <= MAX_PENDING
    decreases |s| - i
  {
    var e := FindIntroducer(s, i);
    if e < |s| {
      var r := Parse(s, e);
      if r.Complete? {
        CutLeftOver(s, r.sequence.end);
      } else if |s| - e > MAX_PENDING {
        CutLeftOver(s, e + 1);
      } else {
        assert s == s[..e] + s[e..];
        ParseShift(s[..e], s[e..], 0);
      }
    } else if i < |s| && s[|s| - 1] == ESCAPE {
      assert s[|s| - 1..] == [ESCAPE];
    }
  }

  ghost predicate Settled(all: Bytes, b: nat, p: nat) {
    && b <= |all| && p <= Whole(all, b)
    && Whole(all, b) - p <= MAX_PENDING
    && LeftOver(all[p..Whole(all, b)])
  }

  /** Every state a stream of chunks leads to. */
  lemma {:induction false} AfterAt(all: Bytes, b: nat, chunks: seq<Bytes>)
    requires b <= |all| && Concat(chunks) == all[..b]
    ensures Settled(all, b, |After(chunks).fed|)
    ensures After(chunks) == StateAt(all, b, |After(chunks).fed|, After(chunks).erases)
  {
    hide ScanChunk, CompletePrefix, LeftOver;
    if chunks == [] {
      assert b == 0 && LeftOver([]) by { NothingLeft(); }
      assert all[0..0] == [];
    } else {
      var before, last := chunks[..|chunks| - 1], chunks[|chunks| - 1];
      var a := |Concat(before)|;
      assert all[..b][..a] == Concat(before) && all[..b][a..] == last;
      AfterAt(all, a, before);
      var p := |After(before).fed|;
      assert all[a..b] == last;
      FedAt(all, a, p, After(before).erases, b);
      var s := all[..Whole(all, b)];
      CutLeftOver(s, p);
      assert s[ScanChunk(s, p).cut..] == all[ScanChunk(s, p).cut..Whole(all, b)];
    }
  }

  lemma {:induction false} NothingLeft()
    ensures LeftOver([])
  {
  }

  // ----- when the chunks do not matter

  /** Some chunk can end inside the sequence after it has gone on for more than 128 bytes. */
  ghost predicate Cuttable(all: Bytes, q: ControlSequence) {
    exists b: nat :: b <= |all| && q.start + MAX_PENDING < Whole(all, b) < q.end
  }

  /** A sequence may be closed by the bracket of another introducer. */
  predicate Reopens(s: Bytes, q: ControlSequence)
    requires q.start + 2 < q.end <= |s|
  {
    s[q.end - 2] == ESCAPE && s[q.end - 1] == BRACKET
  }

  /** Where the search goes on for one that has given up on the sequence. */
  function Resume(s: Bytes, q: ControlSequence): (i: nat)
    requires q.start + 2 < q.end <= |s|
    ensures q.start < i <= q.end
  {
    if Reopens(s, q) then q.end - 2 else q.end
  }

  /** Every sequence on the way that can be cut is no erase, and if another introducer closes it, reading on
      from that introducer finds the same erases. */
  ghost predicate Robust(all: Bytes, i: nat)
    requires i <= |Passed(all)|
    decreases |Passed(all)| - i
  {
    var s := Passed(all);
    var e := FindIntroducer(s, i);
    e < |s| && Parse(s, e).Complete? ==>
      var q := Parse(s, e).sequence;
      && Robust(all, q.end)
      && (Cuttable(all, q) ==>
            !IsErase(q) && Robust(all, Resume(s, q)) && Scan(s, Resume(s, q)) == Scan(s, q.end))
  }

  /** Nothing starts between i and j. */
  lemma {:induction false} ScanSkip(s: Bytes, i: nat, j: nat)
    requires i <= j <= |s| && forall k :: i <= k < j ==> !IntroducerAt(s, k)
    ensures FindIntroducer(s, i) == FindIntroducer(s, j) && Scan(s, i) == Scan(s, j)
  {
    var e := FindIntroducer(s, j);
    FindIntroducerIs(s, i, e);
  }

  lemma {:induction false} RobustSkip(all: Bytes, i: nat, j: nat)
    requires i <= j <= |Passed(all)| && forall k :: i <= k < j ==> !IntroducerAt(Passed(all), k)
    ensures Robust(all, i) <==> Robust(all, j)
    ensures Scan(Passed(all), i) == Scan(Passed(all), j)
  {
    ScanSkip(Passed(all), i, j);
  }

  /** Inside a sequence nothing starts before its end, except that its end may be another introducer's bracket. */
  lemma {:induction false} NothingInside(s: Bytes, e: nat, k: nat)
    requires IntroducerAt(s, e) && e < k && IntroducerAt(s, k)
    ensures Parse(s, e).Complete? && e + 2 < Parse(s, e).sequence.end <= |s|
    ensures k >= Resume(s, Parse(s, e).sequence)
  {
    assert IsFinal(s[k + 1]);
    assert k >= e + 2;
  }

  lemma {:induction false} ParsedInside(s: Bytes, e: nat)
    requires IntroducerAt(s, e)
    ensures !Parse(s, e).NotIntroducer?
    ensures Parse(s, e).Complete? ==>
              var q := Parse(s, e).sequence;
              q.start == e && e + 2 < q.end <= |s| && IsFinal(s[q.end - 1])
              && forall k :: e + 2 <= k < q.end - 1 ==> !IsFinal(s[k])
    ensures Parse(s, e).Incomplete? ==> forall k :: e + 2 <= k < |s| ==> !IsFinal(s[k])
  {
  }

  /** Giving up on a sequence is reading on from where it resumes. */
  lemma {:induction false} GiveUp(all: Bytes, e: nat)
    requires e < |Passed(all)| && IntroducerAt(Passed(all), e)
    ensures var s := Passed(all);
            if Parse(s, e).Complete? then
              var q := Parse(s, e).sequence;
              && q.start == e && e + 2 < q.end <= |s|
              && (Robust(all, e + 1) <==> Robust(all, Resume(s, q))) && Scan(s, e + 1) == Scan(s, Resume(s, q))
            else Robust(all, e + 1) && Scan(s, e + 1) == []
  {
    hide Robust, Scan;
    var s := Passed(all);
    ParsedInside(s, e);
    var j := if Parse(s, e).Complete? then Resume(s, Parse(s, e).sequence) else |s|;
    forall k | e + 1 <= k < j ensures !IntroducerAt(s, k) {
      if IntroducerAt(s, k) {
        NothingInside(s, e, k);
      }
    }
    RobustSkip(all, e + 1, j);
    AtTheEnd(all);
  }

  lemma {:induction false} AtTheEnd(all: Bytes)
    ensures Robust(all, |Passed(all)|) && Scan(Passed(all), |Passed(all)|) == []
  {
  }

  // ----- the part of the stream that has become whole

  lemma {:induction false} PrefixFinds(s: Bytes, n: nat, i: nat)
    requires i <= n <= |s| && FindIntroducer(s[..n], i) < n
    ensures FindIntroducer(s, i) == FindIntroducer(s[..n], i)
    ensures Parse(s[..n], FindIntroducer(s, i)).Complete? ==>
              Parse(s, FindIntroducer(s, i)) == Parse(s[..n], FindIntroducer(s, i))
  {
    var e := FindIntroducer(s[..n], i);
    assert s == s[..n] + s[n..];
    assert forall k :: 0 <= k < e ==> (IntroducerAt(s, k) <==> IntroducerAt(s[..n], k));
    FindIntroducerIs(s, i, e);
    if Parse(s[..n], e).Complete? {
      ParseStable(s[..n], s[n..], e);
    }
  }

  /** Nothing starts before a trailing escape. */
  lemma {:induction false} PrefixLacks(s: Bytes, n: nat, i: nat, k: nat)
    requires i <= k < n <= |s| && FindIntroducer(s[..n], i) == n
    requires k < n - 1 || s[n - 1] != ESCAPE
    ensures !IntroducerAt(s, k)
  {
    assert !IntroducerAt(s[..n], k);
  }

  /** Reading on behind a complete sequence. */
  lemma {:induction false} TakeOn(all: Bytes, i: nat, e: nat)
    requires i <= |Passed(all)| && e == FindIntroducer(Passed(all), i) < |Passed(all)|
    requires Parse(Passed(all), e).Complete?
    ensures var q := Parse(Passed(all), e).sequence;
            && e + 2 < q.end <= |Passed(all)|
            && (Robust(all, i) ==> Robust(all, q.end))
            && Scan(Passed(all), i) == Counted(q) + Scan(Passed(all), q.end)
  {
    hide CompletePrefix, Passed, Counted;
  }

  /** Giving up on a sequence that can be cut changes nothing in a robust stream. */
  lemma {:induction false} GiveUpRobust(all: Bytes, b: nat, i: nat, e: nat)
    requires b <= |all| && i <= e < Whole(all, b) <= |Passed(all)| && Robust(all, i)
    requires e == FindIntroducer(Passed(all), i) && IntroducerAt(Passed(all)[..Whole(all, b)], e)
    requires Parse(Passed(all)[..Whole(all, b)], e).Incomplete? && Whole(all, b) - e > MAX_PENDING
    ensures Robust(all, e + 1) && Scan(Passed(all), e + 1) == Scan(Passed(all), i)
  {
    hide CompletePrefix, Passed, Parse, Whole;
    var s := Passed(all);
    assert s[..Whole(all, b)][e] == s[e] && s[..Whole(all, b)][e + 1] == s[e + 1];
    GiveUp(all, e);
    if Parse(s, e).Complete? {
      EndsLater(s, Whole(all, b), e);
      assert Cuttable(all, Parse(s, e).sequence);
    }
  }

  /** However much has become whole, a robust stream loses nothing to the scan of it. */
  lemma {:induction false} StepRobust(all: Bytes, b: nat, i: nat)
    requires b <= |all| && i <= Whole(all, b) <= |Passed(all)| && Robust(all, i)
    ensures var r := ScanChunk(Passed(all)[..Whole(all, b)], i);
            Robust(all, r.cut) && r.found + Scan(Passed(all), r.cut) == Scan(Passed(all), i)
    decreases |Passed(all)| - i
  {
    hide CompletePrefix, Passed, Parse, Whole, Robust, Scan, Counted;
    var s, n := Passed(all), Whole(all, b);
    var t := s[..n];
    var e := FindIntroducer(t, i);
    if e == n {
      var cut := ScanChunk(t, i).cut;
      forall k | i <= k < cut ensures !IntroducerAt(s, k) {
        PrefixLacks(s, n, i, k);
      }
      RobustSkip(all, i, cut);
    } else {
      PrefixFinds(s, n, i);
      ParsedInside(t, e);
      if Parse(t, e).Complete? {
        TakeOn(all, i, e);
        StepRobust(all, b, Parse(t, e).sequence.end);
      } else if n - e > MAX_PENDING {
        GiveUpRobust(all, b, i, e);
        StepRobust(all, b, e + 1);
      } else {
        RobustSkip(all, i, e);
      }
    }
  }

  lemma {:induction false} EndsLater(s: Bytes, n: nat, e: nat)
    requires n <= |s| && IntroducerAt(s[..n], e) && Parse(s[..n], e).Incomplete? && Parse(s, e).Complete?
    ensures Parse(s, e).sequence.end > n
  {
    ParsedInside(s[..n], e);
    ParsedInside(s, e);
  }

  lemma {:induction false} PassedPrefix(all: Bytes, b: nat)
    requires b <= |all|
    ensures Whole(all, b) <= |Passed(all)| && Passed(all)[..Whole(all, b)] == all[..Whole(all, b)]
  {
    hide CompletePrefix;
    WholeGrows(all, b, |all|);
  }

  lemma {:induction false} LastChunk(all: Bytes, b: nat, chunks: seq<Bytes>) returns (a: nat, before: seq<Bytes>)
    requires b <= |all| && Concat(chunks) == all[..b] && chunks != []
    ensures a <= b && Concat(before) == all[..a] && |before| < |chunks|
    ensures After(chunks) == Fed(After(before), all[a..b])
  {
    hide Fed;
    before := chunks[..|chunks| - 1];
    a := |Concat(before)|;
    assert all[..b][..a] == Concat(before) && all[..b][a..] == chunks[|chunks| - 1];
    assert all[a..b] == all[..b][a..];
  }

  lemma {:induction false} RobustRun(all: Bytes, b: nat, chunks: seq<Bytes>)
    requires b <= |all| && Concat(chunks) == all[..b] && Robust(all, 0)
    ensures |After(chunks).fed| <= Whole(all, b) <= |Passed(all)| && Robust(all, |After(chunks).fed|)
    ensures After(chunks).erases + Scan(Passed(all), |After(chunks).fed|) == Scan(Passed(all), 0)
    decreases |chunks|
  {
    hide Whole, Passed, Robust, Scan, ScanChunk, LeftOver, CompletePrefix, After, Fed, Concat;
    PassedPrefix(all, b);
    AfterAt(all, b, chunks);
    if chunks == [] {
      NothingYet();
    } else {
      var a, before := LastChunk(all, b, chunks);
      AfterAt(all, a, before);
      RobustRun(all, a, before);
      var p, erases := |After(before).fed|, After(before).erases;
      FedAt(all, a, p, erases, b);
      StepRobust(all, b, p);
      var r := ScanChunk(all[..Whole(all, b)], p);
      Assoc(erases, r.found, Scan(Passed(all), r.cut));
    }
  }

  /** What is left over at the end of a stream contains no complete control sequence. */
  lemma {:induction false} LeftOverScan(s: Bytes, p: nat)
    requires p <= |s| && LeftOver(s[p..])
    ensures Scan(s, p) == []
  {
    assert s == s[..p] + s[p..];
    FindShift(s[..p], s[p..], 0);
    if IntroducerAt(s[p..], 0) {
      ParseShift(s[..p], s[p..], 0);
    }
  }

  /** However a robust stream is cut, the erases are those of the whole stream. */
  lemma {:induction false} RobustSound(chunks: seq<Bytes>)
    requires Robust(Concat(chunks), 0)
    ensures After(chunks).erases == Scan(Passed(Concat(chunks)), 0)
  {
    hide Robust, Scan, ScanChunk, LeftOver, CompletePrefix;
    var all := Concat(chunks);
    assert all[..|all|] == all;
    RobustRun(all, |all|, chunks);
    AfterAt(all, |all|, chunks);
    var p := |After(chunks).fed|;
    assert Passed(all)[p..] == all[p..Whole(all, |all|)];
    LeftOverScan(Passed(all), p);
  }

  // ----- chunks that make a difference

  lemma {:induction false} AsciiEnds(s: Bytes)
    requires s != [] && s[|s| - 1] < 0x80
    ensures CompletePrefix(s) == |s|
  {
    var length := SequenceLength(s[0]);
    if 1 < |s| <= length {
      assert !ValidAt(s, |s| - 1);
    }
    if length == 1 || !Plausible(s) {
      if |s| > 1 {
        AsciiEnds(s[1..]);
      }
    } else {
      AsciiEnds(s[length..]);
    }
  }

  /** What has arrived and is settled ends before the next complete sequence does. */
  lemma {:induction false} SettledBefore(all: Bytes, b: nat, p: nat, e: nat)
    requires Settled(all, b, p) && p <= |Passed(all)| && e == FindIntroducer(Passed(all), p) < |Passed(all)|
    requires Parse(Passed(all), e).Complete?
    ensures Whole(all, b) < Parse(Passed(all), e).sequence.end && Whole(all, b) <= e + MAX_PENDING
  {
    hide Whole, Passed, CompletePrefix;
    var s, n := Passed(all), Whole(all, b);
    PassedPrefix(all, b);
    ParsedInside(s, e);
    var left := all[p..n];
    assert s[..n][p..] == left && s[..n] == s[..p] + left;
    if IntroducerAt(left, 0) {
      assert IntroducerAt(s, p);
      FindIntroducerIs(s, p, p);
      ParseShift(s[..p], left, 0);
      EndsLater(s, n, e);
    }
  }

  /** A chunk that ends where the next sequence ends takes it. */
  lemma {:induction false} TakeStep(all: Bytes, b: nat, p: nat, erases: seq<ControlSequence>, e: nat)
    requires Settled(all, b, p) && p <= |Passed(all)| && e == FindIntroducer(Passed(all), p) < |Passed(all)|
    requires Parse(Passed(all), e).Complete?
    ensures var q := Parse(Passed(all), e).sequence;
            && b <= q.end <= |Passed(all)| <= |all| && Whole(all, q.end) == q.end
            && Fed(StateAt(all, b, p, erases), all[b..q.end]) == StateAt(all, q.end, q.end, erases + Counted(q))
  {
    hide Passed, CompletePrefix, Parse, LeftOver, Fed;
    var s := Passed(all);
    SettledBefore(all, b, p, e);
    ParsedInside(s, e);
    var q := Parse(s, e).sequence;
    PassedPrefix(all, |all|);
    PassedWhole(all);
    assert s[q.end - 1] == all[..q.end][q.end - 1];
    AsciiEnds(all[..q.end]);
    if b > q.end {
      WholeGrows(all, q.end, b);
    }
    FedAt(all, b, p, erases, q.end);
    PassedPrefix(all, q.end);
    TakesOne(s, q.end, p, e);
    assert erases + (Counted(q) + []) == erases + Counted(q);
  }

  lemma {:induction false} PassedWhole(all: Bytes)
    ensures |Passed(all)| <= |all| && Passed(all) == all[..|Passed(all)|]
  {
  }

  lemma {:induction false} TakesOne(s: Bytes, n: nat, p: nat, e: nat)
    requires p <= n <= |s| && e == FindIntroducer(s, p) < |s| && Parse(s, e).Complete? && n == Parse(s, e).sequence.end
    ensures ScanChunk(s[..n], p) == ChunkScan(Counted(Parse(s, e).sequence), n)
  {
    hide Counted;
    ParsedInside(s, e);
    var t := s[..n];
    forall k | p <= k < e ensures !IntroducerAt(t, k) {
      assert !IntroducerAt(s, k);
    }
    FindIntroducerIs(t, p, e);
    FindFinalIs(t, e + 2, n - 1);
    assert t[e + 2..n - 1] == s[e + 2..n - 1];
    assert Parse(t, e) == Parse(s, e);
    assert ScanChunk(t, n) == ChunkScan([], n);
  }

  /** A chunk that ends inside the next sequence after more than 128 bytes of it gives up on it. */
  lemma {:induction false} SkipStep(all: Bytes, b: nat, p: nat, erases: seq<ControlSequence>, e: nat, c: nat)
    requires Settled(all, b, p) && p <= |Passed(all)| && e == FindIntroducer(Passed(all), p) < |Passed(all)|
    requires Parse(Passed(all), e).Complete? && c <= |all|
    requires e + MAX_PENDING < Whole(all, c) < Parse(Passed(all), e).sequence.end
    ensures b <= c
    ensures var q := Parse(Passed(all), e).sequence;
            var r := ScanChunk(all[..Whole(all, c)], p);
            && r.found == [] && p < r.cut <= |Passed(all)|
            && q.start == e && q.start + 2 < q.end <= |Passed(all)|
            && Fed(StateAt(all, b, p, erases), all[b..c]) == StateAt(all, c, r.cut, erases)
            && Scan(Passed(all), r.cut) == Scan(Passed(all), Resume(Passed(all), q))
            && (Robust(all, r.cut) <==> Robust(all, Resume(Passed(all), q)))
  {
    hide Passed, CompletePrefix, Parse, LeftOver, Fed, Scan, Robust, Whole;
    var s, n := Passed(all), Whole(all, c);
    SettledBefore(all, b, p, e);
    ParsedInside(s, e);
    if b > c {
      WholeGrows(all, c, b);
    }
    FedAt(all, b, p, erases, c);
    PassedPrefix(all, c);
    SkipsOne(s, n, p, e);
    var cut := ScanChunk(s[..n], p).cut;
    GiveUp(all, e);
    forall k | e + 1 <= k < cut ensures !IntroducerAt(s, k) {
      if IntroducerAt(s, k) {
        NothingInside(s, e, k);
      }
    }
    RobustSkip(all, e + 1, cut);
    assert erases + [] == erases;
  }

  lemma {:induction false} SkipsOne(s: Bytes, n: nat, p: nat, e: nat)
    requires p <= n <= |s| && e == FindIntroducer(s, p) < |s| && Parse(s, e).Complete?
    requires e + MAX_PENDING < n < Parse(s, e).sequence.end
    ensures var q, r := Parse(s, e).sequence, ScanChunk(s[..n], p);
            e + 2 < q.end <= |s| && r.found == [] && e + 1 <= r.cut <= Resume(s, q)
  {
    hide Counted;
    ParsedInside(s, e);
    var t := s[..n];
    forall k | p <= k < e ensures !IntroducerAt(t, k) {
      assert !IntroducerAt(s, k);
    }
    FindIntroducerIs(t, p, e);
    FindFinalIs(t, e + 2, n);
    forall k | e + 1 <= k < n - 1 ensures !IntroducerAt(t, k) {
      assert !IsFinal(t[k + 1]);
    }
    FindIntroducerIs(t, e + 1, n);
  }

  /** All the rest in one chunk finds what the whole stream holds. */
  lemma {:induction false} OneChunk(s: Bytes, i: nat)
    requires i <= |s|
    ensures ScanChunk(s, i).found == Scan(s, i)
    decreases |s| - i
  {
    var e := FindIntroducer(s, i);
    if e < |s| {
      ParsedInside(s, e);
      var r := Parse(s, e);
      if r.Complete? {
        OneChunk(s, r.sequence.end);
      } else if |s| - e > MAX_PENDING {
        forall k | e + 1 <= k < |s| ensures !IntroducerAt(s, k) {
          if IntroducerAt(s, k) {
            NothingInside(s, e, k);
          }
        }
        FindIntroducerIs(s, e + 1, |s|);
      }
    }
  }

  lemma {:induction false} Onward(all: Bytes, b: nat, chunks: seq<Bytes>, c: nat)
    requires b <= c <= |all| && Concat(chunks) == all[..b]
    ensures Concat(chunks + [all[b..c]]) == all[..c]
    ensures After(chunks + [all[b..c]]) == Fed(After(chunks), all[b..c])
  {
    hide Fed;
    var more := chunks + [all[b..c]];
    assert more[..|more| - 1] == chunks && more[|more| - 1] == all[b..c];
    assert all[..b] + all[b..c] == all[..c];
  }

  /** The rest of the stream in one chunk. */
  lemma {:induction false} Finish(all: Bytes, b: nat, chunks: seq<Bytes>) returns (more: seq<Bytes>)
    requires b <= |all| && Concat(chunks) == all[..b]
    ensures |After(chunks).fed| <= |Passed(all)| && Concat(more) == all && more == chunks + [all[b..]]
    ensures After(more).erases == After(chunks).erases + Scan(Passed(all), |After(chunks).fed|)
  {
    hide ScanChunk, Scan, CompletePrefix, LeftOver, Fed;
    AfterAt(all, b, chunks);
    PassedPrefix(all, b);
    var p := |After(chunks).fed|;
    Onward(all, b, chunks, |all|);
    more := chunks + [all[b..]];
    assert all[b..|all|] == all[b..] && all[..|all|] == all;
    FedAt(all, b, p, After(chunks).erases, |all|);
    OneChunk(Passed(all), p);
  }

  lemma {:induction false} TakeMore(all: Bytes, b: nat, chunks: seq<Bytes>) returns (c: nat, more: seq<Bytes>)
    requires b <= |all| && Concat(chunks) == all[..b] && |After(chunks).fed| <= |Passed(all)|
    requires var e := FindIntroducer(Passed(all), |After(chunks).fed|);
             e < |Passed(all)| && Parse(Passed(all), e).Complete?
    ensures var q := Parse(Passed(all), FindIntroducer(Passed(all), |After(chunks).fed|)).sequence;
            && c == q.end <= |Passed(all)| && c <= |all| && |After(chunks).fed| < c
            && Concat(more) == all[..c] && |After(more).fed| == c
            && After(more).erases == After(chunks).erases + Counted(q)
  {
    hide ScanChunk, Scan, CompletePrefix, LeftOver, Fed, After, Parse, Passed, Counted;
    AfterAt(all, b, chunks);
    var p := |After(chunks).fed|;
    var e := FindIntroducer(Passed(all), p);
    ParsedInside(Passed(all), e);
    TakeStep(all, b, p, After(chunks).erases, e);
    c := Parse(Passed(all), e).sequence.end;
    Onward(all, b, chunks, c);
    more := chunks + [all[b..c]];
  }

  /** Where the next sequence can be cut, a chunk that ends there leads past its introducer. */
  lemma {:induction false} SkipMore(all: Bytes, b: nat, chunks: seq<Bytes>) returns (c: nat, more: seq<Bytes>)
    requires b <= |all| && Concat(chunks) == all[..b] && |After(chunks).fed| <= |Passed(all)|
    requires var e := FindIntroducer(Passed(all), |After(chunks).fed|);
             e < |Passed(all)| && Parse(Passed(all), e).Complete? && Cuttable(all, Parse(Passed(all), e).sequence)
    ensures c <= |all| && Concat(more) == all[..c] && |After(chunks).fed| < |After(more).fed| <= |Passed(all)|
    ensures After(more).erases == After(chunks).erases
    ensures var q := Parse(Passed(all), FindIntroducer(Passed(all), |After(chunks).fed|)).sequence;
            && q.start + 2 < q.end <= |Passed(all)|
            && Scan(Passed(all), |After(more).fed|) == Scan(Passed(all), Resume(Passed(all), q))
            && (Robust(all, |After(more).fed|) <==> Robust(all, Resume(Passed(all), q)))
  {
    hide ScanChunk, Scan, Robust, CompletePrefix, LeftOver, Fed, After, Parse, Passed, Whole;
    AfterAt(all, b, chunks);
    var p := |After(chunks).fed|;
    var e := FindIntroducer(Passed(all), p);
    var q := Parse(Passed(all), e).sequence;
    ParsedInside(Passed(all), e);
    c :| c <= |all| && q.start + MAX_PENDING < Whole(all, c) < q.end;
    SkipStep(all, b, p, After(chunks).erases, e, c);
    Onward(all, b, chunks, c);
    more := chunks + [all[b..c]];
  }

  lemma {:induction false} Fragile(all: Bytes, p: nat)
    requires p <= |Passed(all)| && !Robust(all, p)
    ensures var s := Passed(all);
            var e := FindIntroducer(s, p);
            && e < |s| && Parse(s, e).Complete?
            && var q := Parse(s, e).sequence;
            && q.start + 2 < q.end <= |s|
            && Scan(s, p) == Counted(q) + Scan(s, q.end)
            && (!Robust(all, q.end)
                || (Cuttable(all, q)
                    && (IsErase(q) || !Robust(all, Resume(s, q)) || Scan(s, Resume(s, q)) != Scan(s, q.end))))
            && (IsErase(q) ==> Resume(s, q) == q.end)
  {
    hide Passed;
  }

  /** A stream that is not robust can be cut so that its erases come out differently. */
  lemma {:induction false} Differently(all: Bytes, b: nat, chunks: seq<Bytes>) returns (more: seq<Bytes>)
    requires b <= |all| && Concat(chunks) == all[..b]
    requires |After(chunks).fed| <= |Passed(all)| && !Robust(all, |After(chunks).fed|)
    ensures Concat(more) == all
    ensures After(more).erases != After(chunks).erases + Scan(Passed(all), |After(chunks).fed|)
    decreases |Passed(all)| - |After(chunks).fed|
  {
    hide ScanChunk, Scan, CompletePrefix, LeftOver, Fed, After, Parse, Whole, Passed, Robust, Resume, Cuttable;
    var s, p := Passed(all), |After(chunks).fed|;
    Fragile(all, p);
    var q := Parse(s, FindIntroducer(s, p)).sequence;
    if !Robust(all, q.end) {
      var c, next := TakeMore(all, b, chunks);
      more := Differently(all, c, next);
      Assoc(After(chunks).erases, Counted(q), Scan(s, q.end));
    } else {
      var c, next := SkipMore(all, b, chunks);
      if Scan(s, p) == Scan(s, |After(next).fed|) {
        more := Differently(all, c, next);
      } else {
        more := Finish(all, c, next);
        SameFront(After(chunks).erases, Scan(s, p), Scan(s, |After(next).fed|));
      }
    }
  }

  lemma {:induction false} Assoc(a: seq<ControlSequence>, b: seq<ControlSequence>, c: seq<ControlSequence>)
    ensures a + (b + c) == (a + b) + c
  {
  }

  lemma {:induction false} SameFront(a: seq<ControlSequence>, b: seq<ControlSequence>, c: seq<ControlSequence>)
    requires b != c
    ensures a + b != a + c
  {
    assert (a + b)[|a|..] == b && (a + c)[|a|..] == c;
  }

  /** The erases are those of the whole stream under every way of cutting it exactly when it is robust. */
  lemma {:induction false} RobustIff(all: Bytes)
    ensures (forall chunks: seq<Bytes> :: Concat(chunks) == all ==> After(chunks).erases == Scan(Passed(all), 0))
            <==> Robust(all, 0)
  {
    hide After, Robust, Scan, Passed;
    if Robust(all, 0) {
      forall chunks: seq<Bytes> | Concat(chunks) == all ensures After(chunks).erases == Scan(Passed(all), 0) {
        RobustSound(chunks);
      }
    } else {
      NothingYet();
      var more := Differently(all, 0, []);
      assert [] + Scan(Passed(all), 0) == Scan(Passed(all), 0);
    }
  }

  lemma {:induction false} NothingYet()
    ensures After([]) == Feed([], [], [], []) && Concat([]) == []
  {
  }

  /** The next step of a scan, seen from an erase that lies ahead. */
  lemma {:induction false} Ahead(s: Bytes, p: nat, q: ControlSequence)
    requires p <= |s| && q in Scan(s, p)
    ensures var e := FindIntroducer(s, p);
            && e < |s| && Parse(s, e).Complete?
            && var r := Parse(s, e).sequence;
            && p < r.end && r.start + 2 < r.end <= |s| && Scan(s, p) == Counted(r) + Scan(s, r.end)
            && (q == r && IsErase(r) ==> Resume(s, r) == r.end)
            && ((q == r && IsErase(r)) || q in Scan(s, r.end))
  {
  }

  /** Any erase that can be cut is lost, and it alone, when the chunks are cut there. */
  lemma {:induction false} LosesErase(all: Bytes, b: nat, chunks: seq<Bytes>, q: ControlSequence)
      returns (more: seq<Bytes>, first: seq<ControlSequence>, rest: seq<ControlSequence>)
    requires b <= |all| && Concat(chunks) == all[..b] && |After(chunks).fed| <= |Passed(all)|
    requires q in Scan(Passed(all), |After(chunks).fed|) && Cuttable(all, q)
    ensures Concat(more) == all && Scan(Passed(all), |After(chunks).fed|) == first + [q] + rest
    ensures After(more).erases == After(chunks).erases + (first + rest)
    decreases |Passed(all)| - |After(chunks).fed|
  {
    hide ScanChunk, Scan, CompletePrefix, LeftOver, Fed, After, Parse, Whole, Passed, Robust, Resume, Cuttable;
    var s, p := Passed(all), |After(chunks).fed|;
    Ahead(s, p, q);
    var r := Parse(s, FindIntroducer(s, p)).sequence;
    if q == r && IsErase(r) {
      var c, next := SkipMore(all, b, chunks);
      more := Finish(all, c, next);
      first, rest := [], Scan(s, r.end);
    } else {
      var c, next := TakeMore(all, b, chunks);
      more, first, rest := LosesErase(all, c, next, q);
      Assoc(After(chunks).erases, Counted(r), first + rest);
      Assoc(Counted(r), first, rest);
      Assoc(Counted(r), first, [q]);
      Assoc(Counted(r), first + [q], rest);
      first := Counted(r) + first;
    }
  }

  /** A complete erase longer than 129 bytes is lost by some chunks, if a character ends in the right place: always
      when it is longer than 132. */
  lemma {:induction false} LongEraseLost(all: Bytes, q: ControlSequence)
      returns (chunks: seq<Bytes>, first: seq<ControlSequence>, rest: seq<ControlSequence>)
    requires q in Scan(Passed(all), 0) && (Cuttable(all, q) || q.end - q.start > MAX_PENDING + 4)
    ensures Concat(chunks) == all && Scan(Passed(all), 0) == first + [q] + rest
    ensures After(chunks).erases == first + rest
  {
    hide Scan, Parse, Whole, Passed, After, Cuttable;
    NothingYet();
    InScan(Passed(all), 0, q);
    PassedWhole(all);
    if !Cuttable(all, q) {
      LongCuttable(all, q);
    }
    chunks, first, rest := LosesErase(all, 0, [], q);
    assert [] + (first + rest) == first + rest;
  }

  lemma {:induction false} InScan(s: Bytes, i: nat, q: ControlSequence)
    requires i <= |s| && q in Scan(s, i)
    ensures q.start + 2 < q.end <= |s| && IsErase(q)
    decreases |s| - i
  {
    hide Scan;
    Ahead(s, i, q);
    var r := Parse(s, FindIntroducer(s, i)).sequence;
    if q != r || !IsErase(r) {
      InScan(s, r.end, q);
    }
  }

  lemma {:induction false} LongCuttable(all: Bytes, q: ControlSequence)
    requires q.end <= |all| && q.end - q.start > MAX_PENDING + 4
    ensures Cuttable(all, q)
  {
    hide CompletePrefix;
    var c := q.start + MAX_PENDING + 4;
    var tail := HeldBack(all[..c]);
    assert q.start + MAX_PENDING < Whole(all, c) < q.end;
  }

  /** The simple way to be robust: no sequence on the way is longer than 129 bytes unless it is harmless, neither an
      erase nor closed by another introducer. */
  ghost predicate Ordinary(s: Bytes, i: nat)
    requires i <= |s|
    decreases |s| - i
  {
    var e := FindIntroducer(s, i);
    e < |s| && Parse(s, e).Complete? ==>
      var q := Parse(s, e).sequence;
      && Ordinary(s, q.end)
      && (q.end - q.start > MAX_PENDING + 1 ==> !IsErase(q) && !Reopens(s, q))
  }

  lemma {:induction false} OrdinaryRobust(all: Bytes, i: nat)
    requires i <= |Passed(all)| && Ordinary(Passed(all), i)
    ensures Robust(all, i)
    decreases |Passed(all)| - i
  {
    hide CompletePrefix, Passed, Whole, Scan;
    var s := Passed(all);
    var e := FindIntroducer(s, i);
    if e < |s| && Parse(s, e).Complete? {
      OrdinaryRobust(all, Parse(s, e).sequence.end);
    }
  }

  // ----- a stream read in two ways

  /** An erase to the end of the line, its parameter written with 130 zeros. */
  function LongErase(): Bytes {
    [ESCAPE, BRACKET] + Zeros(130) + [0x4B]
  }

  function Zeros(n: nat): (s: Bytes)
    ensures |s| == n
  {
    seq(n, _ => 0x30)
  }

  lemma {:induction false} ZerosAreZero(n: nat)
    ensures FirstParameter(Zeros(n), 0) == Some(0)
  {
    if n > 0 {
      assert Zeros(n)[1..] == Zeros(n - 1);
      ZerosAreZero(n - 1);
    }
  }

  lemma {:induction false} LongEraseParsed()
    ensures |LongErase()| == 133 && IntroducerAt(LongErase(), 0) && FindIntroducer(LongErase(), 0) == 0
    ensures Parse(LongErase(), 0) == Complete(ControlSequence(0, 133, 0x4B, 0))
  {
    hide FirstParameter;
    var s := LongErase();
    assert |s| == 133;
    assert forall k :: 2 <= k < 132 ==> s[k] == 0x30;
    FindFinalIs(s, 2, 132);
    assert s[2..132] == Zeros(130);
    ZerosAreZero(130);
  }

  lemma {:induction false} LongEraseWhole()
    ensures Passed(LongErase()) == LongErase() && Whole(LongErase(), 130) == 130
  {
    hide CompletePrefix;
    var s := LongErase();
    assert s[..133] == s && s[132] == 0x4B && s[129] == 0x30;
    AsciiEnds(s);
    AsciiEnds(s[..130]);
  }

  lemma {:induction false} LongEraseScan()
    ensures |LongErase()| == 133 && Scan(LongErase(), 133) == []
    ensures Scan(LongErase(), 0) == [ControlSequence(0, 133, 0x4B, 0)]
    ensures Resume(LongErase(), ControlSequence(0, 133, 0x4B, 0)) == 133
  {
    hide Parse, LongErase;
    LongEraseParsed();
    assert LongErase()[132] == 0x4B by { LongEraseEnd(); }
  }

  lemma {:induction false} LongEraseEnd()
    ensures |LongErase()| == 133 && LongErase()[132] == 0x4B
  {
  }

  /** In one chunk the erase is noticed, in two it is not. */
  lemma {:induction false} LongEraseTwoWays()
    ensures After([LongErase()]).erases == [ControlSequence(0, 133, 0x4B, 0)]
    ensures Concat([LongErase()[..130], LongErase()[130..]]) == LongErase() && |LongErase()| == 133
    ensures After([LongErase()[..130], LongErase()[130..]]).erases == []
  {
    hide CompletePrefix, Passed, Parse, LongErase, ScanChunk, LeftOver, Whole, Fed, After, Scan, Concat;
    hide FindIntroducer, IntroducerAt;
    var s := LongErase();
    LongEraseScan();
    LongEraseWhole();
    NothingYet();
    assert s[..0] == [] && s[0..] == s;
    var one := Finish(s, 0, []);
    assert one == [s];
    TwoChunks();
  }

  lemma {:induction false} TwoChunks()
    ensures |LongErase()| == 133 && Concat([LongErase()[..130], LongErase()[130..]]) == LongErase()
    ensures After([LongErase()[..130], LongErase()[130..]]).erases == []
  {
    hide CompletePrefix, Passed, Parse, LongErase, ScanChunk, LeftOver, Whole, Fed, After, Scan, Concat;
    hide FindIntroducer, IntroducerAt;
    var s := LongErase();
    LongEraseParsed();
    LongEraseScan();
    LongEraseWhole();
    NothingYet();
    assert s[..0] == [];
    AfterAt(s, 0, []);
    SkipStep(s, 0, 0, [], 0, 130);
    Onward(s, 0, [], 130);
    assert s[0..130] == s[..130] && [] + [s[..130]] == [s[..130]];
    var two := Finish(s, 130, [s[..130]]);
    assert two == [s[..130], s[130..]];
  }
}
