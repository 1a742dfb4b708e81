/** Control sequences that start with escape and an opening bracket. */
module ControlSequences {
  import opened Wrappers
  import opened ByteStreams

  const ESCAPE: Byte := 0x1B
  const BRACKET: Byte := 0x5B

  /** Start and end are positions; mode is -1 when the parameters are not understood. */
  datatype ControlSequence = ControlSequence(start: nat, end: nat, command: Byte, mode: int)

  datatype ParseResult = NotIntroducer | Incomplete | Complete(sequence: ControlSequence)

  predicate IsFinal(b: Byte) {
    0x40 <= b <= 0x7E
  }

  predicate IntroducerAt(s: Bytes, i: int) {
    0 <= i && i + 1 < |s| && s[i] == ESCAPE && s[i + 1] == BRACKET
  }

  /** The first introducer from position i on, or the end of the input. */
  function FindIntroducer(s: Bytes, i: nat): (e: nat)
    requires i <= |s|
    ensures i <= e <= |s|
    ensures e < |s| ==> IntroducerAt(s, e)
    ensures forall k :: i <= k < e ==> !IntroducerAt(s, k)
    decreases |s| - i
  {
    if i == |s| || IntroducerAt(s, i) then i else FindIntroducer(s, i + 1)
  }

  /** The first final byte from position i on, or the end of the input. */
  function FindFinal(s: Bytes, i: nat): (f: nat)
    requires i <= |s|
    ensures i <= f <= |s|
    ensures f < |s| ==> IsFinal(s[f])
    ensures forall k :: i <= k < f ==> !IsFinal(s[k])
    decreases |s| - i
  {
    if i == |s| || IsFinal(s[i]) then i else FindFinal(s, i + 1)
  }

  /** The first parameter: digits up to a separator, a null byte or the end; anything else is not understood. */
  function FirstParameter(s: Bytes, value: nat): Option<nat> {
    if s == [] || s[0] == 0x3B || s[0] == 0x3A || s[0] == 0 then Some(value)
    else if 0x30 <= s[0] <= 0x39 then FirstParameter(s[1..], value * 10 + (s[0] as int - 0x30))
    else None
  }

  function Parse(s: Bytes, start: nat): ParseResult
  {
    if start + 1 >= |s| then Incomplete
    else if !IntroducerAt(s, start) then NotIntroducer
    else
      var f := FindFinal(s, start + 2);
      if f == |s| then Incomplete
      else
        var parameter := FirstParameter(s[start + 2..f], 0);
        Complete(ControlSequence(start, f + 1, s[f], if parameter.Some? then parameter.value else -1))
  }

  predicate IsErase(q: ControlSequence) {
    q.mode >= 0 && (q.command == 0x4B || q.command == 0x4A)
  }

  method FirstControlSequenceParameter(parameters: Bytes) returns (r: Option<nat>)
    ensures r == FirstParameter(parameters, 0)
  {
    var value: nat := 0;
    var i := 0;
    while i < |parameters|
      invariant 0 <= i <= |parameters|
      invariant FirstParameter(parameters, 0) == FirstParameter(parameters[i..], value)
    {
      assert parameters[i..][1..] == parameters[i + 1..];
      if 0x30 <= parameters[i] <= 0x39 {
        value := value * 10 + (parameters[i] as int - 0x30);
        i := i + 1;
        continue;
      }
      if parameters[i] == 0x3B || parameters[i] == 0x3A || parameters[i] == 0 {
        break;
      }
      return None;
    }
    return Some(value);
  }

  method ParseControlSequence(bytes: Bytes, start: nat) returns (r: ParseResult)
    ensures r == Parse(bytes, start)
  {
    if start + 1 >= |bytes| {
      return Incomplete;
    }
    if bytes[start] != ESCAPE || bytes[start + 1] != BRACKET {
      return NotIntroducer;
    }
    var index := start + 2;
    while index < |bytes|
      invariant start + 2 <= index <= |bytes|
      invariant FindFinal(bytes, start + 2) == FindFinal(bytes, index)
    {
      if !IsFinal(bytes[index]) {
        index := index + 1;
        continue;
      }
      var mode := FirstControlSequenceParameter(bytes[start + 2..index]);
      if mode.None? {
        return Complete(ControlSequence(start, index + 1, bytes[index], -1));
      }
      return Complete(ControlSequence(start, index + 1, bytes[index], mode.value));
    }
    return Incomplete;
  }

  // ----- later input does not change what was complete

  lemma {:induction false} FindFinalIs(s: Bytes, i: nat, f: nat)
    requires i <= f <= |s| && (f < |s| ==> IsFinal(s[f])) && forall k :: i <= k < f ==> !IsFinal(s[k])
    ensures FindFinal(s, i) == f
    decreases f - i
  {
    if i < f {
      FindFinalIs(s, i + 1, f);
    }
  }

  lemma {:induction false} FindIntroducerIs(s: Bytes, i: nat, e: nat)
    requires i <= e <= |s| && (e < |s| ==> IntroducerAt(s, e)) && forall k :: i <= k < e ==> !IntroducerAt(s, k)
    ensures FindIntroducer(s, i) == e
    decreases e - i
  {
    if i < e {
      FindIntroducerIs(s, i + 1, e);
    }
  }

  lemma {:induction false} ParseStable(s: Bytes, t: Bytes, e: nat)
    requires Parse(s, e).Complete?
    ensures Parse(s + t, e) == Parse(s, e)
  {
    var f := FindFinal(s, e + 2);
    forall k | e + 2 <= k < f ensures !IsFinal((s + t)[k]) {
      assert (s + t)[k] == s[k];
    }
    FindFinalIs(s + t, e + 2, f);
    assert (s + t)[e + 2..f] == s[e + 2..f];
  }

  function Shifted(r: ParseResult, n: nat): ParseResult {
    if r.Complete? then Complete(r.sequence.(start := r.sequence.start + n, end := r.sequence.end + n)) else r
  }

  /** Parsing does not depend on what comes before. */
  lemma {:induction false} ParseShift(p: Bytes, s: Bytes, e: nat)
    ensures Parse(p + s, |p| + e) == Shifted(Parse(s, e), |p|)
  {
    var u := p + s;
    assert forall k :: 0 <= k < |s| ==> u[|p| + k] == s[k];
    if e + 1 < |s| && IntroducerAt(s, e) {
      var f := FindFinal(s, e + 2);
      forall k | |p| + e + 2 <= k < |p| + f ensures !IsFinal(u[k]) {
        assert u[k] == s[k - |p|];
      }
      FindFinalIs(u, |p| + e + 2, |p| + f);
      assert u[|p| + e + 2..|p| + f] == s[e + 2..f];
    }
  }

  lemma {:induction false} FindShift(p: Bytes, s: Bytes, i: nat)
    requires i <= |s|
    ensures FindIntroducer(p + s, |p| + i) == |p| + FindIntroducer(s, i)
  {
    var u := p + s;
    assert forall k :: 0 <= k < |s| ==> u[|p| + k] == s[k];
    var e := FindIntroducer(s, i);
    assert forall k :: 0 <= k ==> (IntroducerAt(u, |p| + k) <==> IntroducerAt(s, k));
    forall k | |p| + i <= k < |p| + e ensures !IntroducerAt(u, k) {
      assert !IntroducerAt(s, k - |p|);
    }
    FindIntroducerIs(u, |p| + i, |p| + e);
  }
}
