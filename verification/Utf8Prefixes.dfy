/** Holding back an incomplete UTF-8 sequence at the end of a chunk, and encoding code points. */
module Utf8Prefixes {
  import opened ByteStreams

  predicate IsContinuation(b: Byte) {
    0x80 <= b <= 0xBF
  }

  function SequenceLength(lead: Byte): (n: nat)
    ensures 1 <= n <= 4
  {
    if lead < 0x80 then 1
    else if 0xC2 <= lead <= 0xDF then 2
    else if 0xE0 <= lead <= 0xEF then 3
    else if 0xF0 <= lead <= 0xF4 then 4
    else 1
  }

  predicate ValidAt(s: Bytes, offset: nat)
    requires offset < |s|
  {
    var lead, value := s[0], s[offset];
    && IsContinuation(value)
    && (offset == 1 ==>
          && (lead == 0xE0 ==> value >= 0xA0)
          && (lead == 0xED ==> value <= 0x9F)
          && (lead == 0xF0 ==> value >= 0x90)
          && (lead == 0xF4 ==> value <= 0x8F))
  }

  /** The bytes that are there, of the sequence the first byte announces, all fit it. */
  predicate Plausible(s: Bytes)
    requires s != []
  {
    forall offset :: 1 <= offset < |s| && offset < SequenceLength(s[0]) ==> ValidAt(s, offset)
  }

  /** How many bytes from the front can be passed on without cutting a sequence that may still be completed. */
  function CompletePrefix(s: Bytes): (n: nat)
    ensures n <= |s|
  {
    if s == [] then 0
    else
      var length := SequenceLength(s[0]);
      if length == 1 || !Plausible(s) then 1 + CompletePrefix(s[1..])
      else if |s| < length then 0
      else length + CompletePrefix(s[length..])
  }

  method CompletePrefixSize(bytes: Bytes) returns (size: nat)
    ensures size == CompletePrefix(bytes)
  {
    hide ValidAt, SequenceLength;
    var index := 0;
    while index < |bytes|
      invariant 0 <= index <= |bytes|
      invariant CompletePrefix(bytes) == index + CompletePrefix(bytes[index..])
    {
      ghost var rest := bytes[index..];
      assert bytes[index + 1..] == rest[1..];
      var sequenceLength := SequenceLength(bytes[index]);
      if sequenceLength == 1 {
        index := index + 1;
        continue;
      }
      var available := |bytes| - index;
      var invalidSequence := false;
      var offset := 1;
      while offset < sequenceLength && offset < available && !invalidSequence
        invariant 1 <= offset
        invariant invalidSequence ==> !Plausible(rest)
        invariant !invalidSequence ==> forall o :: 1 <= o < offset && o < |rest| ==> ValidAt(rest, o)
      {
        if !ValidAt(bytes[index..], offset) {
          invalidSequence := true;
        }
        offset := offset + 1;
      }
      if invalidSequence {
        index := index + 1;
        continue;
      }
      if available < sequenceLength {
        return index;
      }
      assert bytes[index + sequenceLength..] == rest[sequenceLength..];
      index := index + sequenceLength;
    }
    assert bytes[index..] == [];
    return |bytes|;
  }

  /** A UTF-8 sequence of more than one byte as the grammar in section 4 of RFC 3629 has it. */
  predicate MultiByte(s: Bytes) {
    || (|s| == 2 && 0xC2 <= s[0] <= 0xDF && IsContinuation(s[1]))
    || (|s| == 3 && IsContinuation(s[2])
        && (|| (s[0] == 0xE0 && 0xA0 <= s[1] <= 0xBF)
            || (0xE1 <= s[0] <= 0xEC && IsContinuation(s[1]))
            || (s[0] == 0xED && 0x80 <= s[1] <= 0x9F)
            || (0xEE <= s[0] <= 0xEF && IsContinuation(s[1]))))
    || (|s| == 4 && IsContinuation(s[2]) && IsContinuation(s[3])
        && (|| (s[0] == 0xF0 && 0x90 <= s[1] <= 0xBF)
            || (0xF1 <= s[0] <= 0xF3 && IsContinuation(s[1]))
            || (s[0] == 0xF4 && 0x80 <= s[1] <= 0x8F)))
  }

  /** The byte tests recognize exactly the grammar. */
  lemma {:induction false} PlausibleIsGrammar(s: Bytes)
    requires s != [] && |s| == SequenceLength(s[0]) > 1
    ensures Plausible(s) <==> MultiByte(s)
  {
    var second, third, fourth := ValidAt(s, 1), |s| > 2 ==> ValidAt(s, 2), |s| > 3 ==> ValidAt(s, 3);
    if second && third && fourth {
      forall offset | 1 <= offset < |s| ensures ValidAt(s, offset) {
        assert offset == 1 || offset == 2 || offset == 3;
      }
    }
    assert Plausible(s) <==> second && third && fourth;
  }

  /** A plausible start can be completed. */
  lemma {:induction false} Completable(s: Bytes) returns (rest: Bytes)
    requires s != [] && |s| < SequenceLength(s[0]) && Plausible(s)
    ensures rest != [] && MultiByte(s + rest)
  {
    if |s| > 1 {
      assert ValidAt(s, 1);
    }
    if |s| > 2 {
      assert ValidAt(s, 2);
    }
    var second := if s[0] == 0xE0 then 0xA0 else if s[0] == 0xF0 then 0x90 else 0x80;
    rest := if SequenceLength(s[0]) == 2 then [second]
            else if SequenceLength(s[0]) == 3 then (if |s| == 1 then [second, 0x80] else [0x80])
            else if |s| == 1 then [second, 0x80, 0x80] else if |s| == 2 then [0x80, 0x80] else [0x80];
  }

  /** What is held back is at most three bytes and a proper prefix of a well-formed sequence. */
  lemma {:induction false} HeldBack(s: Bytes) returns (rest: Bytes)
    ensures var tail := s[CompletePrefix(s)..];
            && |tail| <= 3
            && (tail != [] ==> rest != [] && MultiByte(tail + rest))
  {
    if s == [] {
      rest := [];
    } else {
      var length := SequenceLength(s[0]);
      var step := if length == 1 || !Plausible(s) then 1 else if |s| < length then 0 else length;
      if step == 0 {
        rest := Completable(s);
      } else {
        rest := HeldBack(s[step..]);
        assert s[step..][CompletePrefix(s[step..])..] == s[CompletePrefix(s)..];
      }
    }
  }

  /** Scanning is independent of how the input is cut: the prefix of a chunk is passed on and the rest is
      scanned again together with what follows. */
  lemma {:induction false} ChunkIndependent(a: Bytes, b: Bytes)
    ensures var p := CompletePrefix(a);
            CompletePrefix(a + b) == p + CompletePrefix(a[p..] + b)
    decreases |a|, 1
  {
    if a == [] {
      assert a + b == b && a[0..] + b == b;
    } else {
      var length := SequenceLength(a[0]);
      var p := CompletePrefix(a);
      if length == 1 || !Plausible(a) {
        if length > 1 {
          var o :| 1 <= o < |a| && o < length && !ValidAt(a, o);
          assert !ValidAt(a + b, o);
        }
        StepOver(a, b, 1);
      } else if |a| < length {
        assert a[0..] == a;
      } else {
        forall o | 1 <= o < length ensures ValidAt(a + b, o) {
          assert ValidAt(a, o);
        }
        StepOver(a, b, length);
      }
    }
  }

  lemma {:induction false} StepOver(a: Bytes, b: Bytes, step: nat)
    requires 0 < step <= |a| && CompletePrefix(a) == step + CompletePrefix(a[step..])
    requires CompletePrefix(a + b) == step + CompletePrefix((a + b)[step..])
    ensures CompletePrefix(a + b) == CompletePrefix(a) + CompletePrefix(a[CompletePrefix(a)..] + b)
    decreases |a| - step, 2
  {
    hide CompletePrefix;
    assert (a + b)[step..] == a[step..] + b;
    ChunkIndependent(a[step..], b);
    assert a[step..][CompletePrefix(a[step..])..] == a[CompletePrefix(a)..];
  }

  // ----- encoding

  predicate Scalar(c: nat) {
    c <= 0x10FFFF && !(0xD800 <= c <= 0xDFFF)
  }

  /** Code points that are never written: none, the replacement character, and what is no scalar value. */
  predicate Skipped(c: nat) {
    c == 0 || c == 0xFFFD || !Scalar(c)
  }

  function Encode(c: nat): Bytes {
    if Skipped(c) then []
    else if c <= 0x7F then [c]
    else if c <= 0x7FF then [0xC0 + c / 64, 0x80 + c % 64]
    else if c <= 0xFFFF then [0xE0 + c / 4096, 0x80 + c / 64 % 64, 0x80 + c % 64]
    else [0xF0 + c / 262144, 0x80 + c / 4096 % 64, 0x80 + c / 64 % 64, 0x80 + c % 64]
  }

  method AppendUtf8(output: Bytes, codepoint: nat) returns (r: Bytes)
    ensures r == output + Encode(codepoint)
  {
    if codepoint == 0 || codepoint == 0xFFFD {
      return output;
    }
    if 0xD800 <= codepoint <= 0xDFFF || codepoint > 0x10FFFF {
      return output;
    }
    if codepoint <= 0x7F {
      return output + [codepoint];
    }
    if codepoint <= 0x7FF {
      return output + [0xC0 + codepoint / 64] + [0x80 + codepoint % 64];
    }
    if codepoint <= 0xFFFF {
      return output + [0xE0 + codepoint / 4096] + [0x80 + codepoint / 64 % 64] + [0x80 + codepoint % 64];
    }
    return output + [0xF0 + codepoint / 262144] + [0x80 + codepoint / 4096 % 64] + [0x80 + codepoint / 64 % 64]
           + [0x80 + codepoint % 64];
  }

  /** The number a well-formed sequence stands for (section 3 of RFC 3629). */
  function Decode(s: Bytes): nat
    requires MultiByte(s) || (|s| == 1 && s[0] < 0x80)
  {
    if |s| == 1 then s[0]
    else if |s| == 2 then (s[0] as int - 0xC0) * 64 + (s[1] as int - 0x80)
    else if |s| == 3 then (s[0] as int - 0xE0) * 4096 + (s[1] as int - 0x80) * 64 + (s[2] as int - 0x80)
    else (s[0] as int - 0xF0) * 262144 + (s[1] as int - 0x80) * 4096 + (s[2] as int - 0x80) * 64 + (s[3] as int - 0x80)
  }

  /** Every encoding is one well-formed sequence and decodes to its code point. */
  lemma {:induction false} EncodeDecode(c: nat)
    requires !Skipped(c)
    ensures MultiByte(Encode(c)) || (|Encode(c)| == 1 && Encode(c)[0] < 0x80)
    ensures Decode(Encode(c)) == c
  {
    if c > 0x7F {
      var low, high := c % 64, c / 64;
      assert c == high * 64 + low;
      if c > 0x7FF {
        var mid, top := high % 64, high / 64;
        assert high == top * 64 + mid;
        assert top == c / 4096;
        if c > 0xFFFF {
          assert top == top / 64 * 64 + top % 64;
          assert top / 64 == c / 262144;
        }
      }
    }
  }

  function EncodeAll(cs: seq<nat>): Bytes {
    if cs == [] then [] else Encode(cs[0]) + EncodeAll(cs[1..])
  }

  /** Encoded text is always passed on whole. */
  lemma {:induction false} EncodingsComplete(cs: seq<nat>)
    ensures CompletePrefix(EncodeAll(cs)) == |EncodeAll(cs)|
  {
    if cs != [] {
      EncodingsComplete(cs[1..]);
      var e, rest := Encode(cs[0]), EncodeAll(cs[1..]);
      if e != [] {
        EncodeDecode(cs[0]);
        WholeSequence(e, rest);
      } else {
        assert e + rest == rest;
      }
    }
  }

  lemma {:induction false} WholeSequence(e: Bytes, rest: Bytes)
    requires MultiByte(e) || (|e| == 1 && e[0] < 0x80)
    ensures CompletePrefix(e + rest) == |e| + CompletePrefix(rest)
  {
    assert |e| == SequenceLength(e[0]);
    assert (e + rest)[|e|..] == rest;
    if |e| > 1 {
      PlausibleIsGrammar(e);
      forall o | 1 <= o < |e| ensures ValidAt(e + rest, o) {
        assert ValidAt(e, o);
      }
      assert Plausible(e + rest);
    }
  }
}
