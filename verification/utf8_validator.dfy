/**
  The UTF-8 helpers of `src/utf8.rs`: `parse_str`, and the streaming
  `Validator` that checks the chunks of a (possibly fragmented) text message
  as they arrive, keeping the first bytes of a codepoint split across chunks
  in a four-byte buffer. Section 5.6 and section 8.1 of RFC 6455 require text
  messages to be valid UTF-8; the byte-level checks come from `Utf8Syntax`.
 */
module Utf8 {
  import opened Bytes
  import opened Wrappers
  import opened Utf8Syntax

  /** The protocol error this module reports. */
  datatype ProtocolError = InvalidUtf8

  /** `parse_str`: the input as a string, when it is valid UTF-8. */
  function ParseStr(input: seq<byte>): (r: Result<seq<byte>, ProtocolError>)
    ensures r.Ok? <==> WellFormed(input)
    ensures r.Ok? ==> r.value == input
    ensures r.Err? ==> r.error == InvalidUtf8
  {
    ValidIffWellFormed(input);
    if Valid(input) then Ok(input) else Err(InvalidUtf8)
  }

  /** The validator: a four-byte buffer `partial` whose first `partialLen`
      bytes are a codepoint still waiting for its remaining bytes. */
  datatype Validator = Validator(partial: seq<byte>, partialLen: nat)

  /** One call of `feed`: what it returns and the state it leaves. */
  datatype Step = Step(result: Result<(), ProtocolError>, state: Validator)

  /** The buffer invariant the source's unchecked code relies on: the buffer
      holds four bytes, and the pending bytes are a well-formed codepoint cut
      short, so they are fewer than the codepoint's length. */
  predicate Inv(v: Validator) {
    && |v.partial| == 4
    && v.partialLen < 4
    && (v.partialLen > 0 ==> IsTruncatedChar(v.partial[..v.partialLen]))
  }

  /** The bytes of the codepoint waiting to be completed. */
  function Pending(v: Validator): seq<byte>
    requires v.partialLen <= |v.partial|
  {
    v.partial[..v.partialLen]
  }

  /** `x` is a valid string followed by `pending`. */
  ghost predicate Splits(x: seq<byte>, pending: seq<byte>) {
    |pending| <= |x| && x[|x| - |pending|..] == pending && Valid(x[..|x| - |pending|])
  }

  /** `Validator::new`. */
  function New(): (v: Validator)
    ensures Inv(v) && Pending(v) == []
  {
    Validator([0, 0, 0, 0], 0)
  }

  /** The lead-byte ranges `complete_codepoint_len` classifies. */
  predicate Classified(b: byte) {
    b <= 0x7F || 0xC0 <= b <= 0xF7
  }

  /** The number of one bits in front of the first zero bit among the
      `width` high bits of `b`. */
  function LeadingOnes(b: byte, width: nat): nat
    requires width <= 8
  {
    if width == 0 || b < 0x80 then 0
    else 1 + LeadingOnes(((b as int * 2) % 0x100) as byte, width - 1)
  }

  /** Doubling a byte in the top half drops its top bit. */
  lemma ShiftOut(b: byte, width: nat)
    requires 0x80 <= b && 0 < width <= 8
    ensures LeadingOnes(b, width) == 1 + LeadingOnes((b as int * 2 - 0x100) as byte, width - 1)
  {
    assert (b as int * 2) % 0x100 == b as int * 2 - 0x100;
  }

  /** The leading one bits of each classified lead byte. */
  lemma LeadingOnesOfLead(b: byte)
    requires Classified(b)
    ensures LeadingOnes(b, 8) == if b < 0x80 then 0 else if b <= 0xDF then 2 else if b <= 0xEF then 3 else 4
  {
    if 0x80 <= b {
      var b1 := (b as int * 2 - 0x100) as byte;
      ShiftOut(b, 8);
      ShiftOut(b1, 7);
      var b2 := (b1 as int * 2 - 0x100) as byte;
      if 0x80 <= b2 {
        ShiftOut(b2, 6);
        var b3 := (b2 as int * 2 - 0x100) as byte;
        if 0x80 <= b3 {
          ShiftOut(b3, 5);
        }
      }
    }
  }

  /** `complete_codepoint_len`: the length of the pending codepoint once
      complete, read off its first byte: one for `0xxxxxxx`, otherwise the
      number of leading one bits (`110xxxxx`, `1110xxxx`, `11110xxx`). Any
      other first byte is undefined behaviour in the source, hence the
      precondition. */
  function CompleteCodepointLen(v: Validator): (n: nat)
    requires |v.partial| == 4 && Classified(v.partial[0])
    ensures 1 <= n <= 4
    ensures n == if v.partial[0] < 0x80 then 1 else LeadingOnes(v.partial[0], 8)
    ensures LeadLen(v.partial[0]) > 0 ==> n == LeadLen(v.partial[0])
  {
    var b := v.partial[0];
    LeadingOnesOfLead(b);
    if b <= 0x7F then 1
    else if b <= 0xDF then 2
    else if b <= 0xEF then 3
    else 4
  }

  /** Whenever a codepoint is pending, its first byte is one the
      classification handles, and it is still short of its full length. */
  lemma PendingLeadClassified(v: Validator)
    requires Inv(v) && v.partialLen > 0
    ensures Classified(v.partial[0])
    ensures v.partialLen < CompleteCodepointLen(v) <= 4
  {
    assert Pending(v)[0] == v.partial[0];
  }

  /** `reset`: forget the pending codepoint. */
  function Reset(v: Validator): (r: Validator)
    ensures r.partialLen == 0 && r.partial == v.partial
    ensures Inv(v) ==> Inv(r)
  {
    v.(partialLen := 0)
  }

  function Min(a: nat, b: nat): nat {
    if a <= b then a else b
  }

  /** The second half of `feed`: check the rest of the input once no
      codepoint is pending. A final chunk must be valid as a whole; a
      non-final one may end in a truncated codepoint, which is stored. */
  function FeedRemaining(v: Validator, remaining: seq<byte>, isComplete: bool): (r: Step)
    requires Inv(v) && v.partialLen == 0
    ensures Inv(r.state)
    ensures isComplete ==> (r.result.Ok? <==> Valid(remaining)) && Pending(r.state) == []
    ensures !isComplete ==> (r.result.Ok? <==> ValidPrefix(remaining))
    ensures r.result.Ok? ==> Splits(remaining, Pending(r.state))
  {
    if isComplete then
      var cleared := Reset(v);
      if Valid(remaining) then
        assert remaining[..|remaining| - 0] == remaining;
        Step(Ok(()), cleared)
      else Step(Err(InvalidUtf8), cleared)
    else
      CompatValidPrefix(remaining);
      CompatSpec(remaining);
      match Compat(remaining)
      case Ok(_) =>
        assert remaining[..|remaining| - 0] == remaining;
        Step(Ok(()), v)
      case Err(e) =>
        if e.errorLen.Some? then Step(Err(InvalidUtf8), v)
        else
          var n := |remaining| - e.validUpTo;
          var stored := v.(partial := remaining[e.validUpTo..] + v.partial[n..], partialLen := n);
          assert Pending(stored) == remaining[e.validUpTo..];
          assert remaining[..e.validUpTo] == remaining[0..e.validUpTo];
          Step(Ok(()), stored)
  }

  /** `feed`: check the next chunk of a message; `isComplete` marks its last
      chunk. A pending codepoint is completed from the front of the chunk
      first, then the rest of the chunk is checked. */
  function Feed(v: Validator, input: seq<byte>, isComplete: bool): (r: Step)
    requires Inv(v)
    ensures Inv(r.state)
    ensures |input| == 0 && !isComplete ==> r == Step(Ok(()), v)
    ensures v.partialLen == 0 && isComplete ==> (r.result.Ok? <==> Valid(input)) && Pending(r.state) == []
  {
    if v.partialLen == 0 then FeedRemaining(v, input, isComplete)
    else if |input| == 0 && !isComplete then Step(Ok(()), v)
    else
      PendingLeadClassified(v);
      var missing := CompleteCodepointLen(v) - v.partialLen;
      var toCopy := Min(|input|, missing);
      var after := v.partialLen + toCopy;
      var filled := v.(partial := v.partial[..v.partialLen] + input[..toCopy] + v.partial[after..]);
      assert Pending(filled) == Pending(v);
      var codepoint := filled.partial[..after];
      if |input| >= missing then
        if !Valid(codepoint) then Step(Err(InvalidUtf8), filled)
        else FeedRemaining(Reset(filled), input[toCopy..], isComplete)
      else
        match Compat(codepoint)
        case Ok(_) => FeedRemaining(Reset(filled), input[toCopy..], isComplete)
        case Err(e) =>
          if e.errorLen.Some? then Step(Err(InvalidUtf8), filled)
          else
            ShortCodepointTruncated(codepoint);
            var stored := filled.(partialLen := after);
            if isComplete then Step(Err(InvalidUtf8), stored) else Step(Ok(()), stored)
  }

  /** A codepoint buffer still short of its length, which `Compat` does not
      reject outright, is a truncated codepoint. */
  lemma ShortCodepointTruncated(c: seq<byte>)
    requires 0 < |c| < LeadLen(c[0])
    requires Compat(c).Err? && Compat(c).error.errorLen.None?
    ensures IsTruncatedChar(c)
  {
    CompatSpec(c);
    var vu := Compat(c).error.validUpTo;
    assert c[vu..] == c;
  }

  // ---------------------------------------------------------------------
  // What one call of `feed` means

  /** Prepending a valid string does not change whether a string can still
      be completed. */
  lemma PrependValidPrefix(c: seq<byte>, rest: seq<byte>)
    requires Valid(c)
    ensures ValidPrefix(rest) <==> ValidPrefix(c + rest)
  {
    if ValidPrefix(rest) {
      var t :| Valid(rest + t);
      CompletionLifts(c, rest, t);
    }
    if ValidPrefix(c + rest) {
      var t :| Valid(c + rest + t);
      CompletionDrops(c, rest, t);
    }
  }

  lemma CompletionLifts(c: seq<byte>, rest: seq<byte>, t: seq<byte>)
    requires Valid(c) && Valid(rest + t)
    ensures ValidPrefix(c + rest)
  {
    ValidConcat(c, rest + t);
    assert c + (rest + t) == (c + rest) + t;
  }

  lemma CompletionDrops(c: seq<byte>, rest: seq<byte>, t: seq<byte>)
    requires Valid(c) && Valid(c + rest + t)
    ensures ValidPrefix(rest)
  {
    assert c + rest + t == c + (rest + t);
    ValidCancel(c, rest + t);
  }

  /** A valid string followed by pending bytes splits there. */
  lemma SplitsOf(a: seq<byte>, pending: seq<byte>)
    requires Valid(a)
    ensures Splits(a + pending, pending)
  {
    var x := a + pending;
    assert x[..|a|] == a;
    assert x[|a|..] == pending;
  }

  /** A split string is its valid prefix followed by the pending bytes. */
  lemma SplitsParts(x: seq<byte>, pending: seq<byte>)
    requires Splits(x, pending)
    ensures x == x[..|x| - |pending|] + pending
  {
    var k := |x| - |pending|;
    assert x == x[..k] + x[k..];
  }

  /** Prepending a valid string keeps a split into a valid prefix and a
      pending tail. */
  lemma PrependSplits(c: seq<byte>, rest: seq<byte>, pending: seq<byte>)
    requires Valid(c) && Splits(rest, pending)
    ensures Splits(c + rest, pending)
  {
    SplitsParts(rest, pending);
    var a := rest[..|rest| - |pending|];
    ValidConcat(c, a);
    AppendAssoc(c, a, pending);
    SplitsOf(c + a, pending);
  }

  /** A string whose first character is not whole, and is not valid on its
      own, cannot be completed. */
  lemma BrokenFirstChar(x: seq<byte>, n: nat)
    requires 0 < n <= |x| && n == LeadLen(x[0]) && !Valid(x[..n])
    ensures !ValidPrefix(x)
  {
    if ValidPrefix(x) {
      var t :| Valid(x + t);
      ValidOpensWithChar(x + t);
      assert (x + t)[..n] == x[..n];
      CharValid(x[..n]);
      assert false;
    }
  }

  /** How the completing branch of `feed` unfolds: the pending bytes and the
      front of the chunk form one codepoint; an invalid one fails, a valid
      one leaves the rest of the chunk to a validator with nothing pending. */
  lemma CompletingBranch(v: Validator, input: seq<byte>, isComplete: bool)
    returns (codepoint: seq<byte>, rest: seq<byte>, w: Validator)
    requires Inv(v) && v.partialLen > 0
    requires |input| >= LeadLen(v.partial[0]) - v.partialLen
    ensures Pending(v) + input == codepoint + rest
    ensures |codepoint| == LeadLen(v.partial[0]) && codepoint[0] == v.partial[0]
    ensures Inv(w) && w.partialLen == 0
    ensures !Valid(codepoint) ==> Feed(v, input, isComplete).result.Err?
    ensures Valid(codepoint) ==> Feed(v, input, isComplete) == FeedRemaining(w, rest, isComplete)
  {
    var p := Pending(v);
    var n := LeadLen(v.partial[0]);
    var missing := n - v.partialLen;
    codepoint := p + input[..missing];
    rest := input[missing..];
    AppendAssoc(p, input[..missing], rest);
    assert input == input[..missing] + rest;
    assert codepoint[0] == p[0];
    var filled := v.(partial := v.partial[..v.partialLen] + input[..missing] + v.partial[n..]);
    assert filled.partial[..n] == codepoint;
    w := Reset(filled);
  }

  /** The completing branch of `feed`: the chunk supplies all missing bytes. */
  lemma FeedCompletes(v: Validator, input: seq<byte>, isComplete: bool)
    requires Inv(v) && v.partialLen > 0
    requires |input| >= LeadLen(v.partial[0]) - v.partialLen
    ensures var r := Feed(v, input, isComplete); var x := Pending(v) + input;
      && (isComplete ==> (r.result.Ok? <==> Valid(x)))
      && (!isComplete ==> (r.result.Ok? <==> ValidPrefix(x)))
      && (r.result.Ok? ==> Splits(x, Pending(r.state)))
  {
    var codepoint, rest, w := CompletingBranch(v, input, isComplete);
    var x := Pending(v) + input;
    if Valid(codepoint) {
      CodepointThenRest(codepoint, rest, FeedRemaining(w, rest, isComplete), isComplete);
    } else {
      var n := |codepoint|;
      assert x[..n] == codepoint;
      BrokenFirstChar(x, n);
      assert x + [] == x;
    }
  }

  /** A valid codepoint in front of the rest of the chunk changes none of
      the rest's verdicts. */
  lemma CodepointThenRest(codepoint: seq<byte>, rest: seq<byte>, r: Step, isComplete: bool)
    requires Valid(codepoint) && r.state.partialLen <= |r.state.partial|
    requires isComplete ==> (r.result.Ok? <==> Valid(rest))
    requires !isComplete ==> (r.result.Ok? <==> ValidPrefix(rest))
    requires r.result.Ok? ==> Splits(rest, Pending(r.state))
    ensures var x := codepoint + rest;
      && (isComplete ==> (r.result.Ok? <==> Valid(x)))
      && (!isComplete ==> (r.result.Ok? <==> ValidPrefix(x)))
      && (r.result.Ok? ==> Splits(x, Pending(r.state)))
  {
    if Valid(rest) { ValidConcat(codepoint, rest); }
    if Valid(codepoint + rest) { ValidCancel(codepoint, rest); }
    PrependValidPrefix(codepoint, rest);
    if r.result.Ok? { PrependSplits(codepoint, rest, Pending(r.state)); }
  }

  /** The branch of `feed` where the chunk is too short to complete the
      pending codepoint. */
  lemma FeedStaysShort(v: Validator, input: seq<byte>, isComplete: bool)
    requires Inv(v) && v.partialLen > 0
    requires |input| < LeadLen(v.partial[0]) - v.partialLen
    requires |input| > 0 || isComplete
    ensures var r := Feed(v, input, isComplete); var x := Pending(v) + input;
      && (isComplete ==> r.result.Err? && !Valid(x))
      && (!isComplete ==> (r.result.Ok? <==> ValidPrefix(x)))
      && (r.result.Ok? ==> Splits(x, Pending(r.state)))
  {
    var p := Pending(v);
    var x := p + input;
    var after := v.partialLen + |input|;
    var filled := v.(partial := v.partial[..v.partialLen] + input + v.partial[after..]);
    assert input[..|input|] == input;
    assert filled.partial[..after] == x;
    assert x[0] == v.partial[0];
    ShortOfLead(x);
    CompatSpec(x);
    CompatValidPrefix(x);
    if Compat(x).Err? && Compat(x).error.errorLen.None? {
      assert Pending(filled.(partialLen := after)) == x;
      assert x[..|x| - |x|] == [];
    }
  }

  /** One call of `feed`, in terms of everything still unchecked (the
      pending bytes followed by the chunk): a final chunk succeeds exactly
      when that is valid UTF-8, a non-final chunk exactly when it can still
      be completed to valid UTF-8; after success, what is left pending is
      what follows a valid prefix. */
  lemma FeedSpec(v: Validator, input: seq<byte>, isComplete: bool)
    requires Inv(v)
    ensures var r := Feed(v, input, isComplete); var x := Pending(v) + input;
      && (isComplete ==> (r.result.Ok? <==> Valid(x)))
      && (!isComplete ==> (r.result.Ok? <==> ValidPrefix(x)))
      && (r.result.Ok? ==> Splits(x, Pending(r.state)))
  {
    var p := Pending(v);
    if v.partialLen == 0 {
      assert p + input == input;
    } else if |input| == 0 && !isComplete {
      assert p + input == p;
      var t := TruncatedCompletes(p);
      CharValid(p + t);
      assert p[..|p| - |p|] == [];
    } else if |input| >= LeadLen(v.partial[0]) - v.partialLen {
      FeedCompletes(v, input, isComplete);
    } else {
      FeedStaysShort(v, input, isComplete);
    }
  }

  // ---------------------------------------------------------------------
  // Whole messages

  /** Feeds the chunks of one message in order, all but the last as
      non-final, and tells whether every call succeeded (feeding stops at
      the first failure, which ends the connection). */
  function AcceptsMessage(v: Validator, chunks: seq<seq<byte>>): bool
    requires Inv(v) && |chunks| > 0
    decreases |chunks|
  {
    if |chunks| == 1 then Feed(v, chunks[0], true).result.Ok?
    else
      var step := Feed(v, chunks[0], false);
      step.result.Ok? && AcceptsMessage(step.state, chunks[1..])
  }

  /** Once `x` splits into a valid prefix and a pending tail, what follows
      `x` is judged together with the tail alone. */
  lemma SplitsThenRest(x: seq<byte>, pending: seq<byte>, rest: seq<byte>)
    requires Splits(x, pending)
    ensures Valid(x + rest) <==> Valid(pending + rest)
  {
    var a := x[..|x| - |pending|];
    assert x == a + pending;
    assert x + rest == a + (pending + rest);
    if Valid(pending + rest) { ValidConcat(a, pending + rest); }
    if Valid(x + rest) { ValidCancel(a, pending + rest); }
  }

  /** A string that cannot be completed stays invalid whatever follows. */
  lemma NoCompletion(x: seq<byte>, rest: seq<byte>)
    requires !ValidPrefix(x)
    ensures !Valid(x + rest)
  {
  }

  /** From any reachable state, a message is accepted exactly when the
      pending bytes followed by all its chunks are valid UTF-8. */
  lemma {:induction false} AcceptsMessageSpec(v: Validator, chunks: seq<seq<byte>>)
    requires Inv(v) && |chunks| > 0
    ensures AcceptsMessage(v, chunks) <==> Valid(Pending(v) + Flatten(chunks))
    decreases |chunks|
  {
    var rest := Flatten(chunks[1..]);
    var x := Pending(v) + chunks[0];
    assert Pending(v) + Flatten(chunks) == x + rest;
    if |chunks| == 1 {
      assert x + rest == x;
      FeedSpec(v, chunks[0], true);
    } else {
      FeedSpec(v, chunks[0], false);
      var step := Feed(v, chunks[0], false);
      if step.result.Ok? {
        AcceptsMessageSpec(step.state, chunks[1..]);
        SplitsThenRest(x, Pending(step.state), rest);
      } else {
        NoCompletion(x, rest);
      }
    }
  }

  /** Streaming equivalence: however a byte string is cut into chunks, a new
      validator accepts every chunk exactly when the whole string is valid
      UTF-8. */
  lemma StreamingEquivalence(chunks: seq<seq<byte>>)
    requires |chunks| > 0
    ensures AcceptsMessage(New(), chunks) <==> Valid(Flatten(chunks))
  {
    AcceptsMessageSpec(New(), chunks);
    assert Pending(New()) + Flatten(chunks) == Flatten(chunks);
  }

  /** After `reset`, a validator judges the next message on its own bytes,
      whatever was left pending before. */
  lemma ResetStartsFresh(v: Validator, chunks: seq<seq<byte>>)
    requires Inv(v) && |chunks| > 0
    ensures AcceptsMessage(Reset(v), chunks) <==> Valid(Flatten(chunks))
  {
    AcceptsMessageSpec(Reset(v), chunks);
    assert Pending(Reset(v)) + Flatten(chunks) == Flatten(chunks);
  }

  // ---------------------------------------------------------------------
  // Single-call properties in the source's own terms

  /** With nothing pending, a non-final chunk fails only on a definite
      encoding error; a truncated tail is stored, and its length (the chunk
      length minus `validUpTo`) is between 1 and 3. */
  lemma FeedNonFinalFresh(v: Validator, input: seq<byte>)
    requires Inv(v) && v.partialLen == 0
    ensures var r := Feed(v, input, false);
      && (r.result.Err? <==> Compat(input).Err? && Compat(input).error.errorLen.Some?)
      && (Compat(input).Ok? ==> r.state == v)
      && (Compat(input).Err? && Compat(input).error.errorLen.None? ==>
            var vu := Compat(input).error.validUpTo;
            && r.state.partialLen == |input| - vu
            && 1 <= r.state.partialLen <= 3
            && Pending(r.state) == input[vu..])
  {
    CompatSpec(input);
  }

  /** A pending codepoint that the last chunk does not complete makes `feed`
      fail, an empty last chunk included. */
  lemma FeedFinalIncomplete(v: Validator, input: seq<byte>)
    requires Inv(v) && v.partialLen > 0
    requires |input| < LeadLen(v.partial[0]) - v.partialLen
    ensures Feed(v, input, true).result == Err(InvalidUtf8)
  {
    FeedStaysShort(v, input, true);
  }

  /** "é" (C3 A9) is valid UTF-8; its first byte alone is not. */
  lemma SampleCharValid(e: seq<byte>)
    requires e == [0xC3, 0xA9]
    ensures Valid(e) && !Valid(e[..1])
  {
    assert e[..2] == e && e[2..] == [];
  }

  /** "é" (C3 A9) split after its first byte is accepted; its first byte
      alone as a whole message is not. */
  lemma ExampleSplitCodepoint()
    ensures AcceptsMessage(New(), [[0xC3], [0xA9]])
    ensures !AcceptsMessage(New(), [[0xC3]])
  {
    var e: seq<byte> := [0xC3, 0xA9];
    SampleCharValid(e);
    var lead, tail := e[..1], e[1..];
    assert lead == [0xC3] && tail == [0xA9] && lead + tail == e;
    FlattenPair(lead, tail);
    FlattenCons(lead, []);
    assert lead + [] == lead;
    StreamingEquivalence([lead, tail]);
    StreamingEquivalence([lead]);
  }
}
