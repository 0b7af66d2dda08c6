/**
  UTF-8 well-formedness as defined by the syntax in section 4 of RFC 3629,
  and the two byte-level checks the streaming validator is built on:

  - `Valid` answers "is this byte string well-formed UTF-8?" (the "basic" check);
  - `Compat` reports, like Rust's `std::str::Utf8Error`, how long the valid
    prefix is and whether the rest is a definite error (`errorLen` is `Some`)
    or merely a character cut short by the end of input (`errorLen` is `None`).
 */
module Utf8Syntax {
  import opened Bytes
  import opened Wrappers

  /** Length of the character that lead byte `b` introduces, or 0 when no
      well-formed character starts with `b` (0x80-0xC1 and 0xF5-0xFF). */
  function LeadLen(b: byte): (n: nat)
    ensures n <= 4
    ensures n == 1 <==> b <= 0x7F
  {
    if b <= 0x7F then 1
    else if 0xC2 <= b <= 0xDF then 2
    else if 0xE0 <= b <= 0xEF then 3
    else if 0xF0 <= b <= 0xF4 then 4
    else 0
  }

  /** `UTF8-tail` of the grammar. */
  predicate IsTail(b: byte) {
    0x80 <= b <= 0xBF
  }

  /** The range allowed for the second byte after `lead`: narrower than
      `UTF8-tail` after E0, ED, F0 and F4, which excludes overlong forms,
      surrogates and values above U+10FFFF. */
  predicate SecondOk(lead: byte, b: byte) {
    if lead == 0xE0 then 0xA0 <= b <= 0xBF
    else if lead == 0xED then 0x80 <= b <= 0x9F
    else if lead == 0xF0 then 0x90 <= b <= 0xBF
    else if lead == 0xF4 then 0x80 <= b <= 0x8F
    else IsTail(b)
  }

  /** `s` is a non-empty prefix of some `UTF8-char`. */
  predicate StartsChar(s: seq<byte>) {
    && 1 <= |s| <= LeadLen(s[0])
    && (|s| >= 2 ==> SecondOk(s[0], s[1]))
    && (forall k | 2 <= k < |s| :: IsTail(s[k]))
  }

  /** `s` is exactly one `UTF8-char`. */
  predicate IsChar(s: seq<byte>) {
    StartsChar(s) && |s| == LeadLen(s[0])
  }

  /** `s` is a proper, non-empty prefix of some `UTF8-char`: a character cut
      short by the end of the input. */
  predicate IsTruncatedChar(s: seq<byte>) {
    StartsChar(s) && |s| < LeadLen(s[0])
  }

  /** Well-formed UTF-8, scanned character by character: the lead byte fixes
      each character's length, so the scan is deterministic. */
  predicate Valid(s: seq<byte>)
    decreases |s|
  {
    |s| == 0 || (var n := LeadLen(s[0]); 0 < n <= |s| && IsChar(s[..n]) && Valid(s[n..]))
  }

  /** Every element of `cs` is one `UTF8-char`. */
  predicate AllChars(cs: seq<seq<byte>>) {
    forall i | 0 <= i < |cs| :: IsChar(cs[i])
  }

  /** `UTF8-octets = *( UTF8-char )`: `s` is some concatenation of characters. */
  ghost predicate WellFormed(s: seq<byte>) {
    exists cs :: AllChars(cs) && Flatten(cs) == s
  }

  /** `s` can still be completed to well-formed UTF-8. */
  ghost predicate ValidPrefix(s: seq<byte>) {
    exists t :: Valid(s + t)
  }

  /** What `Compat` reports about invalid input. */
  datatype Utf8Error = Utf8Error(validUpTo: nat, errorLen: Option<nat>)

  /** Length of the longest prefix of `t` that begins a character; 0 when
      `t` is empty or starts with a byte no character can start with. */
  function MatchLen(t: seq<byte>): (m: nat)
    ensures m <= |t| && m <= 4
    ensures m > 0 ==> StartsChar(t[..m])
    ensures |t| > 0 && LeadLen(t[0]) > 0 ==> m > 0
    ensures m < |t| ==> !StartsChar(t[..m + 1])
  {
    if |t| == 0 then 0
    else
      var n := LeadLen(t[0]);
      if n == 0 then 0
      else if n == 1 || |t| == 1 then 1
      else if !SecondOk(t[0], t[1]) then 1
      else if n == 2 || |t| == 2 then 2
      else if !IsTail(t[2]) then 2
      else if n == 3 || |t| == 3 then 3
      else if !IsTail(t[3]) then 3
      else 4
  }

  /** Rust's `simdutf8::compat::from_utf8` (with std's error semantics). */
  function Compat(s: seq<byte>): Result<(), Utf8Error>
  {
    CompatFrom(s, 0)
  }

  /** The scan of `Compat`, from index `i` (a character boundary) on. */
  function CompatFrom(s: seq<byte>, i: nat): Result<(), Utf8Error>
    requires i <= |s|
    decreases |s| - i
  {
    if i == |s| then Ok(())
    else
      var n := LeadLen(s[i]);
      var m := MatchLen(s[i..]);
      if 0 < n && m == n then CompatFrom(s, i + n)
      else if m == |s| - i then Err(Utf8Error(i, None))
      else Err(Utf8Error(i, Some(if m == 0 then 1 else m)))
  }

  // ---------------------------------------------------------------------
  // Facts about characters

  /** Every non-empty prefix of a character prefix is a character prefix. */
  lemma StartsCharPrefix(s: seq<byte>, k: nat)
    requires StartsChar(s) && 1 <= k <= |s|
    ensures StartsChar(s[..k])
  {
  }

  /** `MatchLen` finds every character prefix of `t`. */
  lemma MatchLenMaximal(t: seq<byte>, k: nat)
    requires k <= |t| && StartsChar(t[..k])
    ensures k <= MatchLen(t)
  {
  }

  /** One character on its own is valid. */
  lemma CharValid(c: seq<byte>)
    requires IsChar(c)
    ensures Valid(c)
  {
    assert c[..|c|] == c;
    assert c[|c|..] == [];
  }

  /** A non-empty string shorter than its first character is not valid. */
  lemma ShortOfLead(x: seq<byte>)
    requires 0 < |x| < LeadLen(x[0])
    ensures !Valid(x)
  {
  }

  /** A valid non-empty string opens with a whole character. */
  lemma ValidOpensWithChar(x: seq<byte>)
    requires Valid(x) && 0 < |x|
    ensures 0 < LeadLen(x[0]) <= |x| && IsChar(x[..LeadLen(x[0])])
  {
  }

  /** A truncated character can be completed: some bytes make it one character. */
  lemma TruncatedCompletes(s: seq<byte>) returns (t: seq<byte>)
    requires IsTruncatedChar(s)
    ensures IsChar(s + t)
  {
    var n := LeadLen(s[0]);
    var second: byte := if s[0] == 0xE0 then 0xA0 else if s[0] == 0xF0 then 0x90 else 0x80;
    if |s| == 1 {
      t := [second] + seq(n - 2, _ => 0x80 as byte);
    } else {
      t := seq(n - |s|, _ => 0x80 as byte);
    }
  }

  // ---------------------------------------------------------------------
  // Concatenation

  /** Well-formed strings concatenate to a well-formed string. */
  lemma {:induction false} ValidConcat(a: seq<byte>, b: seq<byte>)
    requires Valid(a) && Valid(b)
    ensures Valid(a + b)
    decreases |a|
  {
    if |a| > 0 {
      var n := LeadLen(a[0]);
      assert (a + b)[..n] == a[..n];
      assert (a + b)[n..] == a[n..] + b;
      ValidConcat(a[n..], b);
    } else {
      assert a + b == b;
    }
  }

  /** Removing a well-formed prefix from a well-formed string leaves a
      well-formed string: characters never straddle the boundary. */
  lemma {:induction false} ValidCancel(a: seq<byte>, b: seq<byte>)
    requires Valid(a) && Valid(a + b)
    ensures Valid(b)
    decreases |a|
  {
    if |a| > 0 {
      var n := LeadLen(a[0]);
      assert (a + b)[n..] == a[n..] + b;
      ValidCancel(a[n..], b);
    } else {
      assert a + b == b;
    }
  }

  // ---------------------------------------------------------------------
  // The scan agrees with the grammar

  /** The characters of a valid string, in order. */
  function Chars(s: seq<byte>): (cs: seq<seq<byte>>)
    requires Valid(s)
    ensures AllChars(cs) && Flatten(cs) == s
    decreases |s|
  {
    if |s| == 0 then []
    else
      var n := LeadLen(s[0]);
      var rest := Chars(s[n..]);
      assert s == s[..n] + s[n..];
      FlattenCons(s[..n], rest);
      AllCharsCons(s[..n], rest);
      [s[..n]] + rest
  }

  /** A character in front of characters. */
  lemma AllCharsCons(c: seq<byte>, rest: seq<seq<byte>>)
    requires IsChar(c) && AllChars(rest)
    ensures AllChars([c] + rest)
  {
  }

  /** Any concatenation of characters passes the scan. */
  lemma {:induction false} FlattenCharsValid(cs: seq<seq<byte>>)
    requires AllChars(cs)
    ensures Valid(Flatten(cs))
  {
    if |cs| > 0 {
      CharValid(cs[0]);
      FlattenCharsValid(cs[1..]);
      ValidConcat(cs[0], Flatten(cs[1..]));
    }
  }

  /** The deterministic scan accepts exactly the strings of the grammar
      `UTF8-octets = *( UTF8-char )`. */
  lemma ValidIffWellFormed(s: seq<byte>)
    ensures Valid(s) <==> WellFormed(s)
  {
    if Valid(s) {
      var cs := Chars(s);
      assert AllChars(cs) && Flatten(cs) == s;
    }
    if WellFormed(s) {
      var cs :| AllChars(cs) && Flatten(cs) == s;
      FlattenCharsValid(cs);
    }
  }

  // ---------------------------------------------------------------------
  // What Compat reports

  /** What a `Compat` error `e` promises about `s[i..]`: everything before
      `validUpTo` is valid, nothing longer is, and `errorLen` tells a
      truncated character apart from a definite error. */
  ghost predicate DescribesError(s: seq<byte>, i: nat, e: Utf8Error)
    requires i <= |s|
  {
    && i <= e.validUpTo < |s|
    && Valid(s[i..e.validUpTo])
    && (forall k | e.validUpTo < k <= |s| :: !Valid(s[i..k]))
    && (e.errorLen.None? <==> IsTruncatedChar(s[e.validUpTo..]))
    && (e.errorLen.Some? ==> 1 <= e.errorLen.value <= 3)
  }

  /** A string that opens with a whole character is valid exactly when the
      rest after that character is. */
  lemma ValidAfterChar(x: seq<byte>, n: nat)
    requires 0 < n <= |x| && n == LeadLen(x[0]) && IsChar(x[..n])
    ensures Valid(x) <==> Valid(x[n..])
  {
  }

  /** Where the scan stops, no non-empty valid string starts. */
  lemma NoValidAtError(t: seq<byte>, k: nat)
    requires 0 < k <= |t|
    requires !(0 < LeadLen(t[0]) && MatchLen(t) == LeadLen(t[0]))
    ensures !Valid(t[..k])
  {
    var n := LeadLen(t[0]);
    if Valid(t[..k]) {
      assert t[..k][..n] == t[..n];
      MatchLenMaximal(t, n);
    }
  }

  /** Where the scan stops, `MatchLen` covers all of `t` exactly when `t` is
      a truncated character. */
  lemma TruncatedAtError(t: seq<byte>)
    requires 0 < |t|
    requires !(0 < LeadLen(t[0]) && MatchLen(t) == LeadLen(t[0]))
    ensures MatchLen(t) == |t| <==> IsTruncatedChar(t)
  {
    assert t[..|t|] == t;
    if IsTruncatedChar(t) {
      MatchLenMaximal(t, |t|);
    }
  }

  /** The scan stepping over a whole character at `i` keeps reporting
      relative to `i`. */
  lemma CompatFromSkip(s: seq<byte>, i: nat, n: nat, r: Result<(), Utf8Error>)
    requires i + n <= |s| && 0 < n == LeadLen(s[i]) && IsChar(s[i..i + n])
    requires Reports(s, i + n, r)
    ensures Reports(s, i, r)
  {
    SkipChar(s, i, n, |s|);
    assert s[i..|s|] == s[i..] && s[i + n..|s|] == s[i + n..];
    if r.Err? {
      var e := r.error;
      SkipChar(s, i, n, e.validUpTo);
      forall k | e.validUpTo < k <= |s|
        ensures !Valid(s[i..k])
      {
        SkipChar(s, i, n, k);
      }
    }
  }

  /** Past a whole character at `i`, validity up to `k` is validity from
      the next character up to `k`. */
  lemma SkipChar(s: seq<byte>, i: nat, n: nat, k: nat)
    requires i + n <= k <= |s| && 0 < n == LeadLen(s[i]) && IsChar(s[i..i + n])
    ensures Valid(s[i..k]) <==> Valid(s[i + n..k])
  {
    assert s[i..k][..n] == s[i..i + n];
    assert s[i..k][n..] == s[i + n..k];
    ValidAfterChar(s[i..k], n);
  }

  lemma CompatFromStop(s: seq<byte>, i: nat)
    requires i < |s|
    requires !(0 < LeadLen(s[i]) && MatchLen(s[i..]) == LeadLen(s[i]))
    ensures CompatFrom(s, i).Err? && Reports(s, i, CompatFrom(s, i))
  {
    var t := s[i..];
    assert s[i..i] == [];
    NothingValidFrom(s, i);
    assert s[i..|s|] == s[i..];
    TruncatedAtError(t);
    StopFields(s, i);
  }

  /** No non-empty stretch from a position where no character starts is valid. */
  lemma NothingValidFrom(s: seq<byte>, i: nat)
    requires i < |s|
    requires !(0 < LeadLen(s[i]) && MatchLen(s[i..]) == LeadLen(s[i]))
    ensures forall k | i < k <= |s| :: !Valid(s[i..k])
  {
    var t := s[i..];
    forall k | i < k <= |s|
      ensures !Valid(s[i..k])
    {
      NoValidAtError(t, k - i);
      assert t[..k - i] == s[i..k];
    }
  }

  /** The error `CompatFrom` reports where no character starts. */
  lemma StopFields(s: seq<byte>, i: nat)
    requires i < |s|
    requires !(0 < LeadLen(s[i]) && MatchLen(s[i..]) == LeadLen(s[i]))
    ensures CompatFrom(s, i).Err? && CompatFrom(s, i).error.validUpTo == i
    ensures CompatFrom(s, i).error.errorLen.None? <==> MatchLen(s[i..]) == |s| - i
    ensures CompatFrom(s, i).error.errorLen.Some? ==> 1 <= CompatFrom(s, i).error.errorLen.value <= 3
  {
  }


  /** Where a whole character starts, `CompatFrom` steps over it. */
  lemma MatchedChar(s: seq<byte>, i: nat)
    requires i < |s| && 0 < LeadLen(s[i]) && MatchLen(s[i..]) == LeadLen(s[i])
    ensures i + LeadLen(s[i]) <= |s| && IsChar(s[i..i + LeadLen(s[i])])
    ensures CompatFrom(s, i) == CompatFrom(s, i + LeadLen(s[i]))
  {
    assert s[i..][..LeadLen(s[i])] == s[i..i + LeadLen(s[i])];
  }

  /** `r` reports on `s[i..]` as `Compat` promises. */
  ghost predicate Reports(s: seq<byte>, i: nat, r: Result<(), Utf8Error>)
    requires i <= |s|
  {
    && (r.Ok? <==> Valid(s[i..]))
    && (r.Err? ==> DescribesError(s, i, r.error))
  }

  /** The scan from boundary `i` reports on `s[i..]` alone. */
  lemma {:induction false} CompatFromSpec(s: seq<byte>, i: nat)
    requires i <= |s|
    ensures Reports(s, i, CompatFrom(s, i))
    decreases |s| - i
  {
    if i == |s| {
      assert s[i..] == [];
    } else {
      var n := LeadLen(s[i]);
      if 0 < n && MatchLen(s[i..]) == n {
        MatchedChar(s, i);
        CompatFromSpec(s, i + n);
        CompatFromSkip(s, i, n, CompatFrom(s, i + n));
      } else {
        CompatFromStop(s, i);
      }
    }
  }

  lemma CompatSpec(s: seq<byte>)
    ensures Compat(s).Ok? <==> Valid(s)
    ensures Compat(s).Err? ==> DescribesError(s, 0, Compat(s).error)
  {
    CompatFromSpec(s, 0);
    assert s[0..] == s;
    forall k | 0 <= k <= |s|
      ensures s[0..k] == s[..k]
    {
    }
  }

  /** Input that `Compat` reports as a truncated character can be completed. */
  lemma TruncatedInputCompletes(s: seq<byte>) returns (t: seq<byte>)
    requires Compat(s).Err? && Compat(s).error.errorLen.None?
    ensures Valid(s + t)
  {
    CompatSpec(s);
    var v := Compat(s).error.validUpTo;
    var w := s[v..];
    t := TruncatedCompletes(w);
    CharValid(w + t);
    ValidConcat(s[..v], w + t);
    assert s == s[..v] + w;
    AppendAssoc(s[..v], w, t);
  }

  /** When valid input continues past a valid prefix, the character that
      follows the prefix, if it fits in `s`, extends the valid prefix. */
  lemma NextCharExtends(s: seq<byte>, v: nat, t: seq<byte>)
    requires v < |s| && Valid(s[..v]) && Valid(s[v..] + t)
    requires LeadLen(s[v]) <= |s| - v
    ensures 0 < LeadLen(s[v]) && Valid(s[0..v + LeadLen(s[v])])
  {
    var w, u := s[v..], s[v..] + t;
    var n := LeadLen(s[v]);
    assert u[0] == s[v];
    assert w[..n] == u[..n];
    assert w[..n] == s[v..v + n];
    assert s[0..v + n] == s[..v] + s[v..v + n];
    CharValid(u[..n]);
    ValidConcat(s[..v], w[..n]);
  }

  /** When valid input continues past a valid prefix but the rest of `s`
      is shorter than the next character, the rest is a cut-short character. */
  lemma NextCharCut(w: seq<byte>, t: seq<byte>)
    requires 0 < |w| < LeadLen(w[0]) && Valid(w + t)
    ensures IsTruncatedChar(w)
  {
    var u := w + t;
    var n := LeadLen(u[0]);
    assert u[..n][..|w|] == w;
    StartsCharPrefix(u[..n], |w|);
  }

  /** Input that `Compat` reports as a definite error stays invalid whatever follows. */
  lemma DefiniteErrorIsFinal(s: seq<byte>, t: seq<byte>)
    requires Compat(s).Err? && Compat(s).error.errorLen.Some?
    ensures !Valid(s + t)
  {
    CompatSpec(s);
    var v := Compat(s).error.validUpTo;
    assert s + t == s[..v] + (s[v..] + t);
    if Valid(s + t) {
      ValidCancel(s[..v], s[v..] + t);
      if LeadLen(s[v]) <= |s| - v {
        NextCharExtends(s, v, t);
        assert false;
      } else {
        NextCharCut(s[v..], t);
        assert false;
      }
    }
  }

  /** `Compat` distinguishes input that can still become valid UTF-8 (no
      error, or a character cut short at the end) from input that cannot. */
  lemma CompatValidPrefix(s: seq<byte>)
    ensures (Compat(s).Ok? || Compat(s).error.errorLen.None?) <==> ValidPrefix(s)
  {
    CompatSpec(s);
    if Compat(s).Ok? {
      assert s + [] == s;
    } else if Compat(s).error.errorLen.None? {
      var t := TruncatedInputCompletes(s);
    } else if ValidPrefix(s) {
      var t :| Valid(s + t);
      DefiniteErrorIsFinal(s, t);
    }
  }
}
