/** Bytes, byte strings and the helpers the protocol modules share. */
module Bytes {

  /** An unsigned 8-bit integer (Rust's `u8`). */
  newtype byte = x: int | 0 <= x < 0x100

  /** An unsigned 16-bit integer (Rust's `u16`), used for TCP ports. */
  newtype u16 = x: int | 0 <= x < 0x1_0000

  const CR: byte := 0x0D
  const LF: byte := 0x0A

  /** The bytes of an ASCII string literal such as `b"GET "`. */
  function Ascii(s: string): (r: seq<byte>)
    ensures |r| == |s|
  {
    seq(|s|, i requires 0 <= i < |s| => (s[i] as int % 0x100) as byte)
  }

  /** `Ascii` distributes over concatenation. */
  lemma AsciiAppend(s: string, t: string)
    ensures Ascii(s + t) == Ascii(s) + Ascii(t)
  {
  }

  /** Concatenation is associative. */
  lemma AppendAssoc<T>(p: seq<T>, q: seq<T>, r: seq<T>)
    ensures p + (q + r) == (p + q) + r
  {
  }

  /** The concatenation of a sequence of chunks, in order. */
  function Flatten<T>(chunks: seq<seq<T>>): seq<T>
  {
    if |chunks| == 0 then [] else chunks[0] + Flatten(chunks[1..])
  }

  /** Flattening a list with a given first chunk. */
  lemma FlattenCons<T>(c: seq<T>, rest: seq<seq<T>>)
    ensures Flatten([c] + rest) == c + Flatten(rest)
  {
    assert ([c] + rest)[1..] == rest;
  }

  /** Flattening a list of two chunks. */
  lemma FlattenPair<T>(a: seq<T>, b: seq<T>)
    ensures Flatten([a, b]) == a + b
  {
    FlattenCons(a, [b]);
    FlattenCons(b, []);
    assert b + [] == b;
  }
}
