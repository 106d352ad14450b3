/** Byte strings, as Go strings are: a text is a sequence of bytes. */
module Bytes {

  type byte = b: int | 0 <= b < 256

  type Text = seq<byte>

  datatype Option<+T> = None | Some(value: T)

  const NEWLINE: byte := 10
  const QUOTE: byte := 34
  const DOLLAR: byte := 36
  const DOT: byte := 46
  const BACKSLASH: byte := 92
  const LETTER: byte := 97

  /** n copies of a byte. */
  function Repeated(b: byte, n: nat): (t: Text)
    ensures |t| == n && forall i :: 0 <= i < n ==> t[i] == b
  {
    seq(n, _ => b)
  }

  /** The bytes of a text in ASCII. */
  function Ascii(s: string): (t: Text)
    ensures |t| == |s| && forall i :: 0 <= i < |s| ==> t[i] == s[i] as int % 256
  {
    seq(|s|, i requires 0 <= i < |s| => s[i] as int % 256)
  }

  lemma Associative(a: Text, b: Text, c: Text)
    ensures (a + b) + c == a + (b + c)
  {
  }
}
