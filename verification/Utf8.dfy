/**
 * UTF-8 at the byte level, as Go's unicode/utf8 reads it. Well-formed
 * sequences are those of the grammar in section 4 of RFC 3629.
 */
module Utf8 {
  import opened Bytes

  /** What DecodeRuneInString returns for a byte that starts no character. */
  const REPLACEMENT := 0xFFFD

  /** A byte of the form 10xxxxxx: utf8.RuneStart is its negation. */
  predicate IsContinuation(b: byte) {
    0x80 <= b <= 0xBF
  }

  /** The second byte a given first byte of a three- or four-byte character allows. */
  predicate SecondByteFits(first: byte, second: byte) {
    && IsContinuation(second)
    && (first == 0xE0 ==> 0xA0 <= second)
    && (first == 0xED ==> second <= 0x9F)
    && (first == 0xF0 ==> 0x90 <= second)
    && (first == 0xF4 ==> second <= 0x8F)
  }

  /** The length of the well-formed character at the front of s, or 0 if there is none. */
  function CharLen(s: Text): (n: nat)
    ensures n <= |s| && n <= 4
    ensures n > 0 ==> !IsContinuation(s[0])
    ensures forall i :: 0 < i < n ==> IsContinuation(s[i])
  {
    if s == [] then 0
    else if s[0] < 0x80 then 1
    else if 0xC2 <= s[0] <= 0xDF && |s| >= 2 && IsContinuation(s[1]) then 2
    else if 0xE0 <= s[0] <= 0xEF && |s| >= 3 && SecondByteFits(s[0], s[1]) && IsContinuation(s[2]) then 3
    else if 0xF0 <= s[0] <= 0xF4 && |s| >= 4 && SecondByteFits(s[0], s[1]) && IsContinuation(s[2])
            && IsContinuation(s[3]) then 4
    else 0
  }

  /** The bits of b below its marker bits. */
  function Payload(b: byte, marker: int): int {
    b as int - marker
  }

  /** The code point at the front of s and the number of bytes read, as DecodeRuneInString. */
  function DecodeRune(s: Text): (r: (int, nat))
    requires s != []
    ensures 1 <= r.1 <= |s|
    ensures CharLen(s) > 0 ==> r.1 == CharLen(s)
    ensures 0 <= r.0 < 0x110000 && !(0xD800 <= r.0 < 0xE000)
  {
    var n := CharLen(s);
    if n == 1 then (s[0], 1)
    else if n == 2 then (Payload(s[0], 0xC0) * 64 + Payload(s[1], 0x80), 2)
    else if n == 3 then
      (Payload(s[0], 0xE0) * 4096 + Payload(s[1], 0x80) * 64 + Payload(s[2], 0x80), 3)
    else if n == 4 then
      (Payload(s[0], 0xF0) * 262144 + Payload(s[1], 0x80) * 4096 + Payload(s[2], 0x80) * 64
       + Payload(s[3], 0x80), 4)
    else (REPLACEMENT, 1)
  }

  /** The UTF-8 form of a code point. */
  function EncodeRune(r: int): Text
    requires 0 <= r < 0x110000
  {
    if r < 0x80 then [r]
    else if r < 0x800 then [0xC0 + r / 64, 0x80 + r % 64]
    else if r < 0x10000 then [0xE0 + r / 4096, 0x80 + r / 64 % 64, 0x80 + r % 64]
    else [0xF0 + r / 262144, 0x80 + r / 4096 % 64, 0x80 + r / 64 % 64, 0x80 + r % 64]
  }

  /** Decoding a character and encoding its code point gives the character back. */
  lemma {:induction false} EncodeDecoded(s: Text)
    requires CharLen(s) > 0
    ensures EncodeRune(DecodeRune(s).0) == s[..CharLen(s)]
  {
    hide EncodeRune;
    var n := CharLen(s);
    if n == 1 {
      OneByteRune(s[0]);
      assert s[..1] == [s[0]];
    } else if n == 2 {
      EncodeTwo(Payload(s[0], 0xC0), Payload(s[1], 0x80));
      assert s[..2] == [s[0], s[1]];
    } else if n == 3 {
      EncodeThree(Payload(s[0], 0xE0), Payload(s[1], 0x80), Payload(s[2], 0x80));
      assert s[..3] == [s[0], s[1], s[2]];
    } else {
      EncodeFour(Payload(s[0], 0xF0), Payload(s[1], 0x80), Payload(s[2], 0x80), Payload(s[3], 0x80));
      assert s[..4] == [s[0], s[1], s[2], s[3]];
    }
  }

  lemma OneByteRune(b: byte)
    requires b < 0x80
    ensures EncodeRune(b) == [b]
  {
  }

  lemma EncodeTwo(a: int, b: int)
    requires 2 <= a < 32 && 0 <= b < 64
    ensures EncodeRune(a * 64 + b) == [0xC0 + a, 0x80 + b]
  {
    var r := a * 64 + b;
    assert r / 64 == a && r % 64 == b;
  }

  lemma EncodeThree(a: int, b: int, c: int)
    requires 0 <= a < 16 && 0 <= b < 64 && 0 <= c < 64 && a * 64 + b >= 32
    ensures EncodeRune(a * 4096 + b * 64 + c) == [0xE0 + a, 0x80 + b, 0x80 + c]
  {
    var r := a * 4096 + b * 64 + c;
    assert r / 4096 == a && r / 64 == a * 64 + b && r % 64 == c;
  }

  lemma EncodeFour(a: int, b: int, c: int, d: int)
    requires 0 <= a < 5 && 0 <= b < 64 && 0 <= c < 64 && 0 <= d < 64
    requires 16 <= a * 64 + b < 272
    ensures EncodeRune(a * 262144 + b * 4096 + c * 64 + d) == [0xF0 + a, 0x80 + b, 0x80 + c, 0x80 + d]
  {
    var r := a * 262144 + b * 4096 + c * 64 + d;
    assert r / 262144 == a;
    assert r / 4096 == a * 64 + b && (a * 64 + b) % 64 == b;
    assert r / 64 == a * 4096 + b * 64 + c && (a * 4096 + b * 64 + c) % 64 == c;
    assert r % 64 == d;
  }

  /** Every code point that is no surrogate is read back from its UTF-8 form, whatever follows. */
  lemma EncodedIsRead(r: int, rest: Text)
    requires 0 <= r < 0x110000 && !(0xD800 <= r < 0xE000)
    ensures var s := EncodeRune(r) + rest; CharLen(s) == |EncodeRune(r)| && DecodeRune(s) == (r, |EncodeRune(r)|)
  {
    var s := EncodeRune(r) + rest;
    if r < 0x80 {
      assert s[0] == r;
    } else if r < 0x800 {
      var a, b := r / 64, r % 64;
      assert s[0] == 0xC0 + a && s[1] == 0x80 + b && r == a * 64 + b;
    } else if r < 0x10000 {
      ThreeBytesRead(r, s);
    } else {
      FourBytesRead(r, s);
    }
  }

  lemma ThreeBytesRead(r: int, s: Text)
    requires 0x800 <= r < 0x10000 && !(0xD800 <= r < 0xE000) && |s| >= 3
    requires s[0] == 0xE0 + r / 4096 && s[1] == 0x80 + r / 64 % 64 && s[2] == 0x80 + r % 64
    ensures CharLen(s) == 3 && DecodeRune(s) == (r, 3)
  {
    var a, b, c := r / 4096, r / 64 % 64, r % 64;
    assert r / 64 == a * 64 + b && r == a * 4096 + b * 64 + c;
  }

  lemma FourBytesRead(r: int, s: Text)
    requires 0x10000 <= r < 0x110000 && |s| >= 4
    requires s[0] == 0xF0 + r / 262144 && s[1] == 0x80 + r / 4096 % 64 && s[2] == 0x80 + r / 64 % 64
    requires s[3] == 0x80 + r % 64
    ensures CharLen(s) == 4 && DecodeRune(s) == (r, 4)
  {
    var a, b, c, d := r / 262144, r / 4096 % 64, r / 64 % 64, r % 64;
    assert r / 4096 == a * 64 + b;
    assert r / 64 == (a * 64 + b) * 64 + c;
    assert r == a * 262144 + b * 4096 + c * 64 + d;
  }

  predicate Valid(s: Text) {
    s == [] || (CharLen(s) > 0 && Valid(s[CharLen(s)..]))
  }

  lemma ValidStart(s: Text)
    requires Valid(s) && s != []
    ensures !IsContinuation(s[0])
  {
  }

  /** What may follow a character does not change where it ends. */
  lemma CharLenOfPrefix(s: Text, p: nat)
    requires p <= |s| && 0 < CharLen(s) <= p
    ensures CharLen(s[..p]) == CharLen(s) && DecodeRune(s[..p]) == DecodeRune(s)
  {
  }

  lemma CharLenExtends(s: Text, more: Text)
    requires CharLen(s) > 0
    ensures CharLen(s + more) == CharLen(s) && DecodeRune(s + more) == DecodeRune(s)
  {
  }

  /** A byte that is no continuation byte does not lie inside the first character. */
  lemma NotInside(s: Text, p: nat)
    requires 0 < p <= |s| && (p < |s| ==> !IsContinuation(s[p]))
    ensures CharLen(s) <= p
  {
    hide CharLen;
  }

  /** A valid text may be cut before any byte that is not a continuation byte. */
  lemma {:induction false} CutAtStart(s: Text, p: nat)
    requires Valid(s) && p <= |s| && (p < |s| ==> !IsContinuation(s[p]))
    ensures Valid(s[..p]) && Valid(s[p..])
  {
    hide CharLen, DecodeRune, IsContinuation;
    var n := CharLen(s);
    if p == 0 {
      assert s[0..] == s;
    } else {
      NotInside(s, p);
      Slices(s, n, p);
      CutAtStart(s[n..], p - n);
      CharLenOfPrefix(s, p);
    }
  }

  lemma Slices(s: Text, n: nat, p: nat)
    requires n <= p <= |s|
    ensures s[..p][n..] == s[n..][..p - n] && s[n..][p - n..] == s[p..]
    ensures p < |s| ==> s[n..][p - n] == s[p]
  {
  }

  /** Of any four bytes in a row in a valid text, one starts a character. */
  lemma {:induction false} StartAmongFour(s: Text, p: nat)
    requires Valid(s) && p + 4 <= |s|
    ensures exists q :: p <= q < p + 4 && !IsContinuation(s[q])
  {
    var n := CharLen(s);
    if p == 0 {
      assert !IsContinuation(s[0]);
    } else if p < n {
      if n < |s| {
        assert !IsContinuation(s[n..][0]);
        assert !IsContinuation(s[n]);
      }
    } else {
      StartAmongFour(s[n..], p - n);
      var q :| p - n <= q < p - n + 4 && !IsContinuation(s[n..][q]);
      assert !IsContinuation(s[n + q]);
    }
  }
}
