/**
 * The escaping of inserted values (fmt's %q without its outer quotes), a lexer
 * for JSON strings, and the unescaping a JSON reader and a Go reader perform.
 */
module Quote {
  import opened Bytes
  import opened Utf8

  // Escaping

  function HexDigit(d: int): (b: byte)
    requires 0 <= d < 16
    ensures 48 <= b <= 57 || 97 <= b <= 102
  {
    if d < 10 then 48 + d else 87 + d
  }

  function Hex2(r: int): Text
    requires 0 <= r < 256
  {
    [HexDigit(r / 16), HexDigit(r % 16)]
  }

  function Hex4(r: int): Text
    requires 0 <= r < 0x10000
  {
    Hex2(r / 256) + Hex2(r % 256)
  }

  function Hex8(r: int): Text
    requires 0 <= r < 0x110000
  {
    Hex4(r / 0x10000) + Hex4(r % 0x10000)
  }

  /** strconv.IsPrint; isPrint is its table for code points from 0x80 on. */
  predicate Printable(isPrint: int -> bool, r: int) {
    if r < 0x80 then 0x20 <= r < 0x7F else isPrint(r)
  }

  /** The letter of the two-byte escape %q has for a control character, 0 if it has none. */
  function ControlLetter(r: int): byte {
    if r == 7 then 97 else if r == 8 then 98 else if r == 12 then 102 else if r == 10 then 110
    else if r == 13 then 114 else if r == 9 then 116 else if r == 11 then 118 else 0
  }

  /** The ways %q writes a character: as it is, as \ and a letter, or as \x, \u or \U and digits. */
  datatype Form = Raw | Short(letter: byte) | ByteHex | RuneHex | LongHex

  function FormOf(isPrint: int -> bool, s: Text): Form
    requires s != []
  {
    var (r, width) := DecodeRune(s);
    if r == REPLACEMENT && width == 1 then ByteHex
    else if s[0] == QUOTE || s[0] == BACKSLASH then Short(s[0])
    else if Printable(isPrint, r) then Raw
    else if ControlLetter(r) != 0 then Short(ControlLetter(r))
    else if r < 0x20 || r == 0x7F then ByteHex
    else if r < 0x10000 then RuneHex
    else LongHex
  }

  /** One iteration of strconv.Quote: what is written for the character at the front of s. */
  function EscapeChar(isPrint: int -> bool, s: Text): Text
    requires s != []
  {
    var (r, width) := DecodeRune(s);
    match FormOf(isPrint, s)
    case Raw => s[..width]
    case Short(letter) => [BACKSLASH, letter]
    case ByteHex => [BACKSLASH, 120] + Hex2(s[0])
    case RuneHex => [BACKSLASH, 117] + Hex4(r)
    case LongHex => [BACKSLASH, 85] + Hex8(r)
  }

  /** escapeTemplateValue. */
  function Escape(isPrint: int -> bool, s: Text): Text {
    if s == [] then []
    else EscapeChar(isPrint, s) + Escape(isPrint, s[DecodeRune(s).1..])
  }

  // The structure of JSON strings (section 7 of RFC 8259)

  datatype Lexer = Outside | Inside | Escaped

  function Advance(q: Lexer, b: byte): Lexer {
    match q
    case Outside => if b == QUOTE then Inside else Outside
    case Inside => if b == QUOTE then Outside else if b == BACKSLASH then Escaped else Inside
    case Escaped => Inside
  }

  /** The state after reading s. */
  function StateAfter(q: Lexer, s: Text): Lexer
    decreases s
  {
    if s == [] then q else StateAfter(Advance(q, s[0]), s[1..])
  }

  /** The byte b if it lies outside strings or delimits one. */
  function Kept(q: Lexer, b: byte): Text {
    if q.Outside? || Advance(q, b).Outside? then [b] else []
  }

  /** What s holds outside strings, their delimiters included. */
  function Skeleton(q: Lexer, s: Text): Text
    decreases s
  {
    if s == [] then [] else Kept(q, s[0]) + Skeleton(Advance(q, s[0]), s[1..])
  }

  lemma {:induction false} StateConcat(q: Lexer, a: Text, b: Text)
    ensures StateAfter(q, a + b) == StateAfter(StateAfter(q, a), b)
    decreases a
  {
    if a == [] {
      assert a + b == b;
    } else {
      StateConcat(Advance(q, a[0]), a[1..], b);
      assert (a + b)[1..] == a[1..] + b;
    }
  }

  lemma {:induction false} SkeletonConcat(q: Lexer, a: Text, b: Text)
    ensures Skeleton(q, a + b) == Skeleton(q, a) + Skeleton(StateAfter(q, a), b)
    decreases a
  {
    if a == [] {
      assert a + b == b;
    } else {
      var k, q' := Kept(q, a[0]), Advance(q, a[0]);
      SkeletonConcat(q', a[1..], b);
      assert (a + b)[1..] == a[1..] + b && (a + b)[0] == a[0];
      Associative(k, Skeleton(q', a[1..]), Skeleton(StateAfter(q, a), b));
    }
  }

  /** Texts that read alike, each before texts that read alike, together read alike. */
  lemma ConcatAlike(q: Lexer, a: Text, b: Text, c: Text, d: Text)
    requires StateAfter(q, a) == StateAfter(q, c) && Skeleton(q, a) == Skeleton(q, c)
    requires StateAfter(StateAfter(q, a), b) == StateAfter(StateAfter(q, a), d)
    requires Skeleton(StateAfter(q, a), b) == Skeleton(StateAfter(q, a), d)
    ensures StateAfter(q, a + b) == StateAfter(q, c + d) && Skeleton(q, a + b) == Skeleton(q, c + d)
  {
    StateConcat(q, a, b);
    StateConcat(q, c, d);
    SkeletonConcat(q, a, b);
    SkeletonConcat(q, c, d);
  }

  /** Read inside a string, s ends inside it and shows nothing outside. */
  ghost predicate StaysInside(s: Text) {
    StateAfter(Inside, s) == Inside && Skeleton(Inside, s) == []
  }

  /** Neither a quote nor a backslash. */
  predicate IsPlain(s: Text) {
    QUOTE !in s && BACKSLASH !in s
  }

  lemma {:induction false} PlainStaysInside(s: Text)
    requires IsPlain(s)
    ensures StaysInside(s)
  {
    if s != [] {
      PlainStaysInside(s[1..]);
    }
  }

  lemma HexIsPlain(r: int)
    requires 0 <= r < 0x110000
    ensures IsPlain(Hex8(r))
    ensures r < 0x10000 ==> IsPlain(Hex4(r))
    ensures r < 256 ==> IsPlain(Hex2(r))
  {
    assert forall h :: 0 <= h < 256 ==> IsPlain(Hex2(h));
    assert forall h :: 0 <= h < 0x10000 ==> IsPlain(Hex4(h));
  }

  lemma {:induction false} EscapeCharShape(isPrint: int -> bool, s: Text)
    requires s != []
    ensures var out := EscapeChar(isPrint, s);
            if FormOf(isPrint, s).Raw? then IsPlain(out) && forall i :: 0 <= i < |out| ==> out[i] >= 0x20
            else |out| >= 2 && out[0] == BACKSLASH && IsPlain(out[2..])
  {
    var out := EscapeChar(isPrint, s);
    var r := DecodeRune(s).0;
    match FormOf(isPrint, s) {
      case Raw =>
        RawBytes(isPrint, s);
      case Short(letter) =>
      case ByteHex =>
        HexIsPlain(s[0]);
        assert out[2..] == Hex2(s[0]);
      case RuneHex =>
        HexIsPlain(r);
        assert out[2..] == Hex4(r);
      case LongHex =>
        HexIsPlain(r);
        assert out[2..] == Hex8(r);
    }
  }

  lemma RawBytes(isPrint: int -> bool, s: Text)
    requires s != [] && FormOf(isPrint, s).Raw?
    ensures forall i :: 0 <= i < DecodeRune(s).1 ==> s[i] >= 0x20 && s[i] != QUOTE && s[i] != BACKSLASH
  {
    assert CharLen(s) > 0;
  }

  /** An escaped value never ends the string it is put in and adds nothing outside it. */
  lemma {:induction false} EscapeStaysInside(isPrint: int -> bool, s: Text)
    ensures StaysInside(Escape(isPrint, s))
  {
    if s != [] {
      var out := EscapeChar(isPrint, s);
      EscapeCharShape(isPrint, s);
      if IsPlain(out) {
        PlainStaysInside(out);
      } else {
        PlainStaysInside(out[2..]);
        assert out[1..][1..] == out[2..];
      }
      EscapeStaysInside(isPrint, s[DecodeRune(s).1..]);
      StateConcat(Inside, out, Escape(isPrint, s[DecodeRune(s).1..]));
      SkeletonConcat(Inside, out, Escape(isPrint, s[DecodeRune(s).1..]));
    }
  }

  // What is left as it is

  /** Valid UTF-8, every character of it printable and neither a quote nor a backslash. */
  predicate NeedsNoEscape(isPrint: int -> bool, s: Text) {
    s == [] || (CharLen(s) > 0 && Printable(isPrint, DecodeRune(s).0) && s[0] != QUOTE && s[0] != BACKSLASH
                && NeedsNoEscape(isPrint, s[CharLen(s)..]))
  }

  lemma EscapeCharGrows(isPrint: int -> bool, s: Text)
    requires s != []
    ensures var (r, width) := DecodeRune(s);
            if CharLen(s) > 0 && Printable(isPrint, r) && s[0] != QUOTE && s[0] != BACKSLASH
            then EscapeChar(isPrint, s) == s[..width]
            else |EscapeChar(isPrint, s)| > width
  {
  }

  lemma {:induction false} EscapeGrows(isPrint: int -> bool, s: Text)
    ensures |Escape(isPrint, s)| >= |s|
    ensures |Escape(isPrint, s)| == |s| ==> NeedsNoEscape(isPrint, s)
  {
    hide EscapeChar, DecodeRune, Printable;
    if s != [] {
      EscapeCharGrows(isPrint, s);
      EscapeGrows(isPrint, s[DecodeRune(s).1..]);
    }
  }

  /** A value goes in as it is exactly when it needs no escape; any other becomes longer. */
  lemma {:induction false} EscapeIsIdentity(isPrint: int -> bool, s: Text)
    ensures Escape(isPrint, s) == s <==> NeedsNoEscape(isPrint, s)
  {
    hide EscapeChar, DecodeRune, Printable;
    EscapeGrows(isPrint, s);
    if NeedsNoEscape(isPrint, s) && s != [] {
      EscapeCharGrows(isPrint, s);
      EscapeIsIdentity(isPrint, s[CharLen(s)..]);
      assert s[..CharLen(s)] + s[CharLen(s)..] == s;
    }
  }

  /** Printable ASCII but for quotes and backslashes. */
  lemma {:induction false} AsciiStays(isPrint: int -> bool, s: Text)
    requires forall i :: 0 <= i < |s| ==> 0x20 <= s[i] <= 0x7E && s[i] != QUOTE && s[i] != BACKSLASH
    ensures Escape(isPrint, s) == s
  {
    NoEscapeInAscii(isPrint, s);
    EscapeIsIdentity(isPrint, s);
  }

  lemma {:induction false} NoEscapeInAscii(isPrint: int -> bool, s: Text)
    requires forall i :: 0 <= i < |s| ==> 0x20 <= s[i] <= 0x7E && s[i] != QUOTE && s[i] != BACKSLASH
    ensures NeedsNoEscape(isPrint, s)
  {
    if s != [] {
      assert CharLen(s) == 1 && DecodeRune(s).0 == s[0] as int;
      NoEscapeInAscii(isPrint, s[1..]);
    }
  }

  // Reading escapes as JSON does

  function HexValue(b: byte): (d: Option<int>)
    ensures d.Some? ==> 0 <= d.value < 16
  {
    if 48 <= b <= 57 then Some(b as int - 48)
    else if 97 <= b <= 102 then Some(b as int - 87)
    else if 65 <= b <= 70 then Some(b as int - 55)
    else None
  }

  function ReadHex2(a: byte, b: byte): (r: Option<int>)
    ensures r.Some? ==> 0 <= r.value < 256
  {
    if HexValue(a).Some? && HexValue(b).Some? then Some(HexValue(a).value * 16 + HexValue(b).value) else None
  }

  function ReadHex4(s: Text): (r: Option<int>)
    ensures r.Some? ==> 0 <= r.value < 0x10000
  {
    if |s| < 4 then None
    else
      var (high, low) := (ReadHex2(s[0], s[1]), ReadHex2(s[2], s[3]));
      if high.Some? && low.Some? then Some(high.value * 256 + low.value) else None
  }

  /** The byte a two-byte JSON escape stands for. */
  function SimpleEscape(b: byte): Option<byte> {
    if b == QUOTE || b == BACKSLASH || b == 47 then Some(b)
    else if b == 98 then Some(8)
    else if b == 102 then Some(12)
    else if b == 110 then Some(10)
    else if b == 114 then Some(13)
    else if b == 116 then Some(9)
    else None
  }

  function Prepend(s: Text, rest: Option<Text>): Option<Text> {
    if rest.Some? then Some(s + rest.value) else None
  }

  /**
   * The value of the text between the quotes of a JSON string, None if section 7 of RFC 8259
   * does not allow it. Escaped surrogates, which %q never writes, are not read.
   */
  function Unescape(s: Text): Option<Text> {
    if s == [] then Some([])
    else if s[0] == QUOTE || s[0] < 0x20 then None
    else if s[0] != BACKSLASH then Prepend([s[0]], Unescape(s[1..]))
    else if |s| == 1 then None
    else if SimpleEscape(s[1]).Some? then Prepend([SimpleEscape(s[1]).value], Unescape(s[2..]))
    else if s[1] == 117 then
      match ReadHex4(s[2..])
      case Some(r) => if 0xD800 <= r < 0xE000 then None else Prepend(EncodeRune(r), Unescape(s[6..]))
      case None => None
    else None
  }

  /** The characters whose %q form is also a JSON string. */
  predicate IsJsonRune(isPrint: int -> bool, r: int) {
    if r < 0x20 then r == 8 || r == 9 || r == 10 || r == 12 || r == 13
    else r != 0x7F && (r < 0x10000 || isPrint(r))
  }

  /** Valid UTF-8 holding only such characters. */
  predicate IsJsonSafe(isPrint: int -> bool, s: Text) {
    s == [] || (CharLen(s) > 0 && IsJsonRune(isPrint, DecodeRune(s).0)
                && IsJsonSafe(isPrint, s[CharLen(s)..]))
  }

  lemma PlainFirst(s: Text)
    requires s != [] && s[0] != QUOTE && s[0] != BACKSLASH && s[0] >= 0x20
    ensures Unescape(s) == Prepend([s[0]], Unescape(s[1..]))
  {
  }

  lemma {:induction false} UnescapePlain(a: Text, b: Text)
    requires IsPlain(a) && forall i :: 0 <= i < |a| ==> a[i] >= 0x20
    ensures Unescape(a + b) == Prepend(a, Unescape(b))
  {
    hide Unescape, Prepend;
    if a == [] {
      assert a + b == b;
      PrependPrepend([], [], Unescape(b));
    } else {
      UnescapePlain(a[1..], b);
      assert (a + b)[1..] == a[1..] + b;
      PlainFirst(a + b);
      PrependPrepend([a[0]], a[1..], Unescape(b));
      assert [a[0]] + a[1..] == a;
    }
  }

  lemma Hex4Reads(r: int, rest: Text)
    requires 0 <= r < 0x10000
    ensures ReadHex4(Hex4(r) + rest) == Some(r)
  {
    var s := Hex4(r) + rest;
    var hi, lo := r / 256, r % 256;
    assert s[0] == HexDigit(hi / 16) && s[1] == HexDigit(hi % 16);
    assert s[2] == HexDigit(lo / 16) && s[3] == HexDigit(lo % 16);
  }

  /** A backslash and a letter. */
  lemma UnescapeShort(b: byte, rest: Text)
    requires b != 117
    ensures Unescape([BACKSLASH, b] + rest) ==
              if SimpleEscape(b).Some? then Prepend([SimpleEscape(b).value], Unescape(rest)) else None
  {
    assert ([BACKSLASH, b] + rest)[2..] == rest;
  }

  /** A \u escape of a character that is no surrogate. */
  lemma {:induction false} UnescapeHex(r: int, rest: Text)
    requires 0 <= r < 0x10000 && !(0xD800 <= r < 0xE000)
    ensures Unescape([BACKSLASH, 117] + Hex4(r) + rest) == Prepend(EncodeRune(r), Unescape(rest))
  {
    var s := [BACKSLASH, 117] + Hex4(r) + rest;
    assert s[2..] == Hex4(r) + rest && s[6..] == rest;
    Hex4Reads(r, rest);
  }

  /** The forms of a character, seen from the condition under which JSON reads them. */
  lemma {:induction false} FormIsJson(isPrint: int -> bool, s: Text)
    requires s != []
    ensures var (r, width) := DecodeRune(s);
            var ok := CharLen(s) > 0 && IsJsonRune(isPrint, r);
            match FormOf(isPrint, s)
            case Raw => ok
            case Short(letter) => letter != 117 && s[..width] == [s[0]]
              && (if ok then SimpleEscape(letter) == Some(s[0]) else SimpleEscape(letter) == None)
            case ByteHex => !ok
            case RuneHex => ok && EncodeRune(r) == s[..width]
            case LongHex => !ok
  {
    if FormOf(isPrint, s).RuneHex? {
      EncodeDecoded(s);
    }
  }

  /** One character: its escape reads back as the character, or cannot be read. */
  lemma UnescapeChar(isPrint: int -> bool, s: Text, rest: Text)
    requires s != []
    ensures Unescape(EscapeChar(isPrint, s) + rest) ==
              if CharLen(s) > 0 && IsJsonRune(isPrint, DecodeRune(s).0)
              then Prepend(s[..DecodeRune(s).1], Unescape(rest)) else None
  {
    hide Unescape, DecodeRune, IsJsonRune, CharLen, Hex2, Hex4, Hex8;
    var out := EscapeChar(isPrint, s);
    FormIsJson(isPrint, s);
    match FormOf(isPrint, s) {
      case Raw =>
        EscapeCharShape(isPrint, s);
        UnescapePlain(out, rest);
      case Short(letter) =>
        UnescapeShort(letter, rest);
      case RuneHex =>
        UnescapeHex(DecodeRune(s).0, rest);
      case _ =>
        UnescapeShort(out[1], out[2..] + rest);
        assert out + rest == [BACKSLASH, out[1]] + (out[2..] + rest);
    }
  }

  lemma PrependPrepend(a: Text, b: Text, rest: Option<Text>)
    ensures Prepend(a, Prepend(b, rest)) == Prepend(a + b, rest)
    ensures Prepend([], rest) == rest
  {
    if rest.Some? {
      assert a + (b + rest.value) == (a + b) + rest.value;
      assert [] + rest.value == rest.value;
    }
  }

  /**
   * A JSON reader gets an inserted value back, whatever follows it, exactly when every character
   * of the value is one that %q writes in a JSON way; otherwise it finds no string at all.
   */
  lemma {:induction false} UnescapeEscape(isPrint: int -> bool, s: Text, rest: Text)
    ensures Unescape(Escape(isPrint, s) + rest) ==
              if IsJsonSafe(isPrint, s) then Prepend(s, Unescape(rest)) else None
  {
    hide Unescape, EscapeChar, DecodeRune, CharLen, IsJsonRune;
    if s == [] {
      assert Escape(isPrint, s) + rest == rest;
      PrependPrepend([], [], Unescape(rest));
    } else {
      var head, tail := s[..DecodeRune(s).1], s[DecodeRune(s).1..];
      var out, escaped := EscapeChar(isPrint, s), Escape(isPrint, tail);
      Associative(out, escaped, rest);
      UnescapeChar(isPrint, s, escaped + rest);
      UnescapeEscape(isPrint, tail, rest);
      assert head + tail == s;
      PrependPrepend(head, tail, Unescape(rest));
    }
  }

  /** Three values that come out as no JSON: a bell, a delete, a byte that starts no character. */
  lemma UnsafeValues(isPrint: int -> bool, b: byte)
    requires b == 7 || b == 0x7F || b == 0xFF
    ensures !IsJsonSafe(isPrint, [b]) && Unescape(Escape(isPrint, [b])) == None
  {
    assert DecodeRune([b]).0 == (if b == 0xFF then REPLACEMENT else b as int);
    UnescapeEscape(isPrint, [b], []);
    assert Escape(isPrint, [b]) + [] == Escape(isPrint, [b]);
  }

  // Reading escapes as Go does

  /** The byte a two-byte escape of a Go string stands for. */
  function GoEscape(b: byte): Option<byte> {
    if b == QUOTE || b == BACKSLASH then Some(b)
    else if b == 97 then Some(7)
    else if b == 98 then Some(8)
    else if b == 102 then Some(12)
    else if b == 110 then Some(10)
    else if b == 114 then Some(13)
    else if b == 116 then Some(9)
    else if b == 118 then Some(11)
    else None
  }

  function ReadHex8(s: Text): (r: Option<int>)
    ensures r.Some? ==> 0 <= r.value
  {
    if |s| < 8 then None
    else
      var (high, low) := (ReadHex4(s[..4]), ReadHex4(s[4..8]));
      if high.Some? && low.Some? then Some(high.value * 0x10000 + low.value) else None
  }

  /** The character an escape names, if it names one, and then the rest. */
  function Rune(r: Option<int>, rest: Option<Text>): Option<Text> {
    match r
    case Some(c) => if 0 <= c < 0x110000 && !(0xD800 <= c < 0xE000) then Prepend(EncodeRune(c), rest) else None
    case None => None
  }

  /** The value of the text between the quotes of a Go string, None if there is no such string. */
  function GoValue(s: Text): Option<Text> {
    if s == [] then Some([])
    else if s[0] == QUOTE || s[0] == NEWLINE then None
    else if s[0] != BACKSLASH then Prepend([s[0]], GoValue(s[1..]))
    else if |s| == 1 then None
    else if GoEscape(s[1]).Some? then Prepend([GoEscape(s[1]).value], GoValue(s[2..]))
    else if s[1] == 120 && |s| >= 4 then
      match ReadHex2(s[2], s[3])
      case Some(b) => Prepend([b as byte], GoValue(s[4..]))
      case None => None
    else if s[1] == 117 && |s| >= 6 then Rune(ReadHex4(s[2..]), GoValue(s[6..]))
    else if s[1] == 85 && |s| >= 10 then Rune(ReadHex8(s[2..]), GoValue(s[10..]))
    else None
  }

  lemma GoPlainFirst(s: Text)
    requires s != [] && s[0] != QUOTE && s[0] != BACKSLASH && s[0] != NEWLINE
    ensures GoValue(s) == Prepend([s[0]], GoValue(s[1..]))
  {
  }

  lemma {:induction false} GoPlain(a: Text, b: Text)
    requires IsPlain(a) && NEWLINE !in a
    ensures GoValue(a + b) == Prepend(a, GoValue(b))
  {
    hide GoValue, Prepend;
    if a == [] {
      assert a + b == b;
      PrependPrepend([], [], GoValue(b));
    } else {
      GoPlain(a[1..], b);
      assert (a + b)[1..] == a[1..] + b;
      GoPlainFirst(a + b);
      PrependPrepend([a[0]], a[1..], GoValue(b));
      assert [a[0]] + a[1..] == a;
    }
  }

  lemma {:induction false} Hex8Reads(r: int, rest: Text)
    requires 0 <= r < 0x110000
    ensures ReadHex8(Hex8(r) + rest) == Some(r)
  {
    var s, high, low := Hex8(r) + rest, Hex4(r / 0x10000), Hex4(r % 0x10000);
    Hex4Reads(r / 0x10000, []);
    Hex4Reads(r % 0x10000, []);
    assert s[..4] == high + [] && s[4..8] == low + [];
  }

  lemma Hex2Reads(b: byte)
    ensures ReadHex2(Hex2(b)[0], Hex2(b)[1]) == Some(b as int)
  {
  }

  /** One character, however it is written, reads back in Go. */
  lemma GoChar(isPrint: int -> bool, s: Text, rest: Text)
    requires s != []
    ensures GoValue(EscapeChar(isPrint, s) + rest) == Prepend(s[..DecodeRune(s).1], GoValue(rest))
  {
    hide GoValue, DecodeRune, CharLen, Hex2, Hex4, Hex8;
    var (r, width) := DecodeRune(s);
    var out := EscapeChar(isPrint, s);
    GoForm(isPrint, s);
    match FormOf(isPrint, s) {
      case Raw =>
        EscapeCharShape(isPrint, s);
        GoPlain(out, rest);
      case Short(letter) =>
        GoShort(letter, rest);
      case ByteHex =>
        GoByteHex(s[0], rest);
      case RuneHex =>
        GoRuneHex(r, rest);
      case LongHex =>
        GoLongHex(r, rest);
    }
  }

  /** What each form says of the character it is chosen for. */
  lemma {:induction false} GoForm(isPrint: int -> bool, s: Text)
    requires s != []
    ensures var (r, width) := DecodeRune(s);
            match FormOf(isPrint, s)
            case Raw => true
            case Short(letter) => s[..width] == [s[0]] && GoEscape(letter) == Some(s[0])
            case ByteHex => s[..width] == [s[0]]
            case RuneHex => r < 0x10000 && EncodeRune(r) == s[..width]
            case LongHex => EncodeRune(r) == s[..width]
  {
    if FormOf(isPrint, s).RuneHex? || FormOf(isPrint, s).LongHex? {
      EncodeDecoded(s);
    }
  }

  lemma GoShort(b: byte, rest: Text)
    requires GoEscape(b).Some?
    ensures GoValue([BACKSLASH, b] + rest) == Prepend([GoEscape(b).value], GoValue(rest))
  {
    assert ([BACKSLASH, b] + rest)[2..] == rest;
  }

  lemma GoByteHex(b: byte, rest: Text)
    ensures GoValue([BACKSLASH, 120] + Hex2(b) + rest) == Prepend([b], GoValue(rest))
  {
    var s := [BACKSLASH, 120] + Hex2(b) + rest;
    Hex2Reads(b);
    assert s[4..] == rest;
  }

  lemma {:induction false} GoRuneHex(r: int, rest: Text)
    requires 0 <= r < 0x10000 && !(0xD800 <= r < 0xE000)
    ensures GoValue([BACKSLASH, 117] + Hex4(r) + rest) == Prepend(EncodeRune(r), GoValue(rest))
  {
    var s := [BACKSLASH, 117] + Hex4(r) + rest;
    assert s[2..] == Hex4(r) + rest && s[6..] == rest;
    Hex4Reads(r, rest);
  }

  lemma GoLong(s: Text)
    requires |s| >= 10 && s[0] == BACKSLASH && s[1] == 85
    ensures GoValue(s) == Rune(ReadHex8(s[2..]), GoValue(s[10..]))
  {
    hide ReadHex8, EncodeRune, Prepend, Rune;
  }

  lemma Hex8Length(r: int)
    requires 0 <= r < 0x110000
    ensures |Hex8(r)| == 8
  {
  }

  lemma {:induction false} GoLongHex(r: int, rest: Text)
    requires 0 <= r < 0x110000 && !(0xD800 <= r < 0xE000)
    ensures GoValue([BACKSLASH, 85] + Hex8(r) + rest) == Prepend(EncodeRune(r), GoValue(rest))
  {
    hide Hex8, ReadHex8, EncodeRune, Prepend, GoValue;
    var s := [BACKSLASH, 85] + Hex8(r) + rest;
    Hex8Reads(r, rest);
    Hex8Length(r);
    assert s[2..] == Hex8(r) + rest && s[10..] == rest;
    GoLong(s);
  }

  /** Every text, whatever its bytes, reads back in Go from its escaped form. */
  lemma {:induction false} GoRoundTrip(isPrint: int -> bool, s: Text)
    ensures GoValue(Escape(isPrint, s)) == Some(s)
  {
    hide GoValue, EscapeChar, DecodeRune;
    if s == [] {
      EmptyValue();
    } else {
      var head, tail := s[..DecodeRune(s).1], s[DecodeRune(s).1..];
      GoChar(isPrint, s, Escape(isPrint, tail));
      GoRoundTrip(isPrint, tail);
      assert head + tail == s;
    }
  }

  lemma EmptyValue()
    ensures GoValue([]) == Some([])
  {
  }

  /** The control characters that have a letter are written with it. */
  lemma ControlsAreShort(isPrint: int -> bool, b: byte)
    requires 7 <= b <= 13
    ensures |Escape(isPrint, [b])| == 2 && GoEscape(Escape(isPrint, [b])[1]) == Some(b)
  {
    assert CharLen([b]) == 1 && DecodeRune([b]).0 == b as int;
    assert [b][1..] == [];
  }
}
