/** What numerals and JSON scalars mean to a reader: the other side of writing them. */
module Numerals {
  import opened Bytes
  import opened Values

  // Digits

  lemma {:induction false} DigitsStart(n: nat)
    ensures n > 0 ==> Digits(n)[0] != 48
  {
    if n >= 10 {
      DigitsStart(n / 10);
    }
  }

  /** Digits without a superfluous zero in front are the digits of their value. */
  lemma {:induction false} DigitsAreCanonical(d: Text)
    requires d != [] && AllDigits(d) && (d[0] != 48 || |d| == 1)
    ensures Digits(DigitsValue(d)) == d
    decreases |d|
  {
    var n := |d| - 1;
    var e := d[..n];
    if n == 0 {
      assert DigitsValue(e) == 0;
    } else {
      DigitsAreCanonical(e);
      assert DigitsValue(e) == 0 ==> e == [48];
      assert d == e + [d[n]];
      assert DigitsValue(d) / 10 == DigitsValue(e) && DigitsValue(d) % 10 == d[n] as int - 48;
    }
  }

  lemma {:induction false} LeadingZero(d: Text)
    requires AllDigits(d)
    ensures AllDigits([48] + d) && DigitsValue([48] + d) == DigitsValue(d)
    decreases |d|
  {
    var zero := [48] + d;
    if d == [] {
      assert zero[..0] == [];
    } else {
      var n := |d| - 1;
      assert zero[..|zero| - 1] == [48] + d[..n];
      LeadingZero(d[..n]);
    }
  }

  lemma {:induction false} LeadingZeros(z: nat, n: nat)
    ensures var d := Repeated(48, z) + Digits(n); d != [] && AllDigits(d) && DigitsValue(d) == n && IsDigit(d[0])
  {
    var d := Repeated(48, z) + Digits(n);
    if z == 0 {
      assert d == Digits(n);
      DigitsRoundTrip(n);
    } else {
      LeadingZeros(z - 1, n);
      assert d == [48] + (Repeated(48, z - 1) + Digits(n));
      LeadingZero(Repeated(48, z - 1) + Digits(n));
    }
  }

  lemma {:induction false} CountZeros(d: Text) returns (z: nat)
    requires d != [] && AllDigits(d)
    ensures d == Repeated(48, z) + Digits(DigitsValue(d))
    decreases |d|
  {
    if d[0] != 48 || |d| == 1 {
      z := 0;
      DigitsAreCanonical(d);
      assert Repeated(48, 0) + d == d;
    } else {
      var rest := d[1..];
      z := CountZeros(rest);
      assert d == [48] + rest;
      LeadingZero(rest);
      z := z + 1;
      assert Repeated(48, z) == [48] + Repeated(48, z - 1);
    }
  }

  // Indices

  /** s is the number i in decimal: a sign that fits, any zeros, and the digits; a 64-bit number. */
  ghost predicate IsDecimal(s: Text, i: int) {
    && -MAX_INT - 1 <= i <= MAX_INT
    && exists sign, z :: IsSigned(s, i, sign, z)
  }

  ghost predicate IsSigned(s: Text, i: int, sign: Text, z: nat) {
    && (if i < 0 then sign == Ascii("-") else if i == 0 then sign in {[], Ascii("+"), Ascii("-")}
        else sign in {[], Ascii("+")})
    && s == sign + (Repeated(48, z) + Digits(if i < 0 then -i else i))
  }

  /** strconv.Atoi reads exactly the decimal numbers. */
  lemma AtoiExactly(s: Text, i: int)
    ensures Atoi(s) == Some(i) <==> IsDecimal(s, i)
  {
    if Atoi(s) == Some(i) {
      AtoiIsDecimal(s, i);
    }
    if IsDecimal(s, i) {
      var sign, z :| IsSigned(s, i, sign, z);
      DecimalIsRead(s, i, sign, z);
    }
  }

  lemma AtoiIsDecimal(s: Text, i: int)
    requires Atoi(s) == Some(i)
    ensures IsDecimal(s, i)
  {
    var signed := s != [] && (s[0] == 43 || s[0] == 45);
    var digits := if signed then s[1..] else s;
    var sign := if signed then [s[0]] else [];
    assert sign == [] || sign == Ascii("+") || sign == Ascii("-");
    var z := CountZeros(digits);
    assert s == sign + digits;
    assert IsSigned(s, i, sign, z);
  }

  lemma DecimalIsRead(s: Text, i: int, sign: Text, z: nat)
    requires -MAX_INT - 1 <= i <= MAX_INT && IsSigned(s, i, sign, z)
    ensures Atoi(s) == Some(i)
  {
    hide Digits, DigitsValue, AllDigits, Repeated;
    var n := if i < 0 then -i else i;
    var digits := Repeated(48, z) + Digits(n);
    LeadingZeros(z, n);
    if sign == [] {
      assert s == digits;
    } else {
      assert s[0] == sign[0] && s[1..] == digits;
    }
  }

  // Integers as strconv.FormatInt writes them

  /** The integer t stands for: a minus if it is negative, and no superfluous zero. */
  function ReadInt(t: Text): Option<int> {
    var negative := t != [] && t[0] == Ascii("-")[0];
    var digits := if negative then t[1..] else t;
    if digits == [] || !AllDigits(digits) || (digits[0] == 48 && (negative || |digits| > 1)) then None
    else Some(if negative then -(DigitsValue(digits) as int) else DigitsValue(digits))
  }

  lemma IntReads(t: Text, i: int)
    ensures ReadInt(t) == Some(i) <==> t == Itoa(i)
  {
    if ReadInt(t) == Some(i) {
      IntIsRead(t, i);
    }
    ReadsInt(i);
  }

  lemma IntIsRead(t: Text, i: int)
    requires ReadInt(t) == Some(i)
    ensures t == Itoa(i)
  {
    hide Digits, DigitsValue, AllDigits;
    ZeroDigits();
    if t[0] == 45 {
      DigitsAreCanonical(t[1..]);
      assert t == [45] + t[1..];
    } else {
      DigitsAreCanonical(t);
    }
  }

  lemma ZeroDigits()
    ensures Digits(0) == [48]
  {
  }

  lemma ReadsInt(i: int)
    ensures ReadInt(Itoa(i)) == Some(i)
  {
    hide Digits, DigitsValue, AllDigits;
    var n := if i < 0 then -i else i;
    LeadingZeros(0, n);
    assert Repeated(48, 0) + Digits(n) == Digits(n);
    DigitsStart(n);
    ZeroDigits();
    if i < 0 {
      assert Itoa(i)[1..] == Digits(n);
    }
  }

  // JSON scalars (sections 3 and 6 of RFC 8259)

  datatype NumberState =
    | Start | Minus | Zero | Whole | Point | Fraction | Exponent | ExponentSign | ExponentDigits | Wrong

  function NumberStep(q: NumberState, b: byte): NumberState {
    match q
    case Start => if b in Ascii("-") then Minus else FirstDigit(b)
    case Minus => FirstDigit(b)
    case Zero => AfterWhole(b)
    case Whole => if IsDigit(b) then Whole else AfterWhole(b)
    case Point => if IsDigit(b) then Fraction else Wrong
    case Fraction => if IsDigit(b) then Fraction else if b in Ascii("eE") then Exponent else Wrong
    case Exponent => if b in Ascii("+-") then ExponentSign else if IsDigit(b) then ExponentDigits else Wrong
    case ExponentSign => if IsDigit(b) then ExponentDigits else Wrong
    case ExponentDigits => if IsDigit(b) then ExponentDigits else Wrong
    case Wrong => Wrong
  }

  function FirstDigit(b: byte): NumberState {
    if b == 48 then Zero else if IsDigit(b) then Whole else Wrong
  }

  function AfterWhole(b: byte): NumberState {
    if b == DOT then Point else if b in Ascii("eE") then Exponent else Wrong
  }

  function NumberAfter(q: NumberState, t: Text): NumberState
    decreases t
  {
    if t == [] then q else NumberAfter(NumberStep(q, t[0]), t[1..])
  }

  predicate IsNumber(t: Text) {
    var q := NumberAfter(Start, t);
    q.Zero? || q.Whole? || q.Fraction? || q.ExponentDigits?
  }

  /** What a JSON reader that keeps numbers as they are written makes of the text of a scalar that is no string. */
  function ReadScalar(t: Text): Option<Value> {
    if t == Ascii("null") then Some(Nil)
    else if t == Ascii("true") then Some(Bool(true))
    else if t == Ascii("false") then Some(Bool(false))
    else if IsNumber(t) then Some(Number(t))
    else None
  }

  // The text that shows a value

  /**
   * t shows v to a reader: nothing for nil, a string as it is, what reads back as the number or truth value, the
   * JSON text of anything else. A float carries the text it is shown as.
   */
  ghost predicate IsShownAs(lib: Library, v: Value, t: Text) {
    match v
    case Nil => t == []
    case Str(text) => t == text
    case Bool(_) => ReadScalar(t) == Some(v)
    case Number(digits) => if IsNumber(digits) then ReadScalar(t) == Some(v) else t == digits
    case Int(i) => ReadInt(t) == Some(i)
    case Float(shown) => t == shown
    case Other(json) => json == Some(t)
    case _ => lib.encode(v) == Some(t)
  }

  lemma WordsAreNoNumbers(digits: Text)
    requires IsNumber(digits)
    ensures ReadScalar(digits) == Some(Number(digits))
  {
    hide IsNumber, NumberAfter;
    NumberStart(digits);
    assert Ascii("null")[0] == 110 && Ascii("true")[0] == 116 && Ascii("false")[0] == 102;
  }

  /** A number begins with a minus or a digit. */
  lemma NumberStart(t: Text)
    requires IsNumber(t)
    ensures t != [] && (t[0] == 45 || IsDigit(t[0]))
  {
    if t != [] {
      assert NumberAfter(NumberStep(Start, t[0]), t[1..]) == NumberAfter(Start, t);
      WrongStays(t[1..]);
      assert Ascii("-")[0] == 45;
    }
  }

  lemma {:induction false} WrongStays(t: Text)
    ensures NumberAfter(Wrong, t) == Wrong
    decreases t
  {
    if t != [] {
      WrongStays(t[1..]);
    }
  }
}
