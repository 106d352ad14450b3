/** The values template variables hold, decimal numbers, and path segments. */
module Values {
  import opened Bytes

  /**
   * A Go interface value. A json.Number or a float carries the text it is written as;
   * Other is a value of any other type, with what json.Marshal makes of it.
   */
  datatype Value =
    | Nil
    | Str(text: Text)
    | Number(digits: Text)
    | Bool(b: bool)
    | Int(i: int)
    | Float(shown: Text)
    | Object(fields: map<Text, Value>)
    | Array(items: seq<Value>)
    | Other(json: Option<Text>)

  predicate IsContainer(v: Value) {
    v.Object? || v.Array?
  }

  /** The functions this model takes as given: json.Marshal, a JSON decoder, strconv.IsPrint. */
  datatype Library = Library(
    encode: Value -> Option<Text>,
    decode: Text -> Option<Value>,
    isPrint: int -> bool)

  // strconv.Itoa and strconv.Atoi

  predicate IsDigit(b: byte) {
    48 <= b <= 57
  }

  predicate AllDigits(s: Text) {
    forall i :: 0 <= i < |s| ==> IsDigit(s[i])
  }

  function Digits(n: nat): (s: Text)
    ensures s != [] && AllDigits(s)
  {
    if n < 10 then [48 + n] else Digits(n / 10) + [48 + n % 10]
  }

  function Itoa(i: int): Text {
    if i < 0 then [45] + Digits(-i) else Digits(i)
  }

  function DigitsValue(s: Text): nat
    requires AllDigits(s)
  {
    if s == [] then 0 else DigitsValue(s[..|s| - 1]) * 10 + (s[|s| - 1] as int - 48)
  }

  const MAX_INT := 0x7FFF_FFFF_FFFF_FFFF

  /** An optional sign and digits, in the range of a 64-bit int. */
  function Atoi(s: Text): Option<int> {
    var signed := s != [] && (s[0] == 43 || s[0] == 45);
    var digits := if signed then s[1..] else s;
    if digits == [] || !AllDigits(digits) then None
    else
      var magnitude: int := DigitsValue(digits);
      var n := if signed && s[0] == 45 then -magnitude else magnitude;
      if -MAX_INT - 1 <= n <= MAX_INT then Some(n) else None
  }

  lemma {:induction false} DigitsRoundTrip(n: nat)
    ensures DigitsValue(Digits(n)) == n
  {
    var s := Digits(n);
    if n < 10 {
      assert DigitsValue(s[..0]) == 0;
    } else {
      DigitsRoundTrip(n / 10);
      assert s[..|s| - 1] == Digits(n / 10);
    }
  }

  lemma AtoiItoa(i: int)
    requires -MAX_INT - 1 <= i <= MAX_INT
    ensures Atoi(Itoa(i)) == Some(i)
  {
    if i < 0 {
      DigitsRoundTrip(-i);
      assert Itoa(i)[1..] == Digits(-i);
    } else {
      DigitsRoundTrip(i);
      assert IsDigit(Digits(i)[0]);
    }
  }

  // strings.Split(path, ".")

  function Split(path: Text): (segments: seq<Text>)
    ensures segments != []
  {
    if path == [] then [[]]
    else
      var rest := Split(path[1..]);
      if path[0] == DOT then [[]] + rest else [[path[0]] + rest[0]] + rest[1..]
  }

  function Join(segments: seq<Text>): Text {
    if segments == [] then []
    else if |segments| == 1 then segments[0]
    else segments[0] + [DOT] + Join(segments[1..])
  }

  /** The segments hold no dot and, joined by dots, are the path again. */
  lemma {:induction false} SplitJoin(path: Text)
    ensures Join(Split(path)) == path
    ensures forall i :: 0 <= i < |Split(path)| ==> DOT !in Split(path)[i]
  {
    if path != [] {
      SplitJoin(path[1..]);
      var rest := Split(path[1..]);
      if path[0] == DOT {
        assert Split(path)[1..] == rest;
      } else {
        assert Split(path)[1..] == rest[1..];
        assert Split(path)[0] == [path[0]] + rest[0];
        assert DOT !in rest[0];
        if |rest| > 1 {
          assert ([path[0]] + rest[0]) + [DOT] + Join(rest[1..]) == [path[0]] + (rest[0] + [DOT] + Join(rest[1..]));
        }
      }
    }
  }

  lemma {:induction false} SplitAtDot(segment: Text, rest: Text)
    requires DOT !in segment
    ensures Split(segment) == [segment]
    ensures Split(segment + [DOT] + rest) == [segment] + Split(rest)
  {
    var s := segment + [DOT] + rest;
    if segment == [] {
      assert s[1..] == rest;
    } else {
      SplitAtDot(segment[1..], rest);
      assert s[1..] == segment[1..] + [DOT] + rest;
      assert [segment[0]] + segment[1..] == segment;
    }
  }

  /** Segments without dots come back from their joined form. */
  lemma {:induction false} JoinSplit(segments: seq<Text>)
    requires segments != [] && forall i :: 0 <= i < |segments| ==> DOT !in segments[i]
    ensures Split(Join(segments)) == segments
  {
    if |segments| == 1 {
      SplitAtDot(segments[0], []);
    } else {
      SplitAtDot(segments[0], Join(segments[1..]));
      JoinSplit(segments[1..]);
    }
  }

  /** A path that ends in a dot has an empty segment, and another before it. */
  lemma {:induction false} DotLeavesEmpty(path: Text)
    requires path != [] && path[|path| - 1] == DOT
    ensures [] in Split(path)[1..]
  {
    if |path| == 1 {
      assert path[1..] == [];
      assert Split(path) == [[], []];
      assert Split(path)[1..] == [[]];
    } else {
      DotLeavesEmpty(path[1..]);
      var rest := Split(path[1..]);
      assert [] in rest[1..];
      assert forall x :: x in rest[1..] ==> x in rest;
      if path[0] == DOT {
        assert Split(path)[1..] == rest;
      } else {
        assert Split(path)[1..] == rest[1..];
      }
    }
  }
}
