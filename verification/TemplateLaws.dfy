/** What rendering a template promises, for every template and every assignment of values. */
module TemplateLaws {
  import opened Bytes
  import opened Utf8
  import opened Values
  import opened Numerals
  import opened Paths
  import opened Names
  import opened Quote
  import opened Template

  // One pass: the output is made of template slices and escaped values

  /** The pieces of s, in order. */
  function Pieces(lib: Library, vars: Variables, s: Text): seq<Piece> {
    if s == [] then []
    else
      var p := PieceAt(lib, vars, s);
      [p] + Pieces(lib, vars, s[p.size..])
  }

  // The byte classes, spelled out

  predicate IsLower(b: byte) {
    b in Ascii("abcdefghijklmnopqrstuvwxyz")
  }

  predicate IsUpper(b: byte) {
    b in Ascii("ABCDEFGHIJKLMNOPQRSTUVWXYZ")
  }

  predicate IsFigure(b: byte) {
    b in Ascii("0123456789")
  }

  predicate NameByte(b: byte) {
    IsLower(b) || IsUpper(b) || IsFigure(b) || b in Ascii("_")
  }

  predicate PathByte(b: byte) {
    NameByte(b) || b in Ascii("-.")
  }

  /** The dotted text leads from v to a value shown as text. */
  ghost predicate LeadsTo(lib: Library, v: Value, dotted: Text, text: Text) {
    exists path: seq<Text> :: IsRoute(lib, v, dotted, path, text)
  }

  ghost predicate IsRoute(lib: Library, v: Value, dotted: Text, path: seq<Text>, text: Text) {
    && path != [] && Join(path) == dotted && (forall i :: 0 <= i < |path| ==> DOT !in path[i])
    && exists w :: LiesUnder(lib, v, path, w) && IsShownAs(lib, w, text)
  }

  /** The name that ends at end is followed by a dot and a path up to n: path bytes, as many as there are. */
  ghost predicate IsPathOf(s: Text, end: nat, n: nat) {
    && end + 1 < n <= |s| && s[end] == DOT && s[end + 1] != DOT
    && (forall i :: end < i < n ==> PathByte(s[i]))
    && (n < |s| ==> !PathByte(s[n]))
  }

  /** The value as a whole, if it can be shown. */
  ghost predicate IsWhole(lib: Library, v: Value, end: nat, p: Piece) {
    p.size == end && if p.Inserted? then IsShownAs(lib, v, p.text) else forall text :: !IsShownAs(lib, v, text)
  }

  /** An object or array, or a text that opens one after some white space. */
  ghost predicate LooksStructured(v: Value) {
    IsContainer(v) || (v.Str? && exists k :: IsOpening(v.text, k))
  }

  ghost predicate IsOpening(s: Text, k: nat) {
    k < |s| && IsWhite(s[..k]) && s[k] in Ascii("{[")
  }

  predicate IsWhite(s: Text) {
    s == [] || (IsSpace(DecodeRune(s).0) && IsWhite(s[DecodeRune(s).1..]))
  }

  /** What the placeholder whose name ends at end, and whose variable is v, is to become. */
  ghost predicate IsReading(lib: Library, v: Value, s: Text, end: nat, p: Piece) {
    if exists n :: IsPathOf(s, end, n) then
      exists n :: IsPathOf(s, end, n) && IsPathReading(lib, v, s, end, n, p)
    else if end < |s| && NameByte(s[end]) then p == Copied(end)
    else IsWhole(lib, v, end, p)
  }

  /** The value the path leads to, or else the path is kept for a container and is mere text for anything else. */
  ghost predicate IsPathReading(lib: Library, v: Value, s: Text, end: nat, n: nat, p: Piece)
    requires end + 1 < n <= |s|
  {
    var dotted := s[end + 1..n];
    if exists text :: LeadsTo(lib, v, dotted, text) then p.Inserted? && p.size == n && LeadsTo(lib, v, dotted, p.text)
    else if LooksStructured(v) then p == Copied(n)
    else IsWhole(lib, v, end, p)
  }

  /** p is the reading of the front of s: one byte copied, or what its longest defined name stands for. */
  ghost predicate Explained(lib: Library, vars: Variables, s: Text, p: Piece) {
    if s == [] || s[0] != DOLLAR || forall m :: !Begins(vars.Keys, s[1..], m) then p == Copied(1)
    else exists name :: IsLongest(vars.Keys, s[1..], name) && IsReading(lib, vars[name], s, 1 + |name|, p)
  }

  /** The pieces lie side by side over all of s, each is explained, and together they show out. */
  ghost predicate Tiles(lib: Library, vars: Variables, s: Text, pieces: seq<Piece>, out: Text)
    decreases pieces
  {
    if pieces == [] then s == [] && out == []
    else
      && 1 <= pieces[0].size <= |s|
      && Explained(lib, vars, s, pieces[0])
      && Shown(lib, pieces[0], s) <= out
      && Tiles(lib, vars, s[pieces[0].size..], pieces[1..], out[|Shown(lib, pieces[0], s)|..])
  }

  lemma ByteClasses(b: byte)
    ensures IsIdentifierByte(b) <==> NameByte(b)
    ensures IsPathByte(b) <==> PathByte(b)
    ensures IsPathStartByte(b) <==> PathByte(b) && b != DOT
  {
    hide IsLower, IsUpper, IsFigure;
    LowerCase(b);
    UpperCase(b);
    Figures(b);
    assert Ascii("_")[0] == 95 && Ascii("-.")[0] == 45 && Ascii("-.")[1] == 46;
  }

  lemma LowerCase(b: byte)
    ensures 97 <= b <= 122 <==> IsLower(b)
  {
    var letters := Ascii("abcdefghijklmnopqrstuvwxyz");
    assert forall i :: 0 <= i < 13 ==> letters[i] == 97 + i;
    assert forall i :: 13 <= i < 26 ==> letters[i] == 97 + i;
    assert 97 <= b <= 122 ==> letters[b as int - 97] == b;
  }

  lemma UpperCase(b: byte)
    ensures 65 <= b <= 90 <==> IsUpper(b)
  {
    var letters := Ascii("ABCDEFGHIJKLMNOPQRSTUVWXYZ");
    assert forall i :: 0 <= i < 13 ==> letters[i] == 65 + i;
    assert forall i :: 13 <= i < 26 ==> letters[i] == 65 + i;
    assert 65 <= b <= 90 ==> letters[b as int - 65] == b;
  }

  lemma Figures(b: byte)
    ensures 48 <= b <= 57 <==> IsFigure(b)
  {
    var figures := Ascii("0123456789");
    assert 48 <= b <= 57 ==> figures[b as int - 48] == b;
  }

  /** The white space of ASCII. */
  lemma SpacesInAscii(r: int)
    requires 0 <= r < 0x80
    ensures IsSpace(r) <==> r in Ascii(" \t\n\r") || r == 11 || r == 12
  {
    var spaces := Ascii(" \t\n\r");
    assert spaces[0] == 32 && spaces[1] == 9 && spaces[2] == 10 && spaces[3] == 13;
  }

  /** A value is shown in one way at most, and that is what the engine writes. */
  lemma ShownExactly(lib: Library, v: Value, text: Text)
    ensures ValueString(lib, v) == Some(text) <==> IsShownAs(lib, v, text)
  {
    match v {
      case Int(i) => IntReads(text, i);
      case Number(digits) => if IsNumber(digits) { WordsAreNoNumbers(digits); }
      case Bool(_) =>
        assert Ascii("true") == [116, 114, 117, 101] && Ascii("false") == [102, 97, 108, 115, 101];
        assert Ascii("null")[0] == 110;
      case _ =>
    }
  }

  lemma WholeExactly(lib: Library, v: Value, end: nat, p: Piece)
    ensures IsWhole(lib, v, end, p) <==> p == WholeValue(lib, v, end)
  {
    hide IsShownAs, ValueString;
    forall text ensures ValueString(lib, v) == Some(text) <==> IsShownAs(lib, v, text) {
      ShownExactly(lib, v, text);
    }
  }

  lemma {:induction false} OpeningFound(s: Text) returns (k: nat)
    requires OpensBracket(s)
    ensures IsOpening(s, k)
  {
    k := 0;
    var (r, width) := DecodeRune(s);
    if IsSpace(r) {
      k := OpeningFound(s[width..]);
      CharLenOfPrefix(s, width + k);
      assert s[..width + k][width..] == s[width..][..k];
      k := width + k;
    } else {
      assert s[..0] == [] && Ascii("{[") == [123, 91];
    }
  }

  lemma {:induction false} OpeningOpens(s: Text, k: nat)
    requires IsOpening(s, k)
    ensures OpensBracket(s)
    decreases k
  {
    if k > 0 {
      var white := s[..k];
      var width := DecodeRune(white).1;
      assert s == white + s[k..];
      CharLenExtends(white, s[k..]);
      assert white[width..] == s[width..][..k - width];
      OpeningOpens(s[width..], k - width);
    } else {
      BracketIsNoSpace(s);
    }
  }

  lemma BracketIsNoSpace(s: Text)
    requires s != [] && s[0] in Ascii("{[")
    ensures OpensBracket(s)
  {
    assert s[0] == 123 || s[0] == 91;
    assert DecodeRune(s) == (s[0] as int, 1);
  }

  lemma CapableExactly(v: Value)
    ensures IsPathCapable(v) <==> LooksStructured(v)
  {
    if v.Str? {
      if OpensBracket(v.text) {
        var k := OpeningFound(v.text);
      }
      forall k: nat | IsOpening(v.text, k) ensures OpensBracket(v.text) {
        OpeningOpens(v.text, k);
      }
    }
  }

  lemma RouteIsSplit(lib: Library, v: Value, dotted: Text, text: Text)
    requires dotted != []
    ensures LeadsTo(lib, v, dotted, text) <==> PathString(lib, v, dotted) == Some(text)
  {
    hide IsShownAs, ValueString;
    if PathString(lib, v, dotted) == Some(text) {
      SplitJoin(dotted);
      var w := Resolve(lib, v, Split(dotted)).value;
      ResolveExactly(lib, v, Split(dotted), w);
      ShownExactly(lib, w, text);
      assert IsRoute(lib, v, dotted, Split(dotted), text);
    }
    if LeadsTo(lib, v, dotted, text) {
      var path: seq<Text> :| IsRoute(lib, v, dotted, path, text);
      var w :| LiesUnder(lib, v, path, w) && IsShownAs(lib, w, text);
      ResolveExactly(lib, v, path, w);
      ShownExactly(lib, w, text);
      JoinSplit(path);
      if dotted[|dotted| - 1] == DOT {
        DotLeavesEmpty(dotted);
        assert [] in path;
        EmptySegmentFails(lib, v, path);
      }
    }
  }

  lemma PathIsRun(s: Text, end: nat)
    ensures HasPath(s, end) <==> exists n :: IsPathOf(s, end, n)
    ensures HasPath(s, end) ==> IsPathOf(s, end, PathEnd(s, end))
    ensures forall n :: IsPathOf(s, end, n) ==> n == PathEnd(s, end)
  {
    hide IsPathByte, IsPathStartByte, PathByte;
    forall b: byte ensures (IsPathByte(b) <==> PathByte(b)) && (IsPathStartByte(b) <==> PathByte(b) && b != DOT) {
      ByteClasses(b);
    }
    if HasPath(s, end) {
      var n := PathEnd(s, end);
      forall i | end < i < n ensures IsPathByte(s[i]) {
        if end + 1 < i { assert s[i] == s[end + 1..][i - end - 1]; }
      }
      assert n < |s| ==> s[n] == s[end + 1..][n - end - 1];
      assert IsPathOf(s, end, n);
      forall m: nat | IsPathOf(s, end, m) ensures m == n {
      }
    }
  }

  /** There is exactly one reading of a placeholder. */
  lemma PlaceholderIsRead(lib: Library, v: Value, s: Text, end: nat, p: Piece)
    requires 0 < end <= |s|
    ensures IsReading(lib, v, s, end, p) <==> p == PlaceholderAt(lib, v, s, end)
  {
    hide IsPathReading, IsPathOf, PathString, PathRun, IsPathCapable, WholeValue, IsWhole, IsIdentifierByte, NameByte;
    WholeExactly(lib, v, end, p);
    if end < |s| {
      ByteClasses(s[end]);
    }
    PathIsRun(s, end);
    if HasPath(s, end) {
      PathIsRead(lib, v, s, end, p);
    }
  }

  lemma PathIsRead(lib: Library, v: Value, s: Text, end: nat, p: Piece)
    requires 0 < end <= |s| && HasPath(s, end) && end + 1 < PathEnd(s, end)
    ensures IsPathReading(lib, v, s, end, PathEnd(s, end), p) <==> p == PlaceholderAt(lib, v, s, end)
  {
    hide LeadsTo, PathString, PathRun, IsPathCapable, WholeValue, IsWhole, LooksStructured;
    WholeExactly(lib, v, end, p);
    CapableExactly(v);
    var dotted := s[end + 1..PathEnd(s, end)];
    forall text ensures LeadsTo(lib, v, dotted, text) <==> PathString(lib, v, dotted) == Some(text) {
      RouteIsSplit(lib, v, dotted, text);
    }
  }

  /** The front of a text has exactly one reading, and it is the piece the scanner takes. */
  lemma {:induction false} PieceIsExplained(lib: Library, vars: Variables, s: Text, p: Piece)
    requires s != []
    ensures Explained(lib, vars, s, p) <==> p == PieceAt(lib, vars, s)
  {
    hide IsReading, PlaceholderAt, IsLongest, Begins, Longest;
    if s[0] == DOLLAR {
      var rest := s[1..];
      var name := NameAt(vars, rest);
      NameIsLongest(vars, rest);
      if name != [] {
        PlaceholderIsRead(lib, vars[name], s, 1 + |name|, p);
      }
    }
  }

  lemma NameIsLongest(vars: Variables, rest: Text)
    ensures var name := NameAt(vars, rest);
            if name == [] then forall m :: !Begins(vars.Keys, rest, m)
            else Begins(vars.Keys, rest, name) && name in vars && |name| <= |rest|
                 && forall m :: IsLongest(vars.Keys, rest, m) <==> m == name
  {
    hide Longest;
    forall m | IsLongest(vars.Keys, rest, m) ensures m == NameAt(vars, rest) {
      LongestIsDetermined(vars.Keys, rest, m);
    }
  }

  /** The rendering is a one-pass tokenisation of the template; inserted text is never read again. */
  lemma {:induction false} RenderTiles(lib: Library, vars: Variables, s: Text)
    ensures Tiles(lib, vars, s, Pieces(lib, vars, s), Render(lib, vars, s))
  {
    if s != [] {
      var p := PieceAt(lib, vars, s);
      PieceIsExplained(lib, vars, s, p);
      RenderTiles(lib, vars, s[p.size..]);
      assert Pieces(lib, vars, s)[1..] == Pieces(lib, vars, s[p.size..]);
      assert Render(lib, vars, s)[|Shown(lib, p, s)|..] == Render(lib, vars, s[p.size..]);
    }
  }

  /** It is the only one. */
  lemma {:induction false} TilingIsDetermined(lib: Library, vars: Variables, s: Text, pieces: seq<Piece>, out: Text)
    requires Tiles(lib, vars, s, pieces, out)
    ensures out == Render(lib, vars, s) && pieces == Pieces(lib, vars, s)
    decreases pieces
  {
    hide Explained, PieceAt, Shown;
    if pieces != [] {
      var p := pieces[0];
      PieceIsExplained(lib, vars, s, p);
      TilingIsDetermined(lib, vars, s[p.size..], pieces[1..], out[|Shown(lib, p, s)|..]);
      assert pieces == [p] + pieces[1..];
      assert out == Shown(lib, p, s) + out[|Shown(lib, p, s)|..];
    }
  }

  /** A template that is one placeholder becomes the escaped text that shows its variable, whatever its kind. */
  lemma RenderVariable(lib: Library, vars: Variables, name: Text, text: Text)
    requires name in vars && name != [] && IsShownAs(lib, vars[name], text)
    ensures Render(lib, vars, [DOLLAR] + name) == Escape(lib.isPrint, text)
  {
    hide Longest, ValueString, IsShownAs, Escape;
    var s := [DOLLAR] + name;
    assert s[1..] == name && Begins(vars.Keys, name, name);
    LongestIsDetermined(vars.Keys, name, name);
    ShownExactly(lib, vars[name], text);
    assert PieceAt(lib, vars, s) == Inserted(|s|, text);
    RenderSplits(lib, vars, s[|s|..]);
  }

  /** With a path it becomes the text that shows the value the path leads to. */
  lemma RenderPath(lib: Library, vars: Variables, name: Text, dotted: Text, text: Text)
    requires name in vars && dotted != [] && dotted[0] != DOT && forall i :: 0 <= i < |dotted| ==> PathByte(dotted[i])
    requires IsLongest(vars.Keys, name + [DOT] + dotted, name) && LeadsTo(lib, vars[name], dotted, text)
    ensures Render(lib, vars, [DOLLAR] + name + [DOT] + dotted) == Escape(lib.isPrint, text)
  {
    hide PathByte, LeadsTo, IsLongest, Escape, Render;
    var s := [DOLLAR] + name + [DOT] + dotted;
    assert s[1..] == name + [DOT] + dotted && s[1 + |name|] == DOT && s[2 + |name|..] == dotted;
    PathAlone(lib, vars, s, name, dotted, text);
  }

  lemma PathAlone(lib: Library, vars: Variables, s: Text, name: Text, dotted: Text, text: Text)
    requires name in vars && dotted != [] && dotted[0] != DOT && forall i :: 0 <= i < |dotted| ==> PathByte(dotted[i])
    requires |s| > 1 + |name| && s[0] == DOLLAR && s[1 + |name|] == DOT && s[2 + |name|..] == dotted
    requires IsLongest(vars.Keys, s[1..], name) && LeadsTo(lib, vars[name], dotted, text)
    ensures Render(lib, vars, s) == Escape(lib.isPrint, text)
  {
    hide Longest, LeadsTo, Escape, PlaceholderAt, Render, IsLongest, Begins, PathByte;
    LongestIsDetermined(vars.Keys, s[1..], name);
    NotEmptyName(vars.Keys, s[1..], name);
    PathPiece(lib, vars[name], s, 1 + |name|, dotted, text);
    RenderSplits(lib, vars, s);
    RenderSplits(lib, vars, s[|s|..]);
  }

  lemma NotEmptyName(names: set<Text>, rest: Text, name: Text)
    requires IsLongest(names, rest, name)
    ensures name != []
  {
  }

  lemma PathPiece(lib: Library, v: Value, s: Text, end: nat, dotted: Text, text: Text)
    requires end < |s| && s[end] == DOT && s[end + 1..] == dotted && dotted != [] && dotted[0] != DOT
    requires (forall i :: 0 <= i < |dotted| ==> PathByte(dotted[i])) && LeadsTo(lib, v, dotted, text)
    ensures PlaceholderAt(lib, v, s, end) == Inserted(|s|, text)
  {
    hide PathString, LeadsTo, PathByte, PathRun;
    AllPath(dotted);
    ByteClasses(dotted[0]);
    RouteIsSplit(lib, v, dotted, text);
    assert HasPath(s, end);
    assert s[end + 1..PathEnd(s, end)] == dotted;
  }

  lemma {:induction false} AllPath(s: Text)
    requires forall i :: 0 <= i < |s| ==> PathByte(s[i])
    ensures PathRun(s) == |s|
  {
    hide PathByte;
    if s != [] {
      ByteClasses(s[0]);
      AllPath(s[1..]);
    }
  }

  /** A $ with a defined name after it. */
  predicate IsPlaceholder(vars: Variables, s: Text) {
    s != [] && s[0] == DOLLAR && NameAt(vars, s[1..]) != []
  }

  /** Text in which no $ is followed by a defined name comes out as it is. */
  lemma {:induction false} UndefinedStays(lib: Library, vars: Variables, s: Text)
    requires forall i :: 0 <= i <= |s| ==> !IsPlaceholder(vars, s[i..])
    ensures Render(lib, vars, s) == s
  {
    if s != [] {
      assert s[0..] == s;
      forall i | 0 <= i <= |s[1..]| ensures !IsPlaceholder(vars, s[1..][i..]) {
        assert s[1..][i..] == s[i + 1..];
      }
      UndefinedStays(lib, vars, s[1..]);
    }
  }

  // What a JSON reader makes of the output

  /** s with the values put in as they are, None if one of them is not safe for JSON under %q. */
  function Substituted(lib: Library, vars: Variables, s: Text): Option<Text> {
    if s == [] then Some([])
    else
      var p := PieceAt(lib, vars, s);
      var rest := Substituted(lib, vars, s[p.size..]);
      match p
      case Copied(size) => Prepend(s[..size], rest)
      case Inserted(_, text) => if IsJsonSafe(lib.isPrint, text) then Prepend(text, rest) else None
  }

  /**
   * For the inside of a JSON string without escapes, reading the rendering as JSON gives the template
   * with the values themselves in place of the placeholders, and fails exactly when a value is unsafe.
   */
  lemma {:induction false} RenderedStringReads(lib: Library, vars: Variables, s: Text)
    requires IsPlain(s) && forall i :: 0 <= i < |s| ==> s[i] >= 0x20
    ensures Unescape(Render(lib, vars, s)) == Substituted(lib, vars, s)
  {
    hide PieceAt, Unescape, Escape, IsJsonSafe;
    assert Unescape([]) == Some([]) by { EmptyReads(); }
    if s != [] {
      var p := PieceAt(lib, vars, s);
      var rest := Render(lib, vars, s[p.size..]);
      RenderedStringReads(lib, vars, s[p.size..]);
      match p {
        case Copied(size) => UnescapePlain(s[..size], rest);
        case Inserted(_, text) => UnescapeEscape(lib.isPrint, text, rest);
      }
    }
  }

  lemma EmptyReads()
    ensures Unescape([]) == Some([])
  {
  }

  // Distribution over concatenation

  /** b cannot continue a placeholder: it is in no name and is no path byte (so no identifier byte). */
  ghost predicate Separates(vars: Variables, b: byte) {
    !IsPathByte(b) && forall name :: name in vars ==> b !in name
  }

  lemma PastSeparator(m: Text, a: Text, b: Text)
    requires m <= a + b && b != []
    ensures m <= a || b[0] in m
  {
    if |m| > |a| {
      assert m[|a|] == b[0];
    }
  }

  lemma NameBeforeSeparator(vars: Variables, a: Text, b: Text)
    requires b != [] && Separates(vars, b[0])
    ensures NameAt(vars, a + b) == NameAt(vars, a)
  {
    forall m ensures Begins(vars.Keys, a + b, m) <==> Begins(vars.Keys, a, m) {
      if m <= a + b {
        PastSeparator(m, a, b);
      }
    }
    LongestAgrees(vars.Keys, a + b, a);
  }

  lemma {:induction false} PathRunBeforeSeparator(a: Text, b: Text)
    requires b != [] && !IsPathByte(b[0])
    ensures PathRun(a + b) == PathRun(a)
  {
    if a == [] {
      assert a + b == b;
    } else {
      PathRunBeforeSeparator(a[1..], b);
      assert (a + b)[1..] == a[1..] + b;
    }
  }

  lemma PathBeforeSeparator(a: Text, b: Text, end: nat)
    requires b != [] && !IsPathByte(b[0]) && end <= |a|
    ensures HasPath(a + b, end) == HasPath(a, end)
    ensures HasPath(a, end) ==>
              PathEnd(a + b, end) == PathEnd(a, end)
              && (a + b)[end + 1..PathEnd(a, end)] == a[end + 1..PathEnd(a, end)]
  {
    if HasPath(a, end) {
      PathRunBeforeSeparator(a[end + 1..], b);
      assert (a + b)[end + 1..] == a[end + 1..] + b;
    }
  }

  lemma PieceBeforeSeparator(lib: Library, vars: Variables, a: Text, b: Text)
    requires a != [] && b != [] && Separates(vars, b[0])
    ensures PieceAt(lib, vars, a + b) == PieceAt(lib, vars, a)
  {
    hide PathString, WholeValue, HasPath, PathEnd, Longest;
    assert (a + b)[1..] == a[1..] + b;
    NameBeforeSeparator(vars, a[1..], b);
    var name := if a[0] == DOLLAR then NameAt(vars, a[1..]) else [];
    PathBeforeSeparator(a, b, 1 + |name|);
  }

  /** Where b starts with a separating byte, a and b render independently. */
  lemma {:induction false} RenderConcat(lib: Library, vars: Variables, a: Text, b: Text)
    requires b == [] || Separates(vars, b[0])
    ensures Render(lib, vars, a + b) == Render(lib, vars, a) + Render(lib, vars, b)
    decreases a
  {
    hide Render, PieceAt;
    RenderSplits(lib, vars, a);
    RenderSplits(lib, vars, b);
    RenderSplits(lib, vars, a + b);
    if a == [] {
      assert a + b == b;
    } else if b == [] {
      assert a + b == a;
    } else {
      PieceBeforeSeparator(lib, vars, a, b);
      var p := PieceAt(lib, vars, a);
      var tail := a[p.size..];
      assert (a + b)[..p.size] == a[..p.size] && (a + b)[p.size..] == tail + b;
      RenderConcat(lib, vars, tail, b);
      Associative(Shown(lib, p, a), Render(lib, vars, tail), Render(lib, vars, b));
    }
  }

  // Variables kept as JSON text

  /** w is v, or the JSON text of the object or array v (which then starts with a bracket). */
  ghost predicate SameOrText(lib: Library, v: Value, w: Value) {
    w == v || (w.Str? && IsTextOf(lib, v, w.text) && OpensBracket(w.text))
  }

  lemma PathStringThroughText(lib: Library, v: Value, w: Value, path: Text)
    requires SameOrText(lib, v, w)
    ensures PathString(lib, w, path) == PathString(lib, v, path)
  {
    if w != v {
      ResolveThroughText(lib, v, w.text, Split(path));
    }
  }

  lemma PlaceholderThroughText(lib: Library, v: Value, w: Value, s: Text, end: nat)
    requires SameOrText(lib, v, w) && end <= |s|
    ensures PlaceholderAt(lib, w, s, end) == PlaceholderAt(lib, v, s, end)
  {
    if HasPath(s, end) {
      PathStringThroughText(lib, v, w, s[end + 1..PathEnd(s, end)]);
    }
  }

  /** A template renders the same whether structured variables are passed as values or as JSON text. */
  lemma {:induction false} RenderThroughText(lib: Library, vars: Variables, texts: Variables, s: Text)
    requires vars.Keys == texts.Keys
    requires forall name :: name in vars ==> SameOrText(lib, vars[name], texts[name])
    ensures Render(lib, texts, s) == Render(lib, vars, s)
    decreases s
  {
    if s != [] {
      var name := if s[0] == DOLLAR then NameAt(vars, s[1..]) else [];
      if name != [] {
        PlaceholderThroughText(lib, vars[name], texts[name], s, 1 + |name|);
      }
      assert PieceAt(lib, texts, s) == PieceAt(lib, vars, s);
      RenderThroughText(lib, vars, texts, s[PieceAt(lib, vars, s).size..]);
    }
  }
}
