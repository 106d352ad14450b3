/** RenderTemplate of common/variables.go: its meaning and the laws it keeps. */
module Template {
  import opened Bytes
  import opened Utf8
  import opened Values
  import opened Paths
  import opened Names
  import opened Quote

  type Variables = map<Text, Value>

  // Byte classes

  predicate IsIdentifierByte(b: byte) {
    97 <= b <= 122 || 65 <= b <= 90 || 48 <= b <= 57 || b == 95
  }

  predicate IsPathByte(b: byte) {
    97 <= b <= 122 || 65 <= b <= 90 || 48 <= b <= 57 || b == 95 || b == 45 || b == DOT
  }

  predicate IsPathStartByte(b: byte) {
    97 <= b <= 122 || 65 <= b <= 90 || 48 <= b <= 57 || b == 95 || b == 45
  }

  /** How many path bytes s begins with. */
  function PathRun(s: Text): (n: nat)
    ensures n <= |s|
    ensures forall i :: 0 <= i < n ==> IsPathByte(s[i])
    ensures n < |s| ==> !IsPathByte(s[n])
  {
    if s == [] || !IsPathByte(s[0]) then 0 else 1 + PathRun(s[1..])
  }

  // The text of a value

  /** unicode.IsSpace. */
  predicate IsSpace(r: int) {
    || 9 <= r <= 13 || r == 0x20 || r == 0x85 || r == 0xA0 || r == 0x1680 || 0x2000 <= r <= 0x200A
    || r == 0x2028 || r == 0x2029 || r == 0x202F || r == 0x205F || r == 0x3000
  }

  /** The first byte strings.TrimSpace leaves in front is { or [. */
  predicate OpensBracket(s: Text) {
    if s == [] then false
    else
      var (r, width) := DecodeRune(s);
      if IsSpace(r) then OpensBracket(s[width..]) else s[0] == 123 || s[0] == 91
  }

  /** isTemplatePathCapable. */
  predicate IsPathCapable(v: Value) {
    IsContainer(v) || (v.Str? && OpensBracket(v.text))
  }

  /** templateValueString: the text a value is inserted as. */
  function ValueString(lib: Library, v: Value): Option<Text> {
    match v
    case Nil => Some([])
    case Str(text) => Some(text)
    case Number(digits) => Some(digits)
    case Bool(b) => Some(if b then [116, 114, 117, 101] else [102, 97, 108, 115, 101])
    case Int(i) => Some(Itoa(i))
    case Float(shown) => Some(shown)
    case Object(_) => lib.encode(v)
    case Array(_) => lib.encode(v)
    case Other(json) => json
  }

  function PathString(lib: Library, v: Value, path: Text): Option<Text> {
    if path == [] || path[|path| - 1] == DOT then None
    else match Resolve(lib, v, Split(path))
         case Some(found) => ValueString(lib, found)
         case None => None
  }

  // One pass over the template

  /** What becomes of the first size bytes: they are copied, or text is inserted for them. */
  datatype Piece = Copied(size: nat) | Inserted(size: nat, text: Text)

  /** The placeholder a $ opens, s being what follows the $: the longest defined name, or []. */
  function NameAt(vars: Variables, s: Text): Text {
    Longest(vars.Keys, s)
  }

  function PieceAt(lib: Library, vars: Variables, s: Text): (p: Piece)
    requires s != []
    ensures 1 <= p.size <= |s|
  {
    var name := if s[0] == DOLLAR then NameAt(vars, s[1..]) else [];
    if name == [] then Copied(1) else PlaceholderAt(lib, vars[name], s, 1 + |name|)
  }

  /** A dot and a path follow the name that ends at end. */
  predicate HasPath(s: Text, end: nat) {
    end + 1 < |s| && s[end] == DOT && IsPathStartByte(s[end + 1])
  }

  function PathEnd(s: Text, end: nat): (n: nat)
    requires HasPath(s, end)
    ensures end < n <= |s|
  {
    end + 1 + PathRun(s[end + 1..])
  }

  /** The piece for a placeholder whose $ and name fill s[..end]. */
  function PlaceholderAt(lib: Library, value: Value, s: Text, end: nat): (p: Piece)
    requires end <= |s|
    ensures end <= p.size <= |s|
  {
    if HasPath(s, end) then
      match PathString(lib, value, s[end + 1..PathEnd(s, end)])
      case Some(text) => Inserted(PathEnd(s, end), text)
      case None => if IsPathCapable(value) then Copied(PathEnd(s, end)) else WholeValue(lib, value, end)
    else if end < |s| && IsIdentifierByte(s[end]) then Copied(end)
    else WholeValue(lib, value, end)
  }

  function WholeValue(lib: Library, value: Value, end: nat): Piece {
    match ValueString(lib, value)
    case Some(text) => Inserted(end, text)
    case None => Copied(end)
  }

  function Shown(lib: Library, p: Piece, s: Text): Text
    requires p.size <= |s|
  {
    match p
    case Copied(size) => s[..size]
    case Inserted(_, text) => Escape(lib.isPrint, text)
  }

  /** The rendering of s: one piece after the other, each read from the template alone. */
  function Render(lib: Library, vars: Variables, s: Text): Text {
    if s == [] then []
    else
      var p := PieceAt(lib, vars, s);
      Shown(lib, p, s) + Render(lib, vars, s[p.size..])
  }

  // The loop

  method RenderTemplate(lib: Library, template: Text, variables: Variables) returns (output: Text)
    ensures output == Render(lib, variables, template)
  {
    hide Render, PieceAt, Shown;
    var names := SortNames(variables.Keys - {[]});
    output := [];
    var i := 0;
    Started(lib, variables, template);
    while i < |template|
      invariant i <= |template|
      invariant output + Render(lib, variables, template[i..]) == Render(lib, variables, template)
    {
      var written, size := RenderNext(lib, template[i..], variables, names);
      Emitted(lib, variables, template, i, output);
      output := output + written;
      i := i + size;
    }
    Finished(lib, variables, template, output);
  }

  /** The loop body, on the template from the current index on: what is written and how far the index moves. */
  method RenderNext(lib: Library, s: Text, variables: Variables, names: seq<Text>)
    returns (written: Text, size: nat)
    requires s != []
    requires Sorted(names) && ElementsOf(names) == variables.Keys - {[]}
    ensures size == PieceAt(lib, variables, s).size
    ensures written == Shown(lib, PieceAt(lib, variables, s), s)
  {
    if s[0] != DOLLAR {
      return [s[0]], 1;
    }
    var name := FirstMatch(variables, names, s[1..]);
    if name == [] {
      return [s[0]], 1;
    }
    written, size := RenderPlaceholder(lib, s, variables[name], 1 + |name|);
  }

  /**
   * The rest of the loop body, when the $ and its name fill s[..end].
   */
  method RenderPlaceholder(lib: Library, s: Text, value: Value, end: nat) returns (written: Text, size: nat)
    requires end <= |s|
    ensures size == PlaceholderAt(lib, value, s, end).size
    ensures written == Shown(lib, PlaceholderAt(lib, value, s, end), s)
  {
    hide Escape, PathString, PathRun, ValueString, IsPathCapable;
    if end + 1 < |s| && s[end] == DOT && IsPathStartByte(s[end + 1]) {
      var pathEnd := EndOfPath(s, end + 1);
      var found := LookUp(lib, value, s[end + 1..pathEnd]);
      if found.Some? {
        return Escape(lib.isPrint, found.value), pathEnd;
      }
      if IsPathCapable(value) {
        return s[..pathEnd], pathEnd;
      }
      var text := ValueString(lib, value);
      if text.Some? {
        return Escape(lib.isPrint, text.value), end;
      }
      return s[..end], end;
    }
    var text := ValueString(lib, value);
    if text.Some? && !(end < |s| && IsIdentifierByte(s[end])) {
      return Escape(lib.isPrint, text.value), end;
    }
    return s[..end], end;
  }

  method EndOfPath(template: Text, start: nat) returns (pathEnd: nat)
    requires start <= |template|
    ensures start <= pathEnd <= |template| && pathEnd == start + PathRun(template[start..])
  {
    pathEnd := start;
    while pathEnd < |template| && IsPathByte(template[pathEnd])
      invariant start <= pathEnd <= |template|
      invariant PathRun(template[start..]) == pathEnd - start + PathRun(template[pathEnd..])
    {
      assert template[pathEnd..][1..] == template[pathEnd + 1..];
      pathEnd := pathEnd + 1;
    }
  }

  method LookUp(lib: Library, value: Value, path: Text) returns (text: Option<Text>)
    requires path != [] && path[0] != DOT
    ensures text == PathString(lib, value, path)
  {
    text := None;
    if path[|path| - 1] != DOT {
      var resolved := ResolveTemplatePath(lib, value, Split(path));
      if resolved.Some? {
        text := ValueString(lib, resolved.value);
      }
    }
  }

  /** The search through the sorted names. */
  method FirstMatch(variables: Variables, names: seq<Text>, rest: Text) returns (name: Text)
    requires Sorted(names) && ElementsOf(names) == variables.Keys - {[]}
    ensures name == NameAt(variables, rest)
  {
    for k := 0 to |names|
      invariant forall j :: 0 <= j < k ==> !(names[j] <= rest)
    {
      assert names[k] in ElementsOf(names);
      if names[k] <= rest {
        FirstInSortedIsLongest(names, rest, k);
        LongestAgreesOn(ElementsOf(names), variables.Keys, rest);
        return names[k];
      }
    }
    assert forall m :: Begins(variables.Keys, rest, m) ==> m in ElementsOf(names);
    return [];
  }

  lemma LongestAgreesOn(k1: set<Text>, k2: set<Text>, rest: Text)
    requires k1 == k2 - {[]}
    ensures Longest(k1, rest) == Longest(k2, rest)
  {
    assert forall m :: Begins(k1, rest, m) <==> Begins(k2, rest, m);
    if Longest(k1, rest) != [] {
      LongestIsDetermined(k2, rest, Longest(k1, rest));
    }
  }

  /** The definition of Render, for proofs that keep it hidden. */
  lemma RenderSplits(lib: Library, vars: Variables, s: Text)
    ensures Render(lib, vars, s) ==
              if s == [] then []
              else Shown(lib, PieceAt(lib, vars, s), s) + Render(lib, vars, s[PieceAt(lib, vars, s).size..])
  {
  }

  lemma Started(lib: Library, vars: Variables, template: Text)
    ensures [] + Render(lib, vars, template[0..]) == Render(lib, vars, template)
  {
    assert template[0..] == template;
  }

  /** Writing the piece at i leaves the rest of the template to be rendered. */
  lemma Emitted(lib: Library, vars: Variables, template: Text, i: nat, before: Text)
    requires i < |template|
    ensures var p := PieceAt(lib, vars, template[i..]);
            i + p.size <= |template|
            && before + Render(lib, vars, template[i..])
               == before + Shown(lib, p, template[i..]) + Render(lib, vars, template[i + p.size..])
  {
    var s := template[i..];
    var p := PieceAt(lib, vars, s);
    assert s[p.size..] == template[i + p.size..];
    Associative(before, Shown(lib, p, s), Render(lib, vars, template[i + p.size..]));
  }

  lemma Finished(lib: Library, vars: Variables, template: Text, output: Text)
    ensures output + Render(lib, vars, template[|template|..]) == output
  {
    assert template[|template|..] == [];
  }
}
