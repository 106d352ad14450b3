/**
 * When rendering keeps the structure of the JSON around the placeholders (common/variables.go): exactly when
 * every placeholder that the scanner may fill stands inside a JSON string and not after a backslash.
 */
module TemplateStructure {
  import opened Bytes
  import opened Utf8
  import opened Values
  import opened Names
  import opened Quote
  import opened Template
  import opened TemplateLaws

  /** The output ends in the lexer state of the template and shows the same outside strings. */
  predicate KeepsStructure(lib: Library, vars: Variables, q: Lexer, s: Text) {
    StateAfter(q, Render(lib, vars, s)) == StateAfter(q, s) && Skeleton(q, Render(lib, vars, s)) == Skeleton(q, s)
  }

  /** The identifier guard: the name that ends at end might go on, so its placeholder is never filled. */
  predicate IsGuarded(s: Text, end: nat) {
    end < |s| && IsIdentifierByte(s[end])
  }

  /**
   * Reading s from state q on as the scanner does, name by name: every placeholder that the guard does not stop
   * stands inside a string and not after a backslash.
   */
  ghost predicate FilledInside(names: set<Text>, q: Lexer, s: Text)
    decreases |s|
  {
    if s == [] then true
    else
      var name := if s[0] == DOLLAR then Longest(names, s[1..]) else [];
      var end := 1 + |name|;
      && (name == [] || IsGuarded(s, end) || q.Inside?)
      && FilledInside(names, StateAfter(q, s[..end]), s[end..])
  }

  // Such placeholders are harmless

  lemma {:induction false} SkipPlain(names: set<Text>, q: Lexer, s: Text, n: nat)
    requires n <= |s| && DOLLAR !in s[..n]
    ensures FilledInside(names, q, s) <==> FilledInside(names, StateAfter(q, s[..n]), s[n..])
    decreases n
  {
    if n == 0 {
      assert s[0..] == s && s[..0] == [];
    } else {
      assert s[0] == s[..n][0];
      assert s[1..][..n - 1] == s[..n][1..] && s[1..][n - 1..] == s[n..];
      SkipPlain(names, Advance(q, s[0]), s[1..], n - 1);
      OneByte(q, s);
    }
  }

  lemma OneByte(q: Lexer, s: Text)
    requires s != []
    ensures StateAfter(q, s[..1]) == Advance(q, s[0])
  {
    assert s[..1][1..] == [];
  }

  /** A piece ends with its name or with the path after it; a guarded placeholder is copied. */
  lemma PieceEnds(lib: Library, vars: Variables, s: Text)
    requires s != []
    ensures var p := PieceAt(lib, vars, s);
            var name := if s[0] == DOLLAR then NameAt(vars, s[1..]) else [];
            var end := 1 + |name|;
            && end <= p.size <= |s| && DOLLAR !in s[end..p.size]
            && (p.Inserted? ==> name != [] && !IsGuarded(s, end) && forall i :: end <= i < p.size ==> IsPathByte(s[i]))
  {
    hide PathString, ValueString, Longest, PathRun;
    var p := PieceAt(lib, vars, s);
    var name := if s[0] == DOLLAR then NameAt(vars, s[1..]) else [];
    var end := 1 + |name|;
    if name != [] && HasPath(s, end) && p.size == PathEnd(s, end) {
      forall i | end <= i < p.size ensures IsPathByte(s[i]) {
        if i > end { assert s[i] == s[end + 1..][i - end - 1]; }
      }
    }
  }

  /** A filled placeholder holds neither a quote nor a backslash. */
  lemma FilledIsPlain(lib: Library, vars: Variables, s: Text)
    requires s != [] && forall name :: name in vars ==> IsPlain(name)
    ensures var p := PieceAt(lib, vars, s); p.Inserted? ==> IsPlain(s[..p.size])
  {
    hide PieceAt;
    var p := PieceAt(lib, vars, s);
    PieceEnds(lib, vars, s);
    if p.Inserted? {
      var name := NameAt(vars, s[1..]);
      forall i | 0 <= i < p.size ensures s[i] != QUOTE && s[i] != BACKSLASH {
        if 1 <= i < 1 + |name| {
          assert s[i] == name[i - 1];
        }
      }
    }
  }

  lemma FilledSplits(names: set<Text>, q: Lexer, s: Text)
    requires s != [] && FilledInside(names, q, s)
    ensures var name := if s[0] == DOLLAR then Longest(names, s[1..]) else [];
            var end := 1 + |name|;
            && (name == [] || IsGuarded(s, end) || q.Inside?)
            && FilledInside(names, StateAfter(q, s[..end]), s[end..])
  {
  }

  lemma CutTwice(s: Text, a: nat, b: nat)
    requires a <= b <= |s|
    ensures s[a..][..b - a] == s[a..b] && s[a..][b - a..] == s[b..] && s[..a] + s[a..b] == s[..b]
  {
  }

  /** Text without $ may be left behind. */
  lemma InsideBeyond(names: set<Text>, q: Lexer, s: Text, end: nat, n: nat)
    requires end <= n <= |s| && DOLLAR !in s[end..n]
    requires FilledInside(names, StateAfter(q, s[..end]), s[end..])
    ensures FilledInside(names, StateAfter(q, s[..n]), s[n..])
  {
    hide StateAfter, FilledInside;
    CutTwice(s, end, n);
    SkipPlain(names, StateAfter(q, s[..end]), s[end..], n - end);
    StateConcat(q, s[..end], s[end..n]);
  }

  /** Where the name of the piece at the front ends. */
  function NameEnd(vars: Variables, s: Text): nat
    requires s != []
  {
    1 + |if s[0] == DOLLAR then NameAt(vars, s[1..]) else []|
  }

  lemma PieceBounds(lib: Library, vars: Variables, s: Text)
    requires s != []
    ensures var p, end := PieceAt(lib, vars, s), NameEnd(vars, s);
            end <= p.size <= |s| && DOLLAR !in s[end..p.size] && (p.Inserted? ==> end > 1 && !IsGuarded(s, end))
  {
    hide PieceAt, Longest, IsPathByte;
    PieceEnds(lib, vars, s);
  }

  lemma NameInside(vars: Variables, q: Lexer, s: Text)
    requires s != [] && FilledInside(vars.Keys, q, s) && NameEnd(vars, s) <= |s|
    ensures var end := NameEnd(vars, s);
            && (end == 1 || IsGuarded(s, end) || q.Inside?)
            && FilledInside(vars.Keys, StateAfter(q, s[..end]), s[end..])
  {
    hide StateAfter, FilledInside, Longest, IsIdentifierByte;
    FilledSplits(vars.Keys, q, s);
  }

  /** Past a piece it goes on as before, and a filled placeholder stands inside. */
  lemma PieceInside(lib: Library, vars: Variables, q: Lexer, s: Text)
    requires s != [] && FilledInside(vars.Keys, q, s)
    ensures var p := PieceAt(lib, vars, s);
            FilledInside(vars.Keys, StateAfter(q, s[..p.size]), s[p.size..]) && (p.Inserted? ==> q.Inside?)
  {
    hide PieceAt, StateAfter, FilledInside, IsGuarded, NameEnd;
    PieceBounds(lib, vars, s);
    NameInside(vars, q, s);
    InsideBeyond(vars.Keys, q, s, NameEnd(vars, s), PieceAt(lib, vars, s).size);
  }

  lemma PieceKeepsStructure(lib: Library, vars: Variables, q: Lexer, s: Text)
    requires s != [] && forall name :: name in vars ==> IsPlain(name)
    requires FilledInside(vars.Keys, q, s)
    ensures var p := PieceAt(lib, vars, s);
            && StateAfter(q, Shown(lib, p, s)) == StateAfter(q, s[..p.size])
            && Skeleton(q, Shown(lib, p, s)) == Skeleton(q, s[..p.size])
            && FilledInside(vars.Keys, StateAfter(q, s[..p.size]), s[p.size..])
  {
    hide PieceAt, StateAfter, Skeleton, FilledInside, Escape;
    var p := PieceAt(lib, vars, s);
    PieceInside(lib, vars, q, s);
    if p.Inserted? {
      FilledIsPlain(lib, vars, s);
      PlainStaysInside(s[..p.size]);
      EscapeStaysInside(lib.isPrint, p.text);
    }
  }

  lemma {:induction false} KeptWhenInside(lib: Library, vars: Variables, q: Lexer, s: Text)
    requires forall name :: name in vars ==> IsPlain(name)
    requires FilledInside(vars.Keys, q, s)
    ensures KeepsStructure(lib, vars, q, s)
    decreases s
  {
    hide Render, PieceAt, Shown, FilledInside;
    RenderSplits(lib, vars, s);
    if s != [] {
      var p := PieceAt(lib, vars, s);
      var head, tail := s[..p.size], s[p.size..];
      PieceKeepsStructure(lib, vars, q, s);
      KeptWhenInside(lib, vars, StateAfter(q, head), tail);
      ConcatAlike(q, Shown(lib, p, s), Render(lib, vars, tail), head, tail);
      assert s == head + tail;
    }
  }

  // Any other placeholder is not

  /** The state in which the scanner meets the first placeholder that it may fill and that is not inside a string. */
  ghost function FirstOutside(names: set<Text>, q: Lexer, s: Text): (state: Lexer)
    requires !FilledInside(names, q, s)
    ensures !state.Inside?
    decreases |s|
  {
    var name := if s[0] == DOLLAR then Longest(names, s[1..]) else [];
    var end := 1 + |name|;
    if name == [] || IsGuarded(s, end) || q.Inside? then FirstOutside(names, StateAfter(q, s[..end]), s[end..]) else q
  }

  /** A value that leaves the string, if there is one to leave, and goes on with n letters. */
  function Breaking(state: Lexer, n: nat): Text {
    if state.Escaped? then [QUOTE] + Repeated(LETTER, n) else Repeated(LETTER, n)
  }

  /** The decoder takes neither letters nor an open string for JSON. */
  ghost predicate RefusesFragments(lib: Library) {
    forall state, n: nat :: lib.decode(Breaking(state, n)).None?
  }

  lemma {:induction false} LettersAsTheyAre(isPrint: int -> bool, n: nat)
    ensures Escape(isPrint, Repeated(LETTER, n)) == Repeated(LETTER, n)
  {
    if n > 0 {
      var s := Repeated(LETTER, n);
      assert CharLen(s) == 1 && DecodeRune(s) == (LETTER as int, 1);
      assert EscapeChar(isPrint, s) == [LETTER] by { assert s[..1] == [LETTER]; }
      assert s[1..] == Repeated(LETTER, n - 1) && [LETTER] + Repeated(LETTER, n - 1) == s;
      LettersAsTheyAre(isPrint, n - 1);
    }
  }

  lemma {:induction false} LettersOutside(n: nat)
    ensures Skeleton(Outside, Repeated(LETTER, n)) == Repeated(LETTER, n)
  {
    if n > 0 {
      var s := Repeated(LETTER, n);
      assert s[1..] == Repeated(LETTER, n - 1) && [LETTER] + Repeated(LETTER, n - 1) == s;
      LettersOutside(n - 1);
    }
  }

  lemma BreakingShows(isPrint: int -> bool, state: Lexer, n: nat)
    requires !state.Inside?
    ensures |Skeleton(state, Escape(isPrint, Breaking(state, n)))| >= n
  {
    LettersAsTheyAre(isPrint, n);
    LettersOutside(n);
    if state.Escaped? {
      QuoteFirst(isPrint, Repeated(LETTER, n));
      SkeletonConcat(Escaped, [BACKSLASH, QUOTE], Repeated(LETTER, n));
      assert StateAfter(Escaped, [BACKSLASH, QUOTE]) == Outside by {
        assert [BACKSLASH, QUOTE][1..] == [QUOTE] && [QUOTE][1..] == [];
        assert StateAfter(Inside, [QUOTE]) == Outside;
      }
    }
  }

  lemma QuoteFirst(isPrint: int -> bool, t: Text)
    ensures Escape(isPrint, [QUOTE] + t) == [BACKSLASH, QUOTE] + Escape(isPrint, t)
  {
    var s := [QUOTE] + t;
    assert CharLen(s) == 1 && DecodeRune(s) == (34, 1);
    assert s[1..] == t;
  }

  /** Where every variable is this text, a placeholder that is not guarded is filled with it, path or no path. */
  lemma AlwaysFilled(lib: Library, vars: Variables, s: Text, text: Text)
    requires s != [] && s[0] == DOLLAR && NameAt(vars, s[1..]) != [] && !IsGuarded(s, 1 + |NameAt(vars, s[1..])|)
    requires (forall name :: name in vars ==> vars[name] == Str(text)) && lib.decode(text).None? && !OpensBracket(text)
    ensures PieceAt(lib, vars, s) == Inserted(1 + |NameAt(vars, s[1..])|, text)
  {
    hide Longest, PathRun, Split;
    var end := 1 + |NameAt(vars, s[1..])|;
    if HasPath(s, end) {
      NoPath(lib, text, s[end + 1..PathEnd(s, end)]);
    }
  }

  lemma NoPath(lib: Library, text: Text, path: Text)
    requires lib.decode(text).None?
    ensures PathString(lib, Str(text), path).None?
  {
  }

  lemma GuardedIsCopied(lib: Library, vars: Variables, s: Text)
    requires s != [] && s[0] == DOLLAR && NameAt(vars, s[1..]) != [] && IsGuarded(s, 1 + |NameAt(vars, s[1..])|)
    ensures PieceAt(lib, vars, s) == Copied(1 + |NameAt(vars, s[1..])|)
  {
    hide Longest;
  }

  lemma BreakingOpensNothing(state: Lexer, n: nat)
    ensures !OpensBracket(Breaking(state, n))
  {
    var s := Breaking(state, n);
    if s != [] {
      assert CharLen(s) == 1 && DecodeRune(s).0 == s[0] as int;
    }
  }

  lemma OutsideSplits(names: set<Text>, q: Lexer, s: Text)
    requires !FilledInside(names, q, s)
    ensures s != []
    ensures var end := 1 + |if s[0] == DOLLAR then Longest(names, s[1..]) else []|;
            if end == 1 || IsGuarded(s, end) || q.Inside?
            then !FilledInside(names, StateAfter(q, s[..end]), s[end..])
                 && FirstOutside(names, q, s) == FirstOutside(names, StateAfter(q, s[..end]), s[end..])
            else FirstOutside(names, q, s) == q
  {
    hide StateAfter, Longest;
  }

  /** What becomes of the placeholder at the front, whose name ends at end, when every variable is this text. */
  lemma FrontPiece(lib: Library, vars: Variables, s: Text, text: Text)
    requires s != [] && forall name :: name in vars ==> IsPlain(name) && vars[name] == Str(text)
    requires lib.decode(text).None? && !OpensBracket(text)
    ensures var end := NameEnd(vars, s);
            && end <= |s|
            && PieceAt(lib, vars, s) == if end == 1 || IsGuarded(s, end) then Copied(end) else Inserted(end, text)
  {
    hide PieceAt, Longest, IsIdentifierByte, OpensBracket, IsPlain;
    if NameEnd(vars, s) == 1 {
      NoName(lib, vars, s);
    } else if IsGuarded(s, NameEnd(vars, s)) {
      GuardedIsCopied(lib, vars, s);
    } else {
      AlwaysFilled(lib, vars, s, text);
    }
    PieceBounds(lib, vars, s);
  }

  /** A filled placeholder inside a string leaves the reader where the template leaves it. */
  lemma FilledAlike(lib: Library, vars: Variables, s: Text, text: Text)
    requires s != [] && (forall name :: name in vars ==> IsPlain(name))
    requires PieceAt(lib, vars, s) == Inserted(NameEnd(vars, s), text) && NameEnd(vars, s) <= |s|
    ensures StateAfter(Inside, Escape(lib.isPrint, text)) == Inside == StateAfter(Inside, s[..NameEnd(vars, s)])
  {
    hide PieceAt, Longest;
    FilledIsPlain(lib, vars, s);
    PlainStaysInside(s[..NameEnd(vars, s)]);
    EscapeStaysInside(lib.isPrint, text);
  }

  /** The value meant for the first such placeholder shows n letters outside strings. */
  lemma {:induction false} LettersShow(lib: Library, vars: Variables, q: Lexer, s: Text, state: Lexer, n: nat)
    requires forall name :: name in vars ==> IsPlain(name) && vars[name] == Str(Breaking(state, n))
    requires lib.decode(Breaking(state, n)).None?
    requires !FilledInside(vars.Keys, q, s) && state == FirstOutside(vars.Keys, q, s)
    ensures |Skeleton(q, Render(lib, vars, s))| >= n
    decreases s
  {
    hide Render, PieceAt, StateAfter, Skeleton, Longest, Breaking, Escape, OpensBracket, FilledInside, FirstOutside,
         IsGuarded, IsPlain;
    OutsideSplits(vars.Keys, q, s);
    RenderSplits(lib, vars, s);
    BreakingOpensNothing(state, n);
    FrontPiece(lib, vars, s, Breaking(state, n));
    var end := NameEnd(vars, s);
    var tail := s[end..];
    SkeletonConcat(q, Shown(lib, PieceAt(lib, vars, s), s), Render(lib, vars, tail));
    if end == 1 || IsGuarded(s, end) {
      LettersShow(lib, vars, StateAfter(q, s[..end]), tail, state, n);
    } else if q.Inside? {
      FilledAlike(lib, vars, s, Breaking(state, n));
      LettersShow(lib, vars, Inside, tail, state, n);
    } else {
      BreakingShows(lib.isPrint, state, n);
    }
  }

  lemma NoName(lib: Library, vars: Variables, s: Text)
    requires s != [] && (s[0] == DOLLAR ==> NameAt(vars, s[1..]) == [])
    ensures PieceAt(lib, vars, s) == Copied(1)
  {
  }

  lemma {:induction false} SkeletonIsShorter(q: Lexer, s: Text)
    ensures |Skeleton(q, s)| <= |s|
    decreases s
  {
    if s != [] {
      SkeletonIsShorter(Advance(q, s[0]), s[1..]);
    }
  }

  /**
   * For names without quotes and backslashes: rendering keeps the structure of the template for all values
   * exactly when every placeholder that can be filled stands inside a string and not after a backslash.
   */
  lemma {:induction false} StructureKeptExactly(lib: Library, names: set<Text>, q: Lexer, s: Text)
    requires (forall name :: name in names ==> IsPlain(name)) && RefusesFragments(lib)
    ensures (forall vars: Variables :: vars.Keys == names ==> KeepsStructure(lib, vars, q, s))
            <==> FilledInside(names, q, s)
  {
    if FilledInside(names, q, s) {
      forall vars: Variables | vars.Keys == names ensures KeepsStructure(lib, vars, q, s) {
        KeptWhenInside(lib, vars, q, s);
      }
    } else {
      var state, n := FirstOutside(names, q, s), |s| + 1;
      var vars: Variables := map name | name in names :: Str(Breaking(state, n));
      assert vars.Keys == names;
      LettersShow(lib, vars, q, s, state, n);
      SkeletonIsShorter(q, s);
      assert !KeepsStructure(lib, vars, q, s);
    }
  }

  // A condition that looks at every $ alike

  /** Every placeholder of s, read from state q on, starts inside a string and not after a backslash. */
  ghost predicate PlaceholdersInside(vars: Variables, q: Lexer, s: Text) {
    forall i :: 0 <= i <= |s| && IsPlaceholder(vars, s[i..]) ==> StateAfter(q, s[..i]).Inside?
  }

  lemma {:induction false} AllInside(vars: Variables, q: Lexer, s: Text)
    requires PlaceholdersInside(vars, q, s)
    ensures FilledInside(vars.Keys, q, s)
    decreases |s|
  {
    hide StateAfter, Longest;
    if s != [] {
      var name := if s[0] == DOLLAR then NameAt(vars, s[1..]) else [];
      var end := 1 + |name|;
      InsideSuffix(vars, q, s, end);
      AllInside(vars, StateAfter(q, s[..end]), s[end..]);
      if name != [] {
        assert s[0..] == s && IsPlaceholder(vars, s[0..]);
        assert s[..0] == [];
        NothingRead(q);
      }
    }
  }

  lemma NothingRead(q: Lexer)
    ensures StateAfter(q, []) == q
  {
  }

  lemma InsideSuffix(vars: Variables, q: Lexer, s: Text, n: nat)
    requires n <= |s| && PlaceholdersInside(vars, q, s)
    ensures PlaceholdersInside(vars, StateAfter(q, s[..n]), s[n..])
  {
    hide IsPlaceholder, StateAfter;
    forall i | 0 <= i <= |s[n..]| && IsPlaceholder(vars, s[n..][i..])
      ensures StateAfter(StateAfter(q, s[..n]), s[n..][..i]).Inside?
    {
      assert s[n..][i..] == s[n + i..];
      var before, between := s[..n], s[n..][..i];
      assert before + between == s[..n + i];
      StateConcat(q, before, between);
    }
  }

  /**
   * Rendering keeps the JSON string structure: when no variable name holds a quote or a backslash and
   * the placeholders lie inside strings, a string lexer ends in the same state on the output as on the
   * template and sees the same text outside strings, whatever the values.
   */
  lemma {:induction false} StructureKept(lib: Library, vars: Variables, q: Lexer, s: Text)
    requires forall name :: name in vars ==> IsPlain(name)
    requires PlaceholdersInside(vars, q, s)
    ensures StateAfter(q, Render(lib, vars, s)) == StateAfter(q, s)
    ensures Skeleton(q, Render(lib, vars, s)) == Skeleton(q, s)
  {
    AllInside(vars, q, s);
    KeptWhenInside(lib, vars, q, s);
  }

  /** The place after a backslash is no place for a placeholder: \$x with a quote as x ends the string. */
  lemma BackslashBreaksStructure(lib: Library)
    ensures var vars := map[[120] := Str([QUOTE])];
            var s := [BACKSLASH, DOLLAR, 120];
            StateAfter(Inside, s) == Inside && StateAfter(Inside, Render(lib, vars, s)) == Outside
  {
    var vars := map[[120] := Str([QUOTE])];
    var s, placeholder := [BACKSLASH, DOLLAR, 120], [DOLLAR, 120];
    assert s[1..] == placeholder && placeholder[1..] == [120];
    assert Begins(vars.Keys, [120], [120]);
    assert PieceAt(lib, vars, placeholder) == Inserted(2, [QUOTE]) by {
      LongestIsDetermined(vars.Keys, [120], [120]);
    }
    assert Escape(lib.isPrint, [QUOTE]) == [BACKSLASH, QUOTE];
    RenderSplits(lib, vars, placeholder[2..]);
    RenderSplits(lib, vars, placeholder);
    RenderSplits(lib, vars, s);
    assert s[..1] == [BACKSLASH];
    assert Render(lib, vars, s) == [BACKSLASH, BACKSLASH, QUOTE];
    AfterThree(Inside, s);
    AfterThree(Inside, Render(lib, vars, s));
  }

  lemma AfterThree(q: Lexer, s: Text)
    requires |s| == 3
    ensures StateAfter(q, s) == Advance(Advance(Advance(q, s[0]), s[1]), s[2])
  {
    assert s[1..][1..] == [s[2]] && [s[2]][1..] == [];
    assert StateAfter(q, s) == StateAfter(Advance(Advance(q, s[0]), s[1]), [s[2]]);
  }
}
