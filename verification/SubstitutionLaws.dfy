/**
 * When one strings.ReplaceAll after the other, longest name first, is one left-to-right substitution
 * (model/webhook.go): the exact texts on which it is, whatever the values.
 */
module SubstitutionLaws {
  import opened Bytes
  import opened Names
  import opened Substitution

  /** Names are non-empty and hold no $. */
  ghost predicate HaveNames(pairs: seq<Pair>) {
    forall p :: p in pairs ==> p.0 != [] && DOLLAR !in p.0
  }

  /** Values hold no $ either. */
  ghost predicate AreSimple(pairs: seq<Pair>) {
    HaveNames(pairs) && forall p :: p in pairs ==> DOLLAR !in p.1
  }

  lemma SimpleAt(pairs: seq<Pair>, k: nat)
    requires AreSimple(pairs) && k < |pairs|
    ensures pairs[k].0 != [] && DOLLAR !in pairs[k].0 && DOLLAR !in pairs[k].1
  {
    assert pairs[k] in pairs;
  }

  lemma SimpleNames(pairs: seq<Pair>)
    requires AreSimple(pairs)
    ensures HaveNames(pairs)
  {
  }

  // What a pass and the substitution do, said of the text

  /** The pieces with the joint between them. */
  function Joined(pieces: seq<Text>, joint: Text): Text
    requires pieces != []
  {
    if |pieces| == 1 then pieces[0] else pieces[0] + joint + Joined(pieces[1..], joint)
  }

  /** No $ of s has the name behind it. */
  ghost predicate IsFreeOf(s: Text, name: Text) {
    forall i :: 0 <= i < |s| && s[i] == DOLLAR ==> !(name <= s[i + 1..])
  }

  lemma FreeSplits(s: Text, name: Text)
    requires s != [] && IsFreeOf(s, name)
    ensures IsFreeOf(s[1..], name) && (s[0] == DOLLAR ==> !(name <= s[1..]))
  {
    var tail := s[1..];
    assert s[0 + 1..] == tail;
    assert forall i :: 0 <= i < |tail| ==> tail[i] == s[i + 1] && tail[i + 1..] == s[i + 1 + 1..];
  }

  lemma {:induction false} PassOver(piece: Text, s: Text, p: Pair)
    requires IsFreeOf(piece, p.0) && (s == [] || s[0] == DOLLAR) && DOLLAR !in p.0
    ensures ReplaceAll(piece + s, p) == piece + ReplaceAll(s, p)
    decreases piece
  {
    hide ReplaceAll, IsFreeOf;
    if piece == [] {
      assert piece + s == s;
    } else {
      var tail, all := piece[1..], piece + s;
      assert all[1..] == tail + s && all[0] == piece[0];
      FreeSplits(piece, p.0);
      PassOver(tail, s, p);
      ReplaceSplits(all, p);
      if s == [] {
        assert tail + s == tail;
      } else {
        BeforeDollar(tail, s, p.0);
      }
      assert [piece[0]] + (tail + ReplaceAll(s, p)) == piece + ReplaceAll(s, p);
    }
  }

  /** A pass puts the value in for the $ and the name, wherever they stand, and leaves the rest. */
  lemma {:induction false} PassReplacesAll(pieces: seq<Text>, p: Pair)
    requires pieces != [] && DOLLAR !in p.0 && forall i :: 0 <= i < |pieces| ==> IsFreeOf(pieces[i], p.0)
    ensures ReplaceAll(Joined(pieces, [DOLLAR] + p.0), p) == Joined(pieces, p.1)
    decreases |pieces|
  {
    hide ReplaceAll, Joined, IsFreeOf;
    JoinedSplits(pieces, [DOLLAR] + p.0);
    JoinedSplits(pieces, p.1);
    if |pieces| == 1 {
      PassOver(pieces[0], [], p);
      EmptyPass(p);
      assert pieces[0] + [] == pieces[0];
    } else {
      PassReplacesAll(pieces[1..], p);
      PieceAndPlaceholder(pieces[0], Joined(pieces[1..], [DOLLAR] + p.0), p);
    }
  }

  lemma JoinedSplits(pieces: seq<Text>, joint: Text)
    requires pieces != []
    ensures Joined(pieces, joint)
            == if |pieces| == 1 then pieces[0] else pieces[0] + joint + Joined(pieces[1..], joint)
  {
  }

  lemma PieceAndPlaceholder(piece: Text, rest: Text, p: Pair)
    requires IsFreeOf(piece, p.0) && DOLLAR !in p.0
    ensures ReplaceAll(piece + ([DOLLAR] + p.0) + rest, p) == piece + p.1 + ReplaceAll(rest, p)
  {
    hide ReplaceAll, IsFreeOf;
    var s := [DOLLAR] + p.0 + rest;
    assert piece + ([DOLLAR] + p.0) + rest == piece + s;
    assert s[1..] == p.0 + rest && s[1 + |p.0|..] == rest;
    PassOver(piece, s, p);
    ReplaceSplits(s, p);
    assert piece + (p.1 + ReplaceAll(rest, p)) == piece + p.1 + ReplaceAll(rest, p);
  }

  /** A text read once from left to right: a byte to keep, or a placeholder. */
  datatype Token = Kept(b: byte) | Placeholder(name: Text)

  ghost predicate ReadsAs(names: set<Text>, s: Text, tokens: seq<Token>)
    decreases tokens
  {
    if tokens == [] then s == []
    else
      s != [] &&
      match tokens[0]
      case Kept(b) =>
        s[0] == b && (b == DOLLAR ==> forall m :: !Begins(names, s[1..], m)) && ReadsAs(names, s[1..], tokens[1..])
      case Placeholder(name) =>
        s[0] == DOLLAR && IsLongest(names, s[1..], name) && ReadsAs(names, s[1 + |name|..], tokens[1..])
  }

  /** The tokens with the values for the placeholders. */
  function Spelled(tokens: seq<Token>, variables: map<Text, Text>): Text {
    if tokens == [] then []
    else (match tokens[0]
          case Kept(b) => [b]
          case Placeholder(name) => if name in variables then variables[name] else []) + Spelled(tokens[1..], variables)
  }

  lemma {:induction false} Tokenized(names: set<Text>, s: Text) returns (tokens: seq<Token>)
    ensures ReadsAs(names, s, tokens)
    decreases s
  {
    tokens := [];
    if s != [] {
      var name := if s[0] == DOLLAR then Longest(names, s[1..]) else [];
      if name == [] {
        var rest := Tokenized(names, s[1..]);
        tokens := [Kept(s[0])] + rest;
      } else {
        var rest := Tokenized(names, s[1 + |name|..]);
        tokens := [Placeholder(name)] + rest;
      }
    }
  }

  /** Every text is read in one way, and the substitution is that reading with the values put in. */
  lemma {:induction false} SubstituteSpells(s: Text, variables: map<Text, Text>, tokens: seq<Token>)
    requires ReadsAs(variables.Keys, s, tokens)
    ensures Substitute(s, variables) == Spelled(tokens, variables)
    decreases tokens
  {
    hide Longest, Substitute, IsLongest;
    if tokens == [] {
      NothingSubstituted(variables);
    } else {
      SubstituteSplits(s, variables);
      LongestIs(variables.Keys, s[1..]);
      match tokens[0] {
        case Kept(b) => SubstituteSpells(s[1..], variables, tokens[1..]);
        case Placeholder(name) =>
          assert 1 + |name| <= |s| by { LongestFits(variables.Keys, s[1..], name); }
          SubstituteSpells(s[1 + |name|..], variables, tokens[1..]);
      }
    }
  }

  lemma LongestFits(names: set<Text>, rest: Text, name: Text)
    requires IsLongest(names, rest, name)
    ensures |name| <= |rest|
  {
  }

  lemma NothingSubstituted(variables: map<Text, Text>)
    ensures Substitute([], variables) == []
  {
  }

  lemma SubstituteSplits(s: Text, variables: map<Text, Text>)
    requires s != []
    ensures var name := if s[0] == DOLLAR then Longest(variables.Keys, s[1..]) else [];
            Substitute(s, variables)
            == if name == [] then [s[0]] + Substitute(s[1..], variables)
               else variables[name] + Substitute(s[1 + |name|..], variables)
  {
  }

  lemma LongestIs(names: set<Text>, rest: Text)
    ensures (Longest(names, rest) == [] <==> forall m :: !Begins(names, rest, m))
    ensures forall m :: IsLongest(names, rest, m) ==> m == Longest(names, rest) && m != [] && m in names
  {
    forall m | IsLongest(names, rest, m) ensures m == Longest(names, rest) && m != [] && m in names {
      LongestIsDetermined(names, rest, m);
    }
  }

  // Where a pass can complete a name for a later one

  /** What s holds before its first $. */
  function Gap(s: Text): (g: Text)
    ensures g <= s && DOLLAR !in g
    ensures |g| < |s| ==> s[|g|] == DOLLAR
  {
    if s == [] || s[0] == DOLLAR then [] else [s[0]] + Gap(s[1..])
  }

  lemma {:induction false} GapOf(g: Text, s: Text)
    requires DOLLAR !in g && (s != [] ==> s[0] == DOLLAR)
    ensures Gap(g + s) == g
  {
    if g == [] {
      assert g + s == s;
    } else {
      assert (g + s)[1..] == g[1..] + s;
      GapOf(g[1..], s);
    }
  }

  /**
   * After a $ with tail behind it: all that lies before the next $ is the beginning of the b-th name, and that
   * $ gives way to its value in an earlier pass.
   */
  predicate CompletesAt(tail: Text, pairs: seq<Pair>, b: nat)
    requires b < |pairs|
  {
    var g := Gap(tail);
    |g| < |tail| && FitIndex(pairs, tail[|g| + 1..]) < b && g < pairs[b].0
  }

  predicate IsCompleted(s: Text, pairs: seq<Pair>, b: nat)
    requires b < |pairs|
  {
    s != [] && ((s[0] == DOLLAR && CompletesAt(s[1..], pairs, b)) || IsCompleted(s[1..], pairs, b))
  }

  /** No name can be completed anywhere in s. */
  ghost predicate IsSafe(s: Text, pairs: seq<Pair>) {
    forall b :: 0 <= b < |pairs| ==> !IsCompleted(s, pairs, b)
  }

  ghost predicate NoneCompletes(tail: Text, pairs: seq<Pair>) {
    forall b :: 0 <= b < |pairs| ==> !CompletesAt(tail, pairs, b)
  }

  lemma SafeSplits(s: Text, pairs: seq<Pair>)
    requires s != []
    ensures IsSafe(s, pairs) <==> (s[0] == DOLLAR ==> NoneCompletes(s[1..], pairs)) && IsSafe(s[1..], pairs)
  {
    if (s[0] == DOLLAR ==> NoneCompletes(s[1..], pairs)) && IsSafe(s[1..], pairs) {
      forall b | 0 <= b < |pairs| ensures !IsCompleted(s, pairs, b) {
        assert s[0] == DOLLAR ==> !CompletesAt(s[1..], pairs, b);
        assert !IsCompleted(s[1..], pairs, b);
      }
    }
    if IsSafe(s, pairs) {
      forall b | 0 <= b < |pairs| ensures !IsCompleted(s[1..], pairs, b) {
        assert !IsCompleted(s, pairs, b);
      }
      if s[0] == DOLLAR {
        forall b | 0 <= b < |pairs| ensures !CompletesAt(s[1..], pairs, b) {
          assert !IsCompleted(s, pairs, b);
        }
      }
    }
  }

  lemma {:induction false} SafeSuffix(s: Text, pairs: seq<Pair>, n: nat)
    requires IsSafe(s, pairs) && n <= |s|
    ensures IsSafe(s[n..], pairs)
  {
    if n == 0 {
      assert s[0..] == s;
    } else {
      SafeSplits(s, pairs);
      SafeSuffix(s[1..], pairs, n - 1);
      assert s[1..][n - 1..] == s[n..];
    }
  }

  lemma {:induction false} SafePlain(v: Text, s: Text, pairs: seq<Pair>)
    requires DOLLAR !in v && IsSafe(s, pairs)
    ensures IsSafe(v + s, pairs)
  {
    if v == [] {
      assert v + s == s;
    } else {
      assert (v + s)[0] == v[0] && (v + s)[1..] == v[1..] + s;
      SafePlain(v[1..], s, pairs);
      SafeSplits(v + s, pairs);
    }
  }

  /** Text without $ passes through. */
  lemma {:induction false} ReplacePlain(v: Text, s: Text, p: Pair)
    requires DOLLAR !in v
    ensures ReplaceAll(v + s, p) == v + ReplaceAll(s, p)
  {
    if v == [] {
      assert v + s == s;
    } else {
      assert (v + s)[0] == v[0] && (v + s)[1..] == v[1..] + s;
      ReplacePlain(v[1..], s, p);
    }
  }

  lemma {:induction false} SimultaneousPlain(v: Text, s: Text, pairs: seq<Pair>)
    requires DOLLAR !in v
    ensures Simultaneous(v + s, pairs) == v + Simultaneous(s, pairs)
  {
    if v == [] {
      assert v + s == s;
    } else {
      assert (v + s)[0] == v[0] && (v + s)[1..] == v[1..] + s;
      SimultaneousPlain(v[1..], s, pairs);
    }
  }

  // Where no name can be completed

  /** What begins g + a begins g or goes on into a. */
  lemma WithinGap(g: Text, a: Text, m: Text)
    ensures m <= g + a <==> m <= g || (g < m && m[|g|..] <= a)
  {
    if m <= g + a {
      if |m| > |g| {
        assert g == m[..|g|];
        assert m[|g|..] == (g + a)[|g|..|m|] == a[..|m| - |g|];
      } else {
        assert m == (g + a)[..|m|] == g[..|m|];
      }
    }
    if g < m && m[|g|..] <= a {
      assert m == g + m[|g|..];
    }
  }

  lemma BeforeDollar(g: Text, a: Text, m: Text)
    requires a != [] && a[0] == DOLLAR && DOLLAR !in m
    ensures m <= g + a <==> m <= g
  {
    WithinGap(g, a, m);
  }

  lemma {:induction false} FitAgrees(pairs: seq<Pair>, a: Text, b: Text)
    requires forall q :: q in pairs ==> (q.0 <= a <==> q.0 <= b)
    ensures FitIndex(pairs, a) == FitIndex(pairs, b)
  {
    if pairs != [] {
      assert pairs[0] in pairs;
      FitAgrees(pairs[1..], a, b);
    }
  }

  lemma FitPeels(pairs: seq<Pair>, rest: Text)
    requires pairs != []
    ensures FitIndex(pairs, rest) == if pairs[0].0 <= rest then 0 else 1 + FitIndex(pairs[1..], rest)
  {
  }

  /** The first pass leaves the matches of the others after a $ as they are. */
  lemma PassKeepsFit(tail: Text, pairs: seq<Pair>)
    requires pairs != [] && AreSimple(pairs) && NoneCompletes(tail, pairs)
    ensures FitIndex(pairs[1..], ReplaceAll(tail, pairs[0])) == FitIndex(pairs[1..], tail)
  {
    var p, g := pairs[0], Gap(tail);
    var u := tail[|g|..];
    assert tail == g + u;
    ReplacePlain(g, u, p);
    forall q | q in pairs[1..] ensures q.0 <= ReplaceAll(tail, p) <==> q.0 <= tail {
      var b :| 1 <= b < |pairs| && pairs[b] == q;
      assert q in pairs;
      if u != [] {
        BeforeDollar(g, u, q.0);
        if p.0 <= u[1..] {
          assert tail[|g| + 1..] == u[1..];
          assert !CompletesAt(tail, pairs, b);
          WithinGap(g, ReplaceAll(u, p), q.0);
        } else {
          BeforeDollar(g, ReplaceAll(u, p), q.0);
        }
      }
    }
    FitAgrees(pairs[1..], ReplaceAll(tail, p), tail);
  }

  lemma ReplaceSplits(s: Text, p: Pair)
    requires s != []
    ensures s[0] == DOLLAR && p.0 <= s[1..] ==> ReplaceAll(s, p) == p.1 + ReplaceAll(s[1 + |p.0|..], p)
    ensures !(s[0] == DOLLAR && p.0 <= s[1..]) ==> ReplaceAll(s, p) == [s[0]] + ReplaceAll(s[1..], p)
  {
  }

  lemma SimultaneousSplits(s: Text, pairs: seq<Pair>, k: nat)
    requires s != [] && k == FitIndex(pairs, s[1..])
    ensures s[0] == DOLLAR && k < |pairs| ==>
              Simultaneous(s, pairs) == pairs[k].1 + Simultaneous(s[1 + |pairs[k].0|..], pairs)
    ensures !(s[0] == DOLLAR && k < |pairs|) ==> Simultaneous(s, pairs) == [s[0]] + Simultaneous(s[1..], pairs)
  {
  }

  lemma NothingToDo(pairs: seq<Pair>)
    ensures Simultaneous([], pairs) == []
  {
  }

  /** The first byte is no $. */
  lemma MergeByte(s: Text, pairs: seq<Pair>)
    requires pairs != [] && s != [] && s[0] != DOLLAR
    requires Simultaneous(ReplaceAll(s[1..], pairs[0]), pairs[1..]) == Simultaneous(s[1..], pairs)
    ensures Simultaneous(ReplaceAll(s, pairs[0]), pairs[1..]) == Simultaneous(s, pairs)
  {
    hide ReplaceAll, Simultaneous, FitIndex;
    ReplaceSplits(s, pairs[0]);
    SimultaneousSplits(s, pairs, FitIndex(pairs, s[1..]));
    SimultaneousPlain([s[0]], ReplaceAll(s[1..], pairs[0]), pairs[1..]);
  }

  /** The first byte is a $ that the first pair replaces. */
  lemma MergeFound(s: Text, pairs: seq<Pair>, after: Text)
    requires pairs != [] && DOLLAR !in pairs[0].1 && s != [] && s[0] == DOLLAR && pairs[0].0 <= s[1..]
    requires after == s[1 + |pairs[0].0|..]
    requires Simultaneous(ReplaceAll(after, pairs[0]), pairs[1..]) == Simultaneous(after, pairs)
    ensures Simultaneous(ReplaceAll(s, pairs[0]), pairs[1..]) == Simultaneous(s, pairs)
  {
    hide ReplaceAll, Simultaneous, FitIndex;
    ReplaceSplits(s, pairs[0]);
    FitPeels(pairs, s[1..]);
    SimultaneousSplits(s, pairs, 0);
    SimultaneousPlain(pairs[0].1, ReplaceAll(after, pairs[0]), pairs[1..]);
  }

  /** One pass with the first pair, then the others at once, is all at once. */
  lemma {:induction false} PassMerges(s: Text, pairs: seq<Pair>)
    requires pairs != [] && AreSimple(pairs) && IsSafe(s, pairs)
    ensures Simultaneous(ReplaceAll(s, pairs[0]), pairs[1..]) == Simultaneous(s, pairs)
    decreases s
  {
    hide ReplaceAll, Simultaneous, FitIndex, IsSafe, AreSimple;
    SimpleAt(pairs, 0);
    if s == [] {
      EmptyPass(pairs[0]);
      NothingToDo(pairs);
      NothingToDo(pairs[1..]);
    } else if s[0] != DOLLAR {
      SafeSuffix(s, pairs, 1);
      PassMerges(s[1..], pairs);
      MergeByte(s, pairs);
    } else if pairs[0].0 <= s[1..] {
      var after := s[1 + |pairs[0].0|..];
      SafeSuffix(s, pairs, 1 + |pairs[0].0|);
      PassMerges(after, pairs);
      MergeFound(s, pairs, after);
    } else {
      DollarStays(s, pairs);
    }
  }

  /** The case of a $ that the first pair leaves alone. */
  lemma {:induction false} DollarStays(s: Text, pairs: seq<Pair>)
    requires pairs != [] && AreSimple(pairs) && IsSafe(s, pairs)
    requires s != [] && s[0] == DOLLAR && !(pairs[0].0 <= s[1..])
    ensures Simultaneous(ReplaceAll(s, pairs[0]), pairs[1..]) == Simultaneous(s, pairs)
    decreases s, 0
  {
    hide ReplaceAll, Simultaneous, FitIndex, IsSafe;
    var p, rest, tail := pairs[0], pairs[1..], s[1..];
    var r := ReplaceAll(tail, p);
    var whole := [DOLLAR] + r;
    ReplaceSplits(s, p);
    assert whole[1..] == r;
    SafeSplits(s, pairs);
    PassKeepsFit(tail, pairs);
    FitPeels(pairs, tail);
    var k := FitIndex(rest, tail);
    SimultaneousSplits(s, pairs, k + 1);
    SimultaneousSplits(whole, rest, k);
    if k < |rest| {
      var q := rest[k];
      var n := |q.0|;
      var after := tail[n..];
      assert q == pairs[k + 1] && q in pairs && DOLLAR !in q.0;
      assert tail == q.0 + after;
      ReplacePlain(q.0, after, p);
      assert r[n..] == ReplaceAll(after, p) && whole[1 + n..] == r[n..];
      assert s[1 + n..] == after;
      SafeSuffix(s, pairs, 1 + n);
      PassMerges(after, pairs);
    } else {
      PassMerges(tail, pairs);
    }
  }

  /** A completion, seen from the two sides of the next $. */
  lemma CompletesAround(g: Text, next: Text, pairs: seq<Pair>, b: nat)
    requires DOLLAR !in g && b < |pairs|
    ensures CompletesAt(g + ([DOLLAR] + next), pairs, b) <==> FitIndex(pairs, next) < b && g < pairs[b].0
  {
    hide FitIndex, Gap;
    var tail := g + ([DOLLAR] + next);
    GapOf(g, [DOLLAR] + next);
    assert |Gap(tail)| < |tail|;
    assert tail[|g| + 1..] == next;
  }

  lemma NoneAround(g: Text, next: Text, pairs: seq<Pair>)
    requires DOLLAR !in g
    ensures NoneCompletes(g + ([DOLLAR] + next), pairs)
            <==> forall b :: FitIndex(pairs, next) < b < |pairs| ==> !(g < pairs[b].0)
  {
    hide CompletesAt, FitIndex;
    forall b | 0 <= b < |pairs|
      ensures CompletesAt(g + ([DOLLAR] + next), pairs, b) <==> FitIndex(pairs, next) < b && g < pairs[b].0
    {
      CompletesAround(g, next, pairs, b);
    }
  }

  /** Nor can a name be completed for the later passes once the first is done. */
  lemma NoneCompletesAfter(tail: Text, pairs: seq<Pair>)
    requires pairs != [] && AreSimple(pairs) && NoneCompletes(tail, pairs) && IsSafe(tail, pairs)
    ensures NoneCompletes(ReplaceAll(tail, pairs[0]), pairs[1..])
  {
    hide NoneCompletes, IsSafe, FitIndex, ReplaceAll;
    var p, g := pairs[0], Gap(tail);
    var u := tail[|g|..];
    assert tail == g + u && p in pairs;
    ReplacePlain(g, u, p);
    if u == [] {
      assert ReplaceAll(u, p) == [] by { EmptyPass(p); }
      GapOf(g, []);
      NoGapNoCompletion(g + [], pairs[1..]);
      assert ReplaceAll(tail, p) == g + [];
    } else {
      var next := u[1..];
      assert u == [DOLLAR] + next;
      SafeSuffix(tail, pairs, |g|);
      SafeSplits(u, pairs);
      ReplaceSplits(u, p);
      if p.0 <= next {
        MatchedGap(g, next, pairs, p.1 + ReplaceAll(next[|p.0|..], p));
        assert u[1 + |p.0|..] == next[|p.0|..];
      } else {
        UnmatchedGap(g, next, pairs);
      }
    }
  }

  lemma EmptyPass(p: Pair)
    ensures ReplaceAll([], p) == []
  {
  }

  lemma MatchedGap(g: Text, next: Text, pairs: seq<Pair>, after: Text)
    requires pairs != [] && DOLLAR !in g && NoneCompletes(g + ([DOLLAR] + next), pairs) && pairs[0].0 <= next
    ensures NoneCompletes(g + after, pairs[1..])
  {
    hide FitIndex, NoneCompletes;
    NoneAround(g, next, pairs);
    FitPeels(pairs, next);
    var r, rest := g + after, pairs[1..];
    GapExtends(g, after);
    var wide := Gap(r);
    if |wide| < |r| {
      assert r == wide + ([DOLLAR] + r[|wide| + 1..]);
      NoneAround(wide, r[|wide| + 1..], rest);
      forall b | 0 <= b < |rest| ensures !(wide < rest[b].0) {
        assert !(g < pairs[b + 1].0);
      }
    } else {
      GapOf(r, []);
      assert r + [] == r;
      NoGapNoCompletion(r, rest);
    }
  }

  lemma NoGapNoCompletion(tail: Text, pairs: seq<Pair>)
    requires Gap(tail) == tail
    ensures NoneCompletes(tail, pairs)
  {
  }

  lemma UnmatchedGap(g: Text, next: Text, pairs: seq<Pair>)
    requires pairs != [] && AreSimple(pairs) && DOLLAR !in g
    requires NoneCompletes(g + ([DOLLAR] + next), pairs) && NoneCompletes(next, pairs) && !(pairs[0].0 <= next)
    ensures NoneCompletes(g + ReplaceAll([DOLLAR] + next, pairs[0]), pairs[1..])
  {
    hide NoneCompletes;
    var p, rest := pairs[0], pairs[1..];
    var v := ReplaceAll(next, p);
    assert ([DOLLAR] + next)[1..] == next;
    assert ReplaceAll([DOLLAR] + next, p) == [DOLLAR] + v;
    PassKeepsFit(next, pairs);
    FitPeels(pairs, next);
    hide FitIndex, ReplaceAll, AreSimple;
    NoneAround(g, next, pairs);
    NoneAround(g, v, rest);
    forall b | FitIndex(rest, v) < b < |rest| ensures !(g < rest[b].0) {
      assert !(g < pairs[b + 1].0);
    }
  }

  lemma {:induction false} GapExtends(g: Text, a: Text)
    requires DOLLAR !in g
    ensures g <= Gap(g + a)
  {
    if g != [] {
      assert (g + a)[1..] == g[1..] + a;
      GapExtends(g[1..], a);
    }
  }

  lemma {:induction false} SafePass(s: Text, pairs: seq<Pair>)
    requires pairs != [] && AreSimple(pairs) && IsSafe(s, pairs)
    ensures IsSafe(ReplaceAll(s, pairs[0]), pairs[1..])
    decreases s
  {
    if s != [] {
      var p, tail := pairs[0], s[1..];
      assert p in pairs;
      SafeSplits(s, pairs);
      if s[0] == DOLLAR && p.0 <= tail {
        SafeSuffix(s, pairs, 1 + |p.0|);
        SafePass(s[1 + |p.0|..], pairs);
        SafePlain(p.1, ReplaceAll(s[1 + |p.0|..], p), pairs[1..]);
      } else {
        SafePass(tail, pairs);
        if s[0] == DOLLAR {
          NoneCompletesAfter(tail, pairs);
        }
        assert ReplaceAll(s, p)[1..] == ReplaceAll(tail, p);
        SafeSplits(ReplaceAll(s, p), pairs[1..]);
      }
    }
  }

  /** All passes, one after the other, do what the pairs do at once. */
  lemma {:induction false} PassesMerge(s: Text, pairs: seq<Pair>)
    requires AreSimple(pairs) && IsSafe(s, pairs)
    ensures ReplaceEach(s, pairs) == Simultaneous(s, pairs)
    decreases |pairs|
  {
    if pairs == [] {
      NoPairs(s);
    } else {
      SafePass(s, pairs);
      PassesMerge(ReplaceAll(s, pairs[0]), pairs[1..]);
      PassMerges(s, pairs);
    }
  }

  lemma {:induction false} NoPairs(s: Text)
    ensures Simultaneous(s, []) == s
  {
    if s != [] {
      NoPairs(s[1..]);
    }
  }

  // Simultaneous, from the sorted pairs, is Substitute

  lemma FirstFitIsLongest(pairs: seq<Pair>, variables: map<Text, Text>, rest: Text)
    requires ArePairsOf(pairs, variables) && HaveNames(pairs)
    ensures var name := Longest(variables.Keys, rest);
            FirstFit(pairs, rest) == if name == [] then None else Some((name, variables[name]))
  {
    var names := NamesOf(pairs);
    assert [] !in names by {
      forall i | 0 <= i < |names| ensures names[i] != [] {
        assert pairs[i] in pairs;
      }
    }
    var k := FitIndex(pairs, rest);
    if k < |pairs| {
      FirstInSortedIsLongest(names, rest, k);
    } else {
      forall name | Begins(variables.Keys, rest, name) ensures false {
        NotBegun(pairs, variables, rest, name);
      }
    }
  }

  lemma NotBegun(pairs: seq<Pair>, variables: map<Text, Text>, rest: Text, name: Text)
    requires ArePairsOf(pairs, variables) && name in variables && name <= rest
    ensures FitIndex(pairs, rest) < |pairs|
  {
    assert name in ElementsOf(NamesOf(pairs));
    var i :| 0 <= i < |pairs| && NamesOf(pairs)[i] == name;
    assert pairs[i].0 <= rest;
  }

  lemma {:induction false} SimultaneousIsSubstitute(s: Text, pairs: seq<Pair>, variables: map<Text, Text>)
    requires ArePairsOf(pairs, variables) && HaveNames(pairs)
    ensures Simultaneous(s, pairs) == Substitute(s, variables)
    decreases s
  {
    if s != [] {
      var name := if s[0] == DOLLAR then Longest(variables.Keys, s[1..]) else [];
      if s[0] == DOLLAR {
        FirstFitIsLongest(pairs, variables, s[1..]);
      }
      SimultaneousIsSubstitute(if name == [] then s[1..] else s[1 + |name|..], pairs, variables);
    }
  }
}
