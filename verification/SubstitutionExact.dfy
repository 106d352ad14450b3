/**
 * The exact texts on which the passes of a webhook rule are one substitution, whatever the values
 * (model/webhook.go), and values that tell the two apart on all other texts.
 */
module SubstitutionExact {
  import opened Bytes
  import opened Names
  import opened Substitution
  import opened SubstitutionLaws

  /**
   * Two successive $ of s, at i and j: the text between them properly begins the name m, and the name that is
   * replaced at j comes before m.
   */
  ghost predicate Completes(names: set<Text>, s: Text, i: int, j: int, m: Text) {
    && 0 <= i < j < |s| && s[i] == DOLLAR && s[j] == DOLLAR && DOLLAR !in s[i + 1..j]
    && m in names && s[i + 1..j] < m
    && Longest(names, s[j + 1..]) != [] && Before(Longest(names, s[j + 1..]), m)
  }

  /** The name that is replaced first after a place is the longest one there. */
  lemma FitIsLongest(pairs: seq<Pair>, variables: map<Text, Text>, rest: Text, b: nat)
    requires ArePairsOf(pairs, variables) && HaveNames(pairs) && b < |pairs|
    ensures FitIndex(pairs, rest) < b
            <==> Longest(variables.Keys, rest) != [] && Before(Longest(variables.Keys, rest), pairs[b].0)
  {
    hide FitIndex, Longest, Before, ElementsOf, HaveNames;
    FirstFitIsLongest(pairs, variables, rest);
    var a, names := FitIndex(pairs, rest), NamesOf(pairs);
    if a < |pairs| {
      NotEmpty(pairs, a);
      BeforeIsStrictOrder(names[a], names[b], names[a]);
      assert a < b ==> Before(names[a], names[b]);
      assert b < a ==> Before(names[b], names[a]);
    }
  }

  lemma NotEmpty(pairs: seq<Pair>, a: nat)
    requires HaveNames(pairs) && a < |pairs|
    ensures pairs[a].0 != []
  {
    assert pairs[a] in pairs;
  }

  lemma GapEnds(s: Text, i: nat, j: nat)
    requires i < j < |s| && s[j] == DOLLAR && DOLLAR !in s[i + 1..j]
    ensures var tail := s[i + 1..];
            Gap(tail) == s[i + 1..j] && |Gap(tail)| < |tail| && tail[|Gap(tail)| + 1..] == s[j + 1..]
  {
    var tail := s[i + 1..];
    GapOf(s[i + 1..j], s[j..]);
    assert tail == s[i + 1..j] + s[j..];
    assert tail[j - i..] == s[j + 1..];
  }

  lemma CompletesAtNext(s: Text, pairs: seq<Pair>, variables: map<Text, Text>, i: nat, b: nat, j: nat)
    requires ArePairsOf(pairs, variables) && AreSimple(pairs)
    requires i < j < |s| && s[i] == DOLLAR && s[j] == DOLLAR && DOLLAR !in s[i + 1..j] && b < |pairs|
    ensures CompletesAt(s[i + 1..], pairs, b) <==> Completes(variables.Keys, s, i, j, pairs[b].0)
  {
    hide FitIndex, Longest, Before, HaveNames, Gap;
    assert pairs[b].0 in variables;
    GapEnds(s, i, j);
    FitIsLongest(pairs, variables, s[j + 1..], b);
  }

  lemma SpotIsCompletion(s: Text, pairs: seq<Pair>, variables: map<Text, Text>, i: nat, b: nat)
    requires ArePairsOf(pairs, variables) && AreSimple(pairs)
    requires i < |s| && s[i] == DOLLAR && b < |pairs|
    ensures CompletesAt(s[i + 1..], pairs, b) <==> exists j :: Completes(variables.Keys, s, i, j, pairs[b].0)
  {
    hide FitIndex, Longest, Before, AreSimple, ArePairsOf;
    var tail := s[i + 1..];
    if CompletesAt(tail, pairs, b) {
      var j := i + 1 + |Gap(tail)|;
      assert s[i + 1..j] == Gap(tail);
      CompletesAtNext(s, pairs, variables, i, b, j);
    }
    if j :| Completes(variables.Keys, s, i, j, pairs[b].0) {
      CompletesAtNext(s, pairs, variables, i, b, j);
    }
  }

  lemma {:induction false} CompletedSomewhere(s: Text, pairs: seq<Pair>, b: nat) returns (i: nat)
    requires b < |pairs| && IsCompleted(s, pairs, b)
    ensures i < |s| && s[i] == DOLLAR && CompletesAt(s[i + 1..], pairs, b)
  {
    if s[0] == DOLLAR && CompletesAt(s[1..], pairs, b) {
      i := 0;
    } else {
      i := CompletedSomewhere(s[1..], pairs, b);
      i := i + 1;
    }
  }

  lemma {:induction false} CompletedHere(s: Text, pairs: seq<Pair>, b: nat, i: nat)
    requires b < |pairs| && i < |s| && s[i] == DOLLAR && CompletesAt(s[i + 1..], pairs, b)
    ensures IsCompleted(s, pairs, b)
  {
    if i > 0 {
      assert s[1..][i - 1 + 1..] == s[i + 1..];
      CompletedHere(s[1..], pairs, b, i - 1);
    }
  }

  lemma SafeWithoutCompletion(s: Text, pairs: seq<Pair>, variables: map<Text, Text>)
    requires ArePairsOf(pairs, variables) && AreSimple(pairs)
    requires forall i, j, m :: !Completes(variables.Keys, s, i, j, m)
    ensures IsSafe(s, pairs)
  {
    forall b | 0 <= b < |pairs| ensures !IsCompleted(s, pairs, b) {
      if IsCompleted(s, pairs, b) {
        var i := CompletedSomewhere(s, pairs, b);
        SpotIsCompletion(s, pairs, variables, i, b);
      }
    }
  }

  // Counting

  /** How many $ of t have m right behind them. */
  function Hits(t: Text, m: Text): nat {
    if t == [] then 0 else (if t[0] == DOLLAR && m <= t[1..] then 1 else 0) + Hits(t[1..], m)
  }

  /** How many $ of s have the b-th name as the first that fits. */
  function Uses(s: Text, pairs: seq<Pair>, b: nat): nat {
    if s == [] then 0
    else (if s[0] == DOLLAR && FitIndex(pairs, s[1..]) == b then 1 else 0) + Uses(s[1..], pairs, b)
  }

  function Dollars(s: Text): nat {
    if s == [] then 0 else (if s[0] == DOLLAR then 1 else 0) + Dollars(s[1..])
  }

  lemma {:induction false} CountsPlain(v: Text, s: Text, m: Text, pairs: seq<Pair>, b: nat)
    requires DOLLAR !in v
    ensures Hits(v + s, m) == Hits(s, m) && Uses(v + s, pairs, b) == Uses(s, pairs, b) && Dollars(v + s) == Dollars(s)
  {
    if v == [] {
      assert v + s == s;
    } else {
      assert (v + s)[0] == v[0] && (v + s)[1..] == v[1..] + s;
      CountsPlain(v[1..], s, m, pairs, b);
    }
  }

  /** At s[i] stands a $ where the b-th name is completed by the very value that replaces the next $. */
  predicate IsSpot(s: Text, pairs: seq<Pair>, b: nat, i: nat)
    requires b < |pairs|
  {
    && i < |s| && s[i] == DOLLAR && CompletesAt(s[i + 1..], pairs, b)
    && var tail := s[i + 1..];
       pairs[FitIndex(pairs, tail[|Gap(tail)| + 1..])].1 == pairs[b].0[|Gap(tail)|..]
  }

  /** Longer names come first. */
  ghost predicate ShrinkInLength(pairs: seq<Pair>) {
    forall a, b :: 0 <= a < b < |pairs| ==> |pairs[a].0| >= |pairs[b].0|
  }

  lemma FitPrefix(pairs: seq<Pair>, b: nat, rest: Text)
    requires b <= |pairs|
    ensures FitIndex(pairs[..b], rest) == if FitIndex(pairs, rest) < b then FitIndex(pairs, rest) else b
  {
    var k := FitIndex(pairs[..b], rest);
    assert forall j :: 0 <= j < b ==> pairs[..b][j] == pairs[j];
    assert k < b ==> pairs[..b][k].0 <= rest;
  }

  /** At a spot the b-th name does not fit, nor does any before it. */
  lemma SpotUnmatched(tail: Text, pairs: seq<Pair>, b: nat)
    requires b < |pairs| && AreSimple(pairs) && ShrinkInLength(pairs) && CompletesAt(tail, pairs, b)
    ensures FitIndex(pairs, tail) > b
  {
    forall a | 0 <= a <= b ensures !(pairs[a].0 <= tail) {
      NotBeyondGap(tail, pairs, b, a);
    }
    hide FitIndex, CompletesAt, AreSimple, ShrinkInLength;
    if FitIndex(pairs, tail) < |pairs| {
      FitFits(pairs, tail);
    }
  }

  lemma NotBeyondGap(tail: Text, pairs: seq<Pair>, b: nat, a: nat)
    requires a <= b < |pairs| && AreSimple(pairs) && ShrinkInLength(pairs) && CompletesAt(tail, pairs, b)
    ensures !(pairs[a].0 <= tail)
  {
    hide FitIndex, Gap;
    var g := Gap(tail);
    assert pairs[a] in pairs && |pairs[a].0| > |g|;
    BeforeDollar(g, tail[|g|..], pairs[a].0);
    assert tail == g + tail[|g|..];
  }

  /** There the first b pairs put the rest of the b-th name after the gap. */
  lemma SpotHit(s: Text, pairs: seq<Pair>, b: nat)
    requires b < |pairs| && AreSimple(pairs) && IsSpot(s, pairs, b, 0)
    ensures pairs[b].0 <= Simultaneous(s[1..], pairs[..b])
  {
    hide Simultaneous, FitIndex, AreSimple;
    var tail, m := s[1..], pairs[b].0;
    var g := Gap(tail);
    var u, next := tail[|g|..], tail[|g| + 1..];
    var a := FitIndex(pairs, next);
    assert u[1..] == next && tail == g + u && pairs[..b][a] == pairs[a];
    FitPrefix(pairs, b, next);
    SimultaneousSplits(u, pairs[..b], a);
    SimultaneousPlain(g, u, pairs[..b]);
    FitFits(pairs, next);
    PrefixOf(g, m, Simultaneous(u[1 + |pairs[a].0|..], pairs[..b]));
  }

  lemma PrefixOf(g: Text, m: Text, after: Text)
    requires g <= m
    ensures m <= g + (m[|g|..] + after)
  {
    assert g + (m[|g|..] + after) == m + after by { assert m == g + m[|g|..]; }
  }

  lemma CountsSplit(s: Text, m: Text, pairs: seq<Pair>, b: nat)
    requires s != []
    ensures Hits(s, m) == (if s[0] == DOLLAR && m <= s[1..] then 1 else 0) + Hits(s[1..], m)
    ensures Uses(s, pairs, b)
            == (if s[0] == DOLLAR && FitIndex(pairs, s[1..]) == b then 1 else 0) + Uses(s[1..], pairs, b)
    ensures Dollars(s) == (if s[0] == DOLLAR then 1 else 0) + Dollars(s[1..])
  {
  }

  predicate Exceeds(s: Text, pairs: seq<Pair>, b: nat, i: nat)
    requires b < |pairs|
  {
    Hits(Simultaneous(s, pairs[..b]), pairs[b].0) >= Uses(s, pairs, b) + (if IsSpot(s, pairs, b, i) then 1 else 0)
  }

  /** When the first b pairs are done, the b-th name is found wherever it was, and at a spot as well. */
  lemma {:induction false} HitsExceedUses(s: Text, pairs: seq<Pair>, b: nat, i: nat)
    requires b < |pairs| && AreSimple(pairs) && ShrinkInLength(pairs)
    ensures Exceeds(s, pairs, b, i)
    decreases s
  {
    if s != [] {
      hide Exceeds, FitIndex, AreSimple, ShrinkInLength;
      if s[0] == DOLLAR && FitIndex(pairs, s[1..]) < b {
        var n := |pairs[FitIndex(pairs, s[1..])].0|;
        FitFits(pairs, s[1..]);
        HitsExceedUses(s[1 + n..], pairs, b, if i > n then i - 1 - n else |s|);
        ExceedsBehind(s, pairs, b, i);
      } else {
        HitsExceedUses(s[1..], pairs, b, if i > 0 then i - 1 else |s|);
        ExceedsNext(s, pairs, b, i);
      }
    }
  }

  /** The first byte is a $ that the first b pairs replace. */
  lemma ExceedsBehind(s: Text, pairs: seq<Pair>, b: nat, i: nat)
    requires b < |pairs| && AreSimple(pairs) && ShrinkInLength(pairs)
    requires s != [] && s[0] == DOLLAR && FitIndex(pairs, s[1..]) < b
    requires var n := |pairs[FitIndex(pairs, s[1..])].0|;
             n < |s| && Exceeds(s[1 + n..], pairs, b, if i > n then i - 1 - n else |s|)
    ensures Exceeds(s, pairs, b, i)
  {
    hide Simultaneous, FitIndex, IsSpot, ShrinkInLength, Hits, Uses;
    var before, m, tail := pairs[..b], pairs[b].0, s[1..];
    var f := FitIndex(pairs, tail);
    var q, rest := pairs[f], s[1 + |pairs[f].0|..];
    assert q in pairs && before[f] == q;
    FitPrefix(pairs, b, tail);
    FitFits(pairs, tail);
    assert tail == q.0 + rest;
    SimultaneousSplits(s, before, f);
    CountsSplit(s, m, pairs, b);
    CountsPlain(q.0, rest, m, pairs, b);
    CountsPlain(q.1, Simultaneous(rest, before), m, pairs, b);
    SpotNotInside(s, pairs, b, i, |q.0|);
  }

  /** The first byte stays. */
  lemma ExceedsNext(s: Text, pairs: seq<Pair>, b: nat, i: nat)
    requires b < |pairs| && AreSimple(pairs) && ShrinkInLength(pairs)
    requires s != [] && !(s[0] == DOLLAR && FitIndex(pairs, s[1..]) < b)
    requires Exceeds(s[1..], pairs, b, if i > 0 then i - 1 else |s|)
    ensures Exceeds(s, pairs, b, i)
  {
    hide Simultaneous, FitIndex, ShrinkInLength, Hits, Uses, CompletesAt;
    var before, m, tail := pairs[..b], pairs[b].0, s[1..];
    FitPrefix(pairs, b, tail);
    SimultaneousSplits(s, before, FitIndex(before, tail));
    var t := Simultaneous(tail, before);
    assert ([s[0]] + t)[1..] == t;
    CountsSplit(s, m, pairs, b);
    CountsSplit([s[0]] + t, m, pairs, b);
    if s[0] == DOLLAR && FitIndex(pairs, tail) == b {
      FitFits(pairs, tail);
      StaysWhole(tail, m, before, pairs, b);
    }
    SpotMoves(s, pairs, b, i);
    hide IsSpot, AreSimple;
    if IsSpot(s, pairs, b, 0) {
      SpotAtFront(s, pairs, b);
      SpotHit(s, pairs, b);
    }
  }

  lemma SpotAtFront(s: Text, pairs: seq<Pair>, b: nat)
    requires b < |pairs| && AreSimple(pairs) && ShrinkInLength(pairs) && IsSpot(s, pairs, b, 0)
    ensures s[0] == DOLLAR && FitIndex(pairs, s[1..]) > b
  {
    SpotUnmatched(s[1..], pairs, b);
  }

  lemma SpotMoves(s: Text, pairs: seq<Pair>, b: nat, i: nat)
    requires b < |pairs| && s != []
    ensures i > 0 ==> (IsSpot(s, pairs, b, i) <==> IsSpot(s[1..], pairs, b, i - 1))
    ensures !IsSpot(s[1..], pairs, b, |s|)
  {
    hide FitIndex, Gap, CompletesAt;
    if 0 < i < |s| {
      assert s[1..][i - 1 + 1..] == s[i + 1..];
    }
  }

  /** A name behind a $ stays while others are replaced. */
  lemma StaysWhole(tail: Text, m: Text, before: seq<Pair>, pairs: seq<Pair>, b: nat)
    requires b < |pairs| && AreSimple(pairs) && m == pairs[b].0 && m <= tail
    ensures m <= Simultaneous(tail, before)
  {
    assert pairs[b] in pairs;
    assert tail == m + tail[|m|..];
    SimultaneousPlain(m, tail[|m|..], before);
  }

  /** A spot lies beyond a placeholder that the first pairs replace. */
  lemma SpotNotInside(s: Text, pairs: seq<Pair>, b: nat, i: nat, n: nat)
    requires b < |pairs| && AreSimple(pairs) && ShrinkInLength(pairs) && s != [] && s[0] == DOLLAR
    requires FitIndex(pairs, s[1..]) < b && n == |pairs[FitIndex(pairs, s[1..])].0|
    ensures IsSpot(s, pairs, b, i) ==> i > n && IsSpot(s[1 + n..], pairs, b, i - 1 - n)
  {
    if IsSpot(s, pairs, b, i) {
      var name := pairs[FitIndex(pairs, s[1..])].0;
      assert pairs[FitIndex(pairs, s[1..])] in pairs;
      if i == 0 {
        SpotAtFront(s, pairs, b);
      } else {
        assert forall k :: 1 <= k <= n ==> s[k] == name[k - 1];
        assert s[1 + n..][i - 1 - n + 1..] == s[i + 1..];
      }
    }
  }

  // Lengths

  function Mul(a: nat, b: nat): nat {
    a * b
  }

  lemma {:induction false} PassGrows(t: Text, p: Pair)
    requires DOLLAR !in p.0
    ensures |ReplaceAll(t, p)| >= Mul(Hits(t, p.0), |p.1|)
  {
    if t != [] {
      if t[0] == DOLLAR && p.0 <= t[1..] {
        var rest := t[1 + |p.0|..];
        assert t[1..] == p.0 + rest;
        CountsPlain(p.0, rest, p.0, [], 0);
        PassGrows(rest, p);
        assert (1 + Hits(rest, p.0)) * |p.1| == |p.1| + Hits(rest, p.0) * |p.1|;
      } else {
        PassGrows(t[1..], p);
      }
    }
  }

  lemma {:induction false} PassShrinksLittle(t: Text, p: Pair, w: nat)
    requires DOLLAR !in p.0 && DOLLAR !in p.1 && |p.0| < w
    ensures |ReplaceAll(t, p)| + Mul(Dollars(t), w) >= |t|
    ensures Dollars(ReplaceAll(t, p)) <= Dollars(t)
  {
    hide Mul, ReplaceAll, Dollars;
    if t == [] {
      EmptyPass(p);
      OneMore(0, 0, w);
      NoDollarsInNothing();
    } else {
      ReplaceSplits(t, p);
      CountsSplit(t, [], [], 0);
      if t[0] == DOLLAR && p.0 <= t[1..] {
        var rest := t[1 + |p.0|..];
        assert t[1..] == p.0 + rest;
        CountsPlain(p.0, rest, [], [], 0);
        CountsPlain(p.1, ReplaceAll(rest, p), [], [], 0);
        PassShrinksLittle(rest, p, w);
        OneMore(Dollars(rest), 1 + Dollars(rest), w);
      } else {
        var r := ReplaceAll(t[1..], p);
        PassShrinksLittle(t[1..], p, w);
        assert ([t[0]] + r)[1..] == r;
        CountsSplit([t[0]] + r, [], [], 0);
        OneMore(Dollars(t[1..]), Dollars(t), w);
      }
    }
  }

  lemma NoDollarsInNothing()
    ensures Dollars([]) == 0
  {
  }

  lemma {:induction false} PassesShrinkLittle(t: Text, pairs: seq<Pair>, w: nat, d: nat)
    requires AreSimple(pairs) && (forall p :: p in pairs ==> |p.0| < w) && Dollars(t) <= d
    ensures |ReplaceEach(t, pairs)| + Mul(|pairs|, Mul(d, w)) >= |t|
    ensures Dollars(ReplaceEach(t, pairs)) <= d
    decreases |pairs|
  {
    hide ReplaceAll, Dollars, Mul;
    if pairs != [] {
      var p, rest := pairs[0], pairs[1..];
      assert p in pairs;
      PassShrinksLittle(t, p, w);
      PassesShrinkLittle(ReplaceAll(t, p), rest, w, d);
      OneMore(Dollars(t), d, w);
      OnePassMore(|rest|, Mul(d, w));
    }
  }

  lemma OneMore(dollars: nat, d: nat, w: nat)
    requires dollars <= d
    ensures Mul(dollars, w) <= Mul(d, w) && (d > dollars ==> Mul(d, w) >= Mul(dollars, w) + w)
  {
    var more := d - dollars;
    assert (dollars + more) * w == dollars * w + more * w;
    if more > 0 {
      assert more * w == w + (more - 1) * w;
    }
  }

  lemma OnePassMore(later: nat, loss: nat)
    ensures Mul(1 + later, loss) == loss + Mul(later, loss)
  {
  }

  /** All at once, each byte or placeholder makes at most w bytes, but for the b-th name. */
  lemma {:induction false} OnceGrowsLittle(s: Text, pairs: seq<Pair>, b: nat, w: nat)
    requires b < |pairs| && HaveNames(pairs) && w >= 1
    requires forall a :: 0 <= a < |pairs| && a != b ==> |pairs[a].1| <= w
    ensures |Simultaneous(s, pairs)| <= Mul(Uses(s, pairs, b), |pairs[b].1|) + Mul(|s|, w)
    decreases s
  {
    hide Simultaneous, FitIndex;
    if s == [] {
      NothingToDo(pairs);
    } else {
      var tail := s[1..];
      var f := FitIndex(pairs, tail);
      SimultaneousSplits(s, pairs, f);
      if s[0] == DOLLAR && f < |pairs| {
        var rest := s[1 + |pairs[f].0|..];
        assert pairs[f] in pairs && tail == pairs[f].0 + rest by { FitFits(pairs, tail); }
        CountsPlain(pairs[f].0, rest, [], pairs, b);
        OnceGrowsLittle(rest, pairs, b, w);
        assert (1 + Uses(rest, pairs, b)) * |pairs[b].1| == |pairs[b].1| + Uses(rest, pairs, b) * |pairs[b].1|;
        Times(1 + |rest|, |s|, w);
      } else {
        OnceGrowsLittle(tail, pairs, b, w);
        Times(1 + |tail|, |s|, w);
      }
    }
  }

  lemma FitFits(pairs: seq<Pair>, rest: Text)
    requires FitIndex(pairs, rest) < |pairs|
    ensures pairs[FitIndex(pairs, rest)].0 <= rest
  {
  }

  lemma Times(a: nat, b: nat, w: nat)
    requires 1 <= a <= b
    ensures w + (a - 1) * w == a * w <= b * w
  {
  }

  // Values that tell the two apart

  lemma {:induction false} EachConcat(s: Text, a: seq<Pair>, b: seq<Pair>)
    ensures ReplaceEach(s, a + b) == ReplaceEach(ReplaceEach(s, a), b)
    decreases |a|
  {
    if a == [] {
      assert a + b == b;
    } else {
      assert (a + b)[1..] == a[1..] + b;
      EachConcat(ReplaceAll(s, a[0]), a[1..], b);
    }
  }

  lemma {:induction false} PrefixCompleted(s: Text, pairs: seq<Pair>, b: nat, c: nat)
    requires c < b <= |pairs|
    ensures IsCompleted(s, pairs[..b], c) <==> IsCompleted(s, pairs, c)
  {
    if s != [] {
      var tail := s[1..];
      if |Gap(tail)| < |tail| {
        FitPrefix(pairs, b, tail[|Gap(tail)| + 1..]);
      }
      PrefixCompleted(tail, pairs, b, c);
    }
  }

  /** How long the value of the b-th name must be. */
  function Enough(s: Text, pairs: seq<Pair>, w: nat): nat {
    Mul(|pairs|, Mul(|s|, w)) + Mul(|s|, w) + 1
  }

  /** At the earliest name that can be completed, and with a long value for it, the passes put in too much. */
  lemma PassesPutInMore(s: Text, pairs: seq<Pair>, b: nat, i: nat, w: nat)
    requires b < |pairs| && AreSimple(pairs) && ShrinkInLength(pairs) && IsSpot(s, pairs, b, i)
    requires forall c :: 0 <= c < b ==> !IsCompleted(s, pairs, c)
    requires w >= 1 && (forall p :: p in pairs ==> |p.0| < w) && |pairs[b].1| >= Enough(s, pairs, w)
    requires forall a :: 0 <= a < |pairs| && a != b ==> |pairs[a].1| <= w
    ensures |ReplaceEach(s, pairs)| > |Simultaneous(s, pairs)|
  {
    hide AreSimple, HaveNames, ShrinkInLength, IsSpot, IsCompleted, Uses, ReplaceEach, Simultaneous, Mul;
    SimpleNames(pairs);
    var uses, each, once := Uses(s, pairs, b), |ReplaceEach(s, pairs)|, |Simultaneous(s, pairs)|;
    LowerBound(s, pairs, b, i, w);
    OnceGrowsLittle(s, pairs, b, w);
    Between(uses, |pairs[b].1|, |pairs|, Mul(|s|, w), each, once);
  }

  lemma LowerBound(s: Text, pairs: seq<Pair>, b: nat, i: nat, w: nat)
    requires b < |pairs| && AreSimple(pairs) && ShrinkInLength(pairs) && IsSpot(s, pairs, b, i)
    requires (forall c :: 0 <= c < b ==> !IsCompleted(s, pairs, c)) && forall p :: p in pairs ==> |p.0| < w
    ensures |ReplaceEach(s, pairs)| + Mul(|pairs|, Mul(|s|, w)) >= Mul(Uses(s, pairs, b) + 1, |pairs[b].1|)
  {
    hide ReplaceAll, Simultaneous, IsCompleted, IsSpot, ReplaceEach, Hits, Uses, Exceeds, AreSimple, ShrinkInLength,
         Mul;
    var t := ReplaceEach(s, pairs[..b]);
    SafeBefore(s, pairs, b);
    HitsExceedUses(s, pairs, b, i);
    MoreHits(s, pairs, b, i);
    PassGrows(t, pairs[b]);
    PassesInTurn(s, pairs, b, w);
    AtLeast(Uses(s, pairs, b), Hits(t, pairs[b].0), |pairs[b].1|, |pairs| - b - 1, |pairs|, Mul(|s|, w),
            |ReplaceEach(s, pairs)|, |ReplaceAll(t, pairs[b])|);
  }

  lemma AtLeast(uses: nat, hits: nat, long: nat, later: nat, all: nat, loss: nat, each: nat, pass: nat)
    requires hits >= uses + 1 && later <= all && pass >= Mul(hits, long) && each + Mul(later, loss) >= pass
    ensures each + Mul(all, loss) >= Mul(uses + 1, long)
  {
    assert hits * long >= (uses + 1) * long;
    assert later * loss <= all * loss;
  }

  lemma Between(uses: nat, long: nat, all: nat, loss: nat, each: nat, once: nat)
    requires long >= Mul(all, loss) + loss + 1
    requires each + Mul(all, loss) >= Mul(uses + 1, long) && once <= Mul(uses, long) + loss
    ensures each > once
  {
    assert (uses + 1) * long == uses * long + long;
  }

  /** Before the earliest name that can be completed the passes are one substitution. */
  lemma SafeBefore(s: Text, pairs: seq<Pair>, b: nat)
    requires b < |pairs| && AreSimple(pairs) && forall c :: 0 <= c < b ==> !IsCompleted(s, pairs, c)
    ensures ReplaceEach(s, pairs[..b]) == Simultaneous(s, pairs[..b])
    ensures DOLLAR !in pairs[b].0 && DOLLAR !in pairs[b].1
  {
    assert pairs[b] in pairs;
    hide ReplaceEach, Simultaneous, IsCompleted;
    forall c | 0 <= c < b ensures !IsCompleted(s, pairs[..b], c) {
      PrefixCompleted(s, pairs, b, c);
    }
    PassesMerge(s, pairs[..b]);
  }

  /** What is left of the text after the b-th pass when the others are done. */
  lemma PassesInTurn(s: Text, pairs: seq<Pair>, b: nat, w: nat)
    requires b < |pairs| && AreSimple(pairs) && forall p :: p in pairs ==> |p.0| < w
    ensures |ReplaceEach(s, pairs)| + Mul(|pairs| - b - 1, Mul(|s|, w))
            >= |ReplaceAll(ReplaceEach(s, pairs[..b]), pairs[b])|
  {
    hide ReplaceAll, ReplaceEach, Dollars;
    var before, p, after := pairs[..b], pairs[b], pairs[b + 1..];
    assert pairs == before + ([p] + after) && p in pairs;
    EachConcat(s, before, [p] + after);
    var t := ReplaceEach(s, before);
    FirstPass(t, p, after);
    DollarsAreFew(s);
    PassesShrinkLittle(s, before, w, |s|);
    PassShrinksLittle(t, p, w);
    PassesShrinkLittle(ReplaceAll(t, p), after, w, |s|);
  }

  lemma MoreHits(s: Text, pairs: seq<Pair>, b: nat, i: nat)
    requires b < |pairs| && Exceeds(s, pairs, b, i) && IsSpot(s, pairs, b, i)
    ensures Hits(Simultaneous(s, pairs[..b]), pairs[b].0) >= Uses(s, pairs, b) + 1
  {
  }

  lemma FirstPass(t: Text, p: Pair, after: seq<Pair>)
    ensures ReplaceEach(t, [p] + after) == ReplaceEach(ReplaceAll(t, p), after)
  {
    assert ([p] + after)[1..] == after;
  }

  lemma {:induction false} DollarsAreFew(s: Text)
    ensures Dollars(s) <= |s|
  {
    if s != [] {
      DollarsAreFew(s[1..]);
    }
  }

  // The exact condition

  ghost predicate NoDollars(variables: map<Text, Text>) {
    forall name :: name in variables ==> DOLLAR !in variables[name]
  }

  ghost predicate Agree(s: Text, variables: map<Text, Text>) {
    forall pairs :: ArePairsOf(pairs, variables) ==> ReplaceEach(s, pairs) == Substitute(s, variables)
  }

  lemma Simple(pairs: seq<Pair>, variables: map<Text, Text>)
    requires ArePairsOf(pairs, variables) && NoDollars(variables)
    requires forall name :: name in variables ==> name != [] && DOLLAR !in name
    ensures AreSimple(pairs) && ShrinkInLength(pairs)
  {
    var names := NamesOf(pairs);
    forall a, b | 0 <= a < b < |pairs| ensures |pairs[a].0| >= |pairs[b].0| {
      assert Before(names[a], names[b]);
    }
  }

  lemma {:induction false} Earliest(s: Text, pairs: seq<Pair>, b: nat) returns (c: nat)
    requires b < |pairs| && IsCompleted(s, pairs, b)
    ensures c < |pairs| && IsCompleted(s, pairs, c)
    ensures forall a :: 0 <= a < c ==> !IsCompleted(s, pairs, a)
    decreases b
  {
    if a :| 0 <= a < b && IsCompleted(s, pairs, a) {
      c := Earliest(s, pairs, a);
    } else {
      c := b;
    }
  }

  /** The pairs of the same names with other values. */
  ghost function WithValues(pairs: seq<Pair>, variables: map<Text, Text>): (valued: seq<Pair>)
    requires forall p :: p in pairs ==> p.0 in variables
    ensures |valued| == |pairs|
    ensures forall k :: 0 <= k < |pairs| ==> valued[k] == (pairs[k].0, variables[pairs[k].0])
  {
    seq(|pairs|, k requires 0 <= k < |pairs| => (pairs[k].0, variables[pairs[k].0]))
  }

  lemma FitByNames(p1: seq<Pair>, p2: seq<Pair>, rest: Text)
    requires |p1| == |p2| && forall k :: 0 <= k < |p1| ==> p1[k].0 == p2[k].0
    ensures FitIndex(p1, rest) == FitIndex(p2, rest)
  {
  }

  lemma {:induction false} CompletedByNames(s: Text, p1: seq<Pair>, p2: seq<Pair>, b: nat)
    requires |p1| == |p2| && (forall k :: 0 <= k < |p1| ==> p1[k].0 == p2[k].0) && b < |p1|
    ensures IsCompleted(s, p1, b) <==> IsCompleted(s, p2, b)
  {
    if s != [] {
      var tail := s[1..];
      if |Gap(tail)| < |tail| {
        FitByNames(p1, p2, tail[|Gap(tail)| + 1..]);
      }
      CompletedByNames(tail, p1, p2, b);
    }
  }

  /** A long value for m, the missing end of m for the name that completes it, nothing for the others. */
  function Telling(names: set<Text>, m: Text, n1: Text, end: Text, long: nat): map<Text, Text> {
    map name | name in names :: if name == m then Repeated(LETTER, long) else if name == n1 then end else []
  }

  /** Where a name can be completed, some values show it. */
  lemma TellingValues(s: Text, names: set<Text>, i: int, j: int, m: Text) returns (variables: map<Text, Text>)
    requires forall name :: name in names ==> name != [] && DOLLAR !in name
    requires Completes(names, s, i, j, m)
    ensures variables.Keys == names && NoDollars(variables) && !Agree(s, variables)
  {
    hide IsCompleted, CompletesAt, ShrinkInLength;
    var blank := map name | name in names :: [];
    assert blank.Keys == names;
    var order := PairsExist(blank);
    Simple(order, blank);
    assert m in ElementsOf(NamesOf(order));
    var k :| 0 <= k < |order| && NamesOf(order)[k] == m;
    SpotIsCompletion(s, order, blank, i, k);
    CompletedHere(s, order, k, i);
    var b := Earliest(s, order, k);
    var at := CompletedSomewhere(s, order, b);
    variables := ValuesFor(s, order, blank, b, at);
  }

  /** Those values, from the earliest name that can be completed and a $ where it can. */
  lemma ValuesFor(s: Text, order: seq<Pair>, blank: map<Text, Text>, b: nat, at: nat)
    returns (variables: map<Text, Text>)
    requires ArePairsOf(order, blank) && AreSimple(order) && ShrinkInLength(order)
    requires b < |order| && (forall c :: 0 <= c < b ==> !IsCompleted(s, order, c))
    requires at < |s| && s[at] == DOLLAR && CompletesAt(s[at + 1..], order, b)
    ensures variables.Keys == blank.Keys && NoDollars(variables) && !Agree(s, variables)
  {
    hide FitIndex, IsCompleted, Gap, Enough, IsSpot, CompletesAt, ShrinkInLength, Telling;
    var g, a := GapAt(s, order, b, at);
    var m, n1 := order[b].0, order[a].0;
    var w := 1 + |order[0].0|;
    var end, long := m[|g|..], Enough(s, order, w);
    LongestFirst(order, b);
    assert order[b] in order;
    variables := Telling(blank.Keys, m, n1, end, long);
    assert order[a].0 in blank;
    Told(order, blank, a, b, end, long);
    var pairs := WithValues(order, variables);
    Retold(order, blank, pairs, variables);
    Revalued(order, pairs);
    SpotByNames(s, order, pairs, b, at);
    forall c | 0 <= c < b ensures !IsCompleted(s, pairs, c) {
      CompletedByNames(s, order, pairs, c);
    }
    EnoughByLength(s, order, pairs, w);
    NotAgreed(s, pairs, variables, b, at, w);
  }

  lemma GapAt(s: Text, order: seq<Pair>, b: nat, at: nat) returns (g: Text, a: nat)
    requires b < |order| && at < |s| && CompletesAt(s[at + 1..], order, b)
    ensures var tail := s[at + 1..];
            g == Gap(tail) && |g| < |tail| && a == FitIndex(order, tail[|g| + 1..]) && a < b && g < order[b].0
  {
    hide FitIndex, Gap;
    g := Gap(s[at + 1..]);
    a := FitIndex(order, s[at + 1..][|g| + 1..]);
  }

  lemma LongestFirst(order: seq<Pair>, b: nat)
    requires ShrinkInLength(order) && b < |order|
    ensures |order[b].0| <= |order[0].0|
  {
  }

  lemma EnoughByLength(s: Text, p1: seq<Pair>, p2: seq<Pair>, w: nat)
    requires |p1| == |p2|
    ensures Enough(s, p1, w) == Enough(s, p2, w)
  {
  }

  /** The values, pair by pair. */
  lemma Told(order: seq<Pair>, blank: map<Text, Text>, a: nat, b: nat, end: Text, long: nat)
    requires ArePairsOf(order, blank) && a < b < |order| && DOLLAR !in end
    ensures var variables := Telling(blank.Keys, order[b].0, order[a].0, end, long);
            && variables.Keys == blank.Keys && NoDollars(variables)
            && (forall p :: p in order ==> p.0 in variables)
            && |variables[order[b].0]| == long && variables[order[a].0] == end
            && forall c :: 0 <= c < |order| && c != b ==> |variables[order[c].0]| <= |end|
  {
    Distinct(order, b);
    assert order[a].0 in blank && order[b].0 in blank;
  }

  lemma SpotByNames(s: Text, order: seq<Pair>, pairs: seq<Pair>, b: nat, at: nat)
    requires |pairs| == |order| && b < |order| && forall k :: 0 <= k < |order| ==> pairs[k].0 == order[k].0
    requires at < |s| && s[at] == DOLLAR && CompletesAt(s[at + 1..], order, b)
    requires var tail := s[at + 1..];
             pairs[FitIndex(order, tail[|Gap(tail)| + 1..])].1 == order[b].0[|Gap(tail)|..]
    ensures IsSpot(s, pairs, b, at)
  {
    hide FitIndex, Gap;
    var tail := s[at + 1..];
    FitByNames(order, pairs, tail[|Gap(tail)| + 1..]);
  }

  lemma Distinct(order: seq<Pair>, b: nat)
    requires Sorted(NamesOf(order)) && b < |order|
    ensures forall c :: 0 <= c < |order| && c != b ==> order[c].0 != order[b].0
  {
    var names := NamesOf(order);
    forall c | 0 <= c < |order| && c != b ensures order[c].0 != order[b].0 {
      BeforeIsStrictOrder(names[c], names[b], names[c]);
      assert if c < b then Before(names[c], names[b]) else Before(names[b], names[c]);
    }
  }

  lemma Revalued(order: seq<Pair>, pairs: seq<Pair>)
    requires AreSimple(order) && ShrinkInLength(order) && |pairs| == |order|
    requires forall k :: 0 <= k < |order| ==> pairs[k].0 == order[k].0 && DOLLAR !in pairs[k].1
    ensures AreSimple(pairs) && ShrinkInLength(pairs)
  {
    forall p | p in pairs ensures p.0 != [] && DOLLAR !in p.0 && DOLLAR !in p.1 {
      var k :| 0 <= k < |pairs| && pairs[k] == p;
      assert order[k] in order;
    }
  }

  lemma NotAgreed(s: Text, pairs: seq<Pair>, variables: map<Text, Text>, b: nat, i: nat, w: nat)
    requires ArePairsOf(pairs, variables) && AreSimple(pairs) && ShrinkInLength(pairs)
    requires b < |pairs| && IsSpot(s, pairs, b, i) && forall c :: 0 <= c < b ==> !IsCompleted(s, pairs, c)
    requires w == 1 + |pairs[0].0| && |pairs[b].1| >= Enough(s, pairs, w)
    requires forall a :: 0 <= a < |pairs| && a != b ==> |pairs[a].1| <= w
    ensures !Agree(s, variables)
  {
    hide IsSpot, IsCompleted, Enough, AreSimple, HaveNames;
    SimpleNames(pairs);
    forall p | p in pairs ensures |p.0| < w {
      var k :| 0 <= k < |pairs| && pairs[k] == p;
    }
    PassesPutInMore(s, pairs, b, i, w);
    SimultaneousIsSubstitute(s, pairs, variables);
  }

  lemma Retold(order: seq<Pair>, blank: map<Text, Text>, pairs: seq<Pair>, variables: map<Text, Text>)
    requires ArePairsOf(order, blank) && variables.Keys == blank.Keys
    requires |pairs| == |order|
    requires forall k :: 0 <= k < |order| ==> pairs[k].0 == order[k].0 && pairs[k].1 == variables[order[k].0]
    ensures ArePairsOf(pairs, variables)
  {
    assert NamesOf(pairs) == NamesOf(order);
  }

  lemma {:induction false} PairsExist(variables: map<Text, Text>) returns (pairs: seq<Pair>)
    ensures ArePairsOf(pairs, variables)
  {
    var names := SortedListOf(variables.Keys);
    assert forall n :: n in names <==> n in ElementsOf(names);
    pairs := seq(|names|, i requires 0 <= i < |names| => (names[i], variables[names[i]]));
    assert NamesOf(pairs) == names;
  }

  /**
   * For names that are not empty and hold no $: replacing the variables one after the other is substituting
   * them all at once, for all values without $, exactly when no name can be completed in the text.
   */
  lemma {:induction false} SequentialExactly(s: Text, names: set<Text>)
    requires forall name :: name in names ==> name != [] && DOLLAR !in name
    ensures (forall variables: map<Text, Text> ::
               variables.Keys == names && NoDollars(variables) ==> Agree(s, variables))
            <==> forall i, j, m :: !Completes(names, s, i, j, m)
  {
    if i, j, m :| Completes(names, s, i, j, m) {
      var variables := TellingValues(s, names, i, j, m);
      assert !Agree(s, variables);
    } else {
      forall variables: map<Text, Text> | variables.Keys == names && NoDollars(variables) ensures Agree(s, variables) {
        forall pairs | ArePairsOf(pairs, variables) ensures ReplaceEach(s, pairs) == Substitute(s, variables) {
          Simple(pairs, variables);
          SafeWithoutCompletion(s, pairs, variables);
          PassesMerge(s, pairs);
          SimultaneousIsSubstitute(s, pairs, variables);
        }
      }
    }
  }

  // A condition that does not depend on the order of the names

  /** b is in no name. */
  ghost predicate IsBarrier(pairs: seq<Pair>, b: byte) {
    forall p :: p in pairs ==> b !in p.0
  }

  /** A barrier comes before the next $, or there is no other $. */
  ghost predicate IsClear(pairs: seq<Pair>, s: Text) {
    s == [] || (s[0] != DOLLAR && (IsBarrier(pairs, s[0]) || IsClear(pairs, s[1..])))
  }

  /** Between any $ and the next one there is a byte that is in no name. */
  ghost predicate IsGuarded(pairs: seq<Pair>, s: Text) {
    s == [] || ((s[0] == DOLLAR ==> IsClear(pairs, s[1..])) && IsGuarded(pairs, s[1..]))
  }

  lemma {:induction false} BarrierInGap(pairs: seq<Pair>, tail: Text) returns (b: byte)
    requires IsClear(pairs, tail) && |Gap(tail)| < |tail|
    ensures b in Gap(tail) && IsBarrier(pairs, b)
  {
    b := tail[0];
    assert tail[0] == Gap(tail)[0];
    if !IsBarrier(pairs, b) {
      b := BarrierInGap(pairs, tail[1..]);
    }
  }

  lemma PrefixMembers(g: Text, m: Text)
    ensures g <= m ==> forall b :: b in g ==> b in m
  {
    if g <= m {
      forall b | b in g ensures b in m {
        var k :| 0 <= k < |g| && g[k] == b;
        assert m[k] == b;
      }
    }
  }

  lemma {:induction false} GuardedIsSafe(s: Text, pairs: seq<Pair>)
    requires IsGuarded(pairs, s)
    ensures IsSafe(s, pairs)
  {
    if s != [] {
      GuardedIsSafe(s[1..], pairs);
      if s[0] == DOLLAR {
        forall b | 0 <= b < |pairs| ensures !CompletesAt(s[1..], pairs, b) {
          assert pairs[b] in pairs;
          if |Gap(s[1..])| < |s[1..]| {
            var x := BarrierInGap(pairs, s[1..]);
            PrefixMembers(Gap(s[1..]), pairs[b].0);
          }
        }
      }
      SafeSplits(s, pairs);
    }
  }

  /**
   * Replacing the variables one after the other, longest name first, is substituting them all at once,
   * each $ by the longest name after it, when the names are non-empty, no name or value holds a $, and
   * between any $ and the next one there is a byte that occurs in no name.
   */
  lemma SequentialIsSimultaneous(s: Text, pairs: seq<Pair>, variables: map<Text, Text>)
    requires ArePairsOf(pairs, variables) && AreSimple(pairs) && IsGuarded(pairs, s)
    ensures ReplaceEach(s, pairs) == Substitute(s, variables)
  {
    GuardedIsSafe(s, pairs);
    PassesMerge(s, pairs);
    SimultaneousIsSubstitute(s, pairs, variables);
  }

  // Why the conditions are there

  /** A value with a $ is read again: with ab = "$c" and c = "X", "$ab" becomes "X", not "$c". */
  lemma ValueIsReadAgain()
    ensures var pairs: seq<Pair> := [([97, 98], [DOLLAR, 99]), ([99], [88])];
            ReplaceEach([DOLLAR, 97, 98], pairs) == [88]
            && Simultaneous([DOLLAR, 97, 98], pairs) == [DOLLAR, 99]
  {
    var p: Pair, q: Pair := ([97, 98], [DOLLAR, 99]), ([99], [88]);
    var s: Text := [DOLLAR, 97, 98];
    assert s[1..] == p.0 && s[3..] == [];
    assert ReplaceAll(s, p) == p.1 + [] == [DOLLAR, 99];
    var s': Text := [DOLLAR, 99];
    assert s'[1..] == q.0 && s'[2..] == [];
    assert ReplaceAll(s', q) == [88] + [] == [88];
    assert [p, q][1..] == [q] && [q][1..] == [];
    assert ReplaceEach(s, [p, q]) == ReplaceEach(s', [q]) == ReplaceEach([88], []);
    assert FirstFit([p, q], s[1..]) == Some(p);
  }

  /** A value may complete an earlier name: with cde = "b" and ab = "X", "$a$cde" becomes "X", not "$ab". */
  lemma ValueCompletesName()
    ensures var pairs: seq<Pair> := [([99, 100, 101], [98]), ([97, 98], [88])];
            ReplaceEach([DOLLAR, 97, DOLLAR, 99, 100, 101], pairs) == [88]
            && Simultaneous([DOLLAR, 97, DOLLAR, 99, 100, 101], pairs) == [DOLLAR, 97, 98]
  {
    var p: Pair, q: Pair := ([99, 100, 101], [98]), ([97, 98], [88]);
    var s: Text := [DOLLAR, 97, DOLLAR, 99, 100, 101];
    var end: Text := [DOLLAR, 99, 100, 101];
    assert s[1..][1..] == end && end[1..] == p.0 && end[4..] == [];
    assert s[1..] == [97] + end;
    assert !(p.0 <= s[1..]) && !(q.0 <= s[1..]) by {
      assert s[1..][0] == 97 && s[1..][1] == DOLLAR;
    }
    assert ReplaceAll(end, p) == [98] + [] == [98];
    assert ReplaceAll(s[1..], p) == [97] + [98] == [97, 98];
    var s': Text := [DOLLAR, 97, 98];
    assert ReplaceAll(s, p) == [DOLLAR] + [97, 98] == s';
    assert s'[1..] == q.0 && s'[3..] == [];
    assert ReplaceAll(s', q) == [88] + [] == [88];
    assert [p, q][1..] == [q] && [q][1..] == [];
    assert ReplaceEach(s, [p, q]) == ReplaceEach(s', [q]) == ReplaceEach([88], []);
    assert FirstFit([p, q], s[1..]) == FirstFit([q], s[1..]) == FirstFit([], s[1..]) == None;
    assert FirstFit([p, q], end[1..]) == Some(p);
    assert Simultaneous(end, [p, q]) == [98] + Simultaneous([], [p, q]) == [98];
    assert Simultaneous(s[1..], [p, q]) == [97] + [98];
    assert Simultaneous(s, [p, q]) == [DOLLAR] + ([97] + [98]);
  }
}
