/**
 * The passes of a webhook rule for values of any kind (model/webhook.go): a value may hold a $, which the later
 * passes read again. The exact texts on which they are one substitution even then.
 */
module SubstitutionAll {
  import opened Bytes
  import opened Names
  import opened Substitution
  import opened SubstitutionLaws
  import opened SubstitutionExact

  /** The placeholder at s[i], if there is one, is that of the name that is tried last. */
  ghost predicate IsLastOrNone(names: set<Text>, s: Text, i: nat)
    requires i < |s|
  {
    var name := Longest(names, s[i + 1..]);
    name == [] || forall m :: m in names && m != name ==> Before(m, name)
  }

  /** Only the name tried last is ever replaced in s. */
  ghost predicate OnlyLast(names: set<Text>, s: Text) {
    forall i :: 0 <= i < |s| && s[i] == DOLLAR ==> IsLastOrNone(names, s, i)
  }

  // The same, pair by pair

  /** No pair but the last fits after any $ of s. */
  ghost predicate EarlierFitNowhere(s: Text, pairs: seq<Pair>) {
    forall i :: 0 <= i < |s| && s[i] == DOLLAR ==> FitIndex(pairs, s[i + 1..]) + 1 >= |pairs|
  }

  /** All other names come before the last of the pairs, and only before that one. */
  lemma BeforeTheLast(pairs: seq<Pair>, variables: map<Text, Text>, a: nat)
    requires ArePairsOf(pairs, variables) && a < |pairs|
    ensures (forall m :: m in variables && m != pairs[a].0 ==> Before(m, pairs[a].0)) <==> a + 1 == |pairs|
  {
    hide Before;
    var names := NamesOf(pairs);
    if a + 1 < |pairs| {
      assert names[a + 1] in ElementsOf(names) && Before(names[a], names[a + 1]);
      BeforeIsStrictOrder(names[a], names[a + 1], names[a]);
    } else {
      forall m | m in variables && m != names[a] ensures Before(m, names[a]) {
        assert m in ElementsOf(names);
        var k :| 0 <= k < |names| && names[k] == m;
      }
    }
  }

  lemma LastIsLast(pairs: seq<Pair>, variables: map<Text, Text>, s: Text, i: nat)
    requires ArePairsOf(pairs, variables) && HaveNames(pairs) && i < |s|
    ensures IsLastOrNone(variables.Keys, s, i) <==> FitIndex(pairs, s[i + 1..]) + 1 >= |pairs|
  {
    hide FitIndex, Longest, Before, HaveNames, ArePairsOf;
    var a := FitIndex(pairs, s[i + 1..]);
    FirstFitIsLongest(pairs, variables, s[i + 1..]);
    if a < |pairs| {
      NotEmpty(pairs, a);
      BeforeTheLast(pairs, variables, a);
    }
  }

  lemma OnlyLastByPairs(pairs: seq<Pair>, variables: map<Text, Text>, s: Text)
    requires ArePairsOf(pairs, variables) && HaveNames(pairs)
    ensures OnlyLast(variables.Keys, s) <==> EarlierFitNowhere(s, pairs)
  {
    hide IsLastOrNone, FitIndex, ArePairsOf, HaveNames;
    forall i | 0 <= i < |s|
      ensures IsLastOrNone(variables.Keys, s, i) <==> FitIndex(pairs, s[i + 1..]) + 1 >= |pairs|
    {
      LastIsLast(pairs, variables, s, i);
    }
  }

  // Where only the last name is replaced

  lemma NowhereSplits(s: Text, pairs: seq<Pair>)
    requires s != []
    ensures EarlierFitNowhere(s, pairs) <==>
            (s[0] == DOLLAR ==> FitIndex(pairs, s[1..]) + 1 >= |pairs|) && EarlierFitNowhere(s[1..], pairs)
  {
    hide FitIndex;
    var tail := s[1..];
    assert forall i :: 0 <= i < |tail| ==> tail[i] == s[i + 1] && tail[i + 1..] == s[i + 1 + 1..];
    if EarlierFitNowhere(s, pairs) {
      assert s[0 + 1..] == tail;
      forall i | 0 <= i < |tail| && tail[i] == DOLLAR ensures FitIndex(pairs, tail[i + 1..]) + 1 >= |pairs| {
        assert s[i + 1] == DOLLAR;
      }
    }
    if (s[0] == DOLLAR ==> FitIndex(pairs, tail) + 1 >= |pairs|) && EarlierFitNowhere(tail, pairs) {
      forall i | 0 <= i < |s| && s[i] == DOLLAR ensures FitIndex(pairs, s[i + 1..]) + 1 >= |pairs| {
        if i > 0 {
          assert tail[i - 1] == DOLLAR && tail[i - 1 + 1..] == s[i + 1..];
        }
      }
    }
  }

  /** The first of several passes finds nothing, and may as well be left out. */
  lemma {:induction false} FirstFindsNothing(s: Text, pairs: seq<Pair>)
    requires |pairs| >= 2 && EarlierFitNowhere(s, pairs)
    ensures ReplaceAll(s, pairs[0]) == s && Simultaneous(s, pairs) == Simultaneous(s, pairs[1..])
    ensures EarlierFitNowhere(s, pairs[1..])
    decreases s
  {
    hide FitIndex, ReplaceAll, Simultaneous;
    if s == [] {
      EmptyPass(pairs[0]);
      NothingToDo(pairs);
      NothingToDo(pairs[1..]);
    } else {
      var tail := s[1..];
      NowhereSplits(s, pairs);
      FirstFindsNothing(tail, pairs);
      FitPeels(pairs, tail);
      ReplaceSplits(s, pairs[0]);
      assert [s[0]] + tail == s;
      SimultaneousSplits(s, pairs, FitIndex(pairs, tail));
      SimultaneousSplits(s, pairs[1..], FitIndex(pairs[1..], tail));
      if s[0] == DOLLAR && FitIndex(pairs, tail) < |pairs| {
        LastAlone(s, pairs);
      }
      NowhereForRest(s, pairs);
    }
  }

  /** What follows a placeholder of the last name. */
  lemma LastAlone(s: Text, pairs: seq<Pair>)
    requires |pairs| >= 2 && EarlierFitNowhere(s, pairs) && s != [] && s[0] == DOLLAR
    requires FitIndex(pairs, s[1..]) == |pairs| - 1
    ensures var after := s[1 + |pairs[|pairs| - 1].0|..];
            Simultaneous(after, pairs) == Simultaneous(after, pairs[1..])
    decreases s, 0
  {
    hide FitIndex, ReplaceAll, Simultaneous;
    FitFits(pairs, s[1..]);
    var n := 1 + |pairs[|pairs| - 1].0|;
    forall i | 0 <= i < |s[n..]| && s[n..][i] == DOLLAR ensures FitIndex(pairs, s[n..][i + 1..]) + 1 >= |pairs| {
      assert s[n..][i + 1..] == s[n + i + 1..] && s[n + i] == DOLLAR;
    }
    FirstFindsNothing(s[n..], pairs);
  }

  lemma NowhereForRest(s: Text, pairs: seq<Pair>)
    requires |pairs| >= 2 && EarlierFitNowhere(s, pairs)
    ensures EarlierFitNowhere(s, pairs[1..])
  {
    hide FitIndex;
    forall i | 0 <= i < |s| && s[i] == DOLLAR ensures FitIndex(pairs[1..], s[i + 1..]) + 1 >= |pairs[1..]| {
      FitPeels(pairs, s[i + 1..]);
    }
  }

  /** One variable is one pass. */
  lemma {:induction false} SinglePass(s: Text, p: Pair)
    ensures Simultaneous(s, [p]) == ReplaceAll(s, p)
    decreases s
  {
    hide FitIndex, ReplaceAll, Simultaneous;
    if s == [] {
      EmptyPass(p);
      NothingToDo([p]);
    } else {
      FitPeels([p], s[1..]);
      ReplaceSplits(s, p);
      SimultaneousSplits(s, [p], FitIndex([p], s[1..]));
      SinglePass(s[1..], p);
      if p.0 <= s[1..] {
        SinglePass(s[1 + |p.0|..], p);
      }
    }
  }

  lemma {:induction false} LastPassIsAll(s: Text, pairs: seq<Pair>)
    requires EarlierFitNowhere(s, pairs)
    ensures ReplaceEach(s, pairs) == Simultaneous(s, pairs)
    decreases |pairs|
  {
    hide FitIndex, ReplaceAll, Simultaneous;
    if pairs == [] {
      NoPairs(s);
    } else if |pairs| == 1 {
      SinglePass(s, pairs[0]);
      assert pairs == [pairs[0]] && pairs[1..] == [];
    } else {
      FirstFindsNothing(s, pairs);
      LastPassIsAll(s, pairs[1..]);
    }
  }

  // Values that tell the two apart on any other text

  /** How many $ of s some pair fits after. */
  function Fits(s: Text, pairs: seq<Pair>): nat {
    if s == [] then 0
    else (if s[0] == DOLLAR && FitIndex(pairs, s[1..]) < |pairs| then 1 else 0) + Fits(s[1..], pairs)
  }

  lemma FitsSplit(s: Text, pairs: seq<Pair>)
    requires s != []
    ensures Fits(s, pairs)
            == (if s[0] == DOLLAR && FitIndex(pairs, s[1..]) < |pairs| then 1 else 0) + Fits(s[1..], pairs)
  {
  }

  lemma {:induction false} FitsPlain(v: Text, s: Text, pairs: seq<Pair>)
    requires DOLLAR !in v
    ensures Fits(v + s, pairs) == Fits(s, pairs)
  {
    hide FitIndex;
    if v == [] {
      assert v + s == s;
    } else {
      assert (v + s)[0] == v[0] && (v + s)[1..] == v[1..] + s;
      FitsPlain(v[1..], s, pairs);
    }
  }

  lemma FitsIf(pairs: seq<Pair>, k: nat, rest: Text)
    requires k < |pairs| && pairs[k].0 <= rest
    ensures FitIndex(pairs, rest) <= k
  {
  }

  /** The value that calls for the last name. */
  ghost predicate CallLast(pairs: seq<Pair>) {
    pairs != [] && forall a :: 0 <= a < |pairs| - 1 ==> pairs[a].1 == [DOLLAR] + pairs[|pairs| - 1].0
  }

  /** A pass puts a placeholder of the last name where it finds its own, and leaves the others. */
  lemma {:induction false} PassKeepsFits(t: Text, pairs: seq<Pair>)
    requires |pairs| >= 2 && HaveNames(pairs) && CallLast(pairs)
    ensures Fits(ReplaceAll(t, pairs[0]), pairs[1..]) >= Fits(t, pairs)
    decreases t
  {
    hide FitIndex, ReplaceAll, Fits, HaveNames;
    var p, rest := pairs[0], pairs[1..];
    if t == [] {
      EmptyPass(p);
      NoFits(pairs);
    } else {
      var tail := t[1..];
      ReplaceSplits(t, p);
      FitsSplit(t, pairs);
      if t[0] == DOLLAR && p.0 <= tail {
        PassKeepsFits(t[1 + |p.0|..], pairs);
        FoundIsCalled(t, pairs);
      } else {
        PassKeepsFits(tail, pairs);
        var r := ReplaceAll(tail, p);
        assert ([t[0]] + r)[1..] == r;
        FitsSplit([t[0]] + r, rest);
        if t[0] == DOLLAR && FitIndex(pairs, tail) < |pairs| {
          OthersStayFit(tail, pairs);
        }
      }
    }
  }

  lemma NoFits(pairs: seq<Pair>)
    ensures Fits([], pairs) == 0
  {
  }

  lemma FoundIsCalled(t: Text, pairs: seq<Pair>)
    requires |pairs| >= 2 && HaveNames(pairs) && CallLast(pairs)
    requires t != [] && t[0] == DOLLAR && pairs[0].0 <= t[1..]
    ensures var after := t[1 + |pairs[0].0|..];
            && Fits(t, pairs) <= 1 + Fits(after, pairs)
            && Fits(ReplaceAll(t, pairs[0]), pairs[1..]) == 1 + Fits(ReplaceAll(after, pairs[0]), pairs[1..])
  {
    hide FitIndex, ReplaceAll, Fits;
    var p, rest, last := pairs[0], pairs[1..], pairs[|pairs| - 1].0;
    var after := t[1 + |p.0|..];
    assert pairs[|pairs| - 1] in pairs && p in pairs;
    ReplaceSplits(t, p);
    FitsSplit(t, pairs);
    assert t[1..] == p.0 + after;
    FitsPlain(p.0, after, pairs);
    var r := ReplaceAll(after, p);
    var s := [DOLLAR] + last + r;
    assert p.1 + r == s && s[1..] == last + r;
    FitsSplit(s, rest);
    FitsIf(rest, |rest| - 1, last + r);
    FitsPlain(last, r, rest);
  }

  lemma OthersStayFit(tail: Text, pairs: seq<Pair>)
    requires pairs != [] && HaveNames(pairs) && !(pairs[0].0 <= tail) && FitIndex(pairs, tail) < |pairs|
    ensures FitIndex(pairs[1..], ReplaceAll(tail, pairs[0])) < |pairs[1..]|
  {
    hide FitIndex, ReplaceAll;
    FitPeels(pairs, tail);
    FitFits(pairs, tail);
    var k := FitIndex(pairs[1..], tail);
    var name := pairs[1..][k].0;
    FitFits(pairs[1..], tail);
    assert pairs[1..][k] == pairs[k + 1] && pairs[k + 1] in pairs;
    assert tail == name + tail[|name|..];
    ReplacePlain(name, tail[|name|..], pairs[0]);
    FitsIf(pairs[1..], k, ReplaceAll(tail, pairs[0]));
  }

  lemma {:induction false} PassesKeepFits(t: Text, pairs: seq<Pair>)
    requires HaveNames(pairs) && CallLast(pairs)
    ensures var n := |pairs| - 1; Fits(ReplaceEach(t, pairs[..n]), [pairs[n]]) >= Fits(t, pairs)
    decreases |pairs|
  {
    hide FitIndex, ReplaceAll, Fits;
    var n := |pairs| - 1;
    if n == 0 {
      assert pairs == [pairs[0]] && pairs[..0] == [];
    } else {
      var rest := pairs[1..];
      PassKeepsFits(t, pairs);
      assert forall p :: p in rest ==> p in pairs;
      PassesKeepFits(ReplaceAll(t, pairs[0]), rest);
      assert pairs[..n][1..] == rest[..n - 1] && rest[n - 1] == pairs[n];
    }
  }

  lemma {:induction false} FitsAreHits(t: Text, p: Pair)
    ensures Hits(t, p.0) == Fits(t, [p])
  {
    if t != [] {
      FitPeels([p], t[1..]);
      FitsAreHits(t[1..], p);
    }
  }

  /** One $ after which an earlier name fits makes a difference. */
  lemma {:induction false} FitsExceedUses(s: Text, pairs: seq<Pair>)
    requires pairs != []
    ensures Fits(s, pairs) >= Uses(s, pairs, |pairs| - 1) + (if EarlierFitNowhere(s, pairs) then 0 else 1)
  {
    if s != [] {
      hide FitIndex, EarlierFitNowhere;
      FitsExceedUses(s[1..], pairs);
      NowhereSplits(s, pairs);
    }
  }

  /** With such values, and a long one for the last name, the passes put in too much. */
  lemma PassesCallMore(s: Text, pairs: seq<Pair>, w: nat)
    requires HaveNames(pairs) && CallLast(pairs) && !EarlierFitNowhere(s, pairs) && w >= 1
    requires forall a :: 0 <= a < |pairs| - 1 ==> |pairs[a].1| <= w
    requires |pairs[|pairs| - 1].1| > Mul(|s|, w)
    ensures |ReplaceEach(s, pairs)| > |Simultaneous(s, pairs)|
  {
    hide FitIndex, ReplaceAll, ReplaceEach, Simultaneous, Fits, Hits, Uses, EarlierFitNowhere, Mul;
    var n := |pairs| - 1;
    var p := pairs[n];
    var t := ReplaceEach(s, pairs[..n]);
    assert pairs == pairs[..n] + ([p] + []) && p in pairs;
    EachConcat(s, pairs[..n], [p] + []);
    FirstPass(t, p, []);
    NoPasses(ReplaceAll(t, p));
    PassesKeepFits(s, pairs);
    FitsAreHits(t, p);
    FitsExceedUses(s, pairs);
    PassGrows(t, p);
    OnceGrowsLittle(s, pairs, n, w);
    MoreCalls(Uses(s, pairs, n), Hits(t, p.0), |p.1|, Mul(|s|, w));
  }

  lemma NoPasses(s: Text)
    ensures ReplaceEach(s, []) == s
  {
  }

  lemma MoreCalls(uses: nat, hits: nat, long: nat, loss: nat)
    requires hits >= uses + 1 && long > loss
    ensures Mul(hits, long) > Mul(uses, long) + loss
  {
    assert hits * long >= (uses + 1) * long == uses * long + long;
  }

  /** A long value for the last name, and for every other name a $ with the last name. */
  function Calling(names: set<Text>, last: Text, long: nat): map<Text, Text> {
    map name | name in names :: if name == last then Repeated(LETTER, long) else [DOLLAR] + last
  }

  lemma CallingKeys(names: set<Text>, last: Text, long: nat)
    ensures Calling(names, last, long).Keys == names
  {
  }

  lemma CallingValues(s: Text, names: set<Text>) returns (variables: map<Text, Text>)
    requires forall name :: name in names ==> name != [] && DOLLAR !in name
    requires !OnlyLast(names, s)
    ensures variables.Keys == names && !Agree(s, variables)
  {
    hide OnlyLast, EarlierFitNowhere, Mul, CallLast, Calling;
    var blank := map name | name in names :: [];
    assert blank.Keys == names;
    var order := PairsExist(blank);
    Simple(order, blank);
    OnlyLastByPairs(order, blank, s);
    NotNowhere(s, order);
    var n := |order| - 1;
    var w := 1 + |order[n].0|;
    assert order[n] in order;
    var long := Mul(|s|, w) + 1;
    variables := Calling(names, order[n].0, long);
    assert variables.Keys == names by { CallingKeys(names, order[n].0, long); }
    var pairs := Called(order, blank, variables, long);
    OnlyLastByPairs(pairs, variables, s);
    PassesCallMore(s, pairs, w);
    SimultaneousIsSubstitute(s, pairs, variables);
  }

  /** These values, pair by pair. */
  lemma Called(order: seq<Pair>, blank: map<Text, Text>, variables: map<Text, Text>, long: nat)
    returns (pairs: seq<Pair>)
    requires ArePairsOf(order, blank) && HaveNames(order) && order != []
    requires variables == Calling(blank.Keys, order[|order| - 1].0, long)
    ensures |pairs| == |order| && ArePairsOf(pairs, variables) && HaveNames(pairs) && CallLast(pairs)
    ensures var n := |order| - 1;
            pairs[n].0 == order[n].0 && |pairs[n].1| == long
            && forall a :: 0 <= a < n ==> |pairs[a].1| == 1 + |order[n].0|
  {
    hide ArePairsOf, HaveNames, CallLast, Calling, Sorted;
    CallingKeys(blank.Keys, order[|order| - 1].0, long);
    KeysOf(order, blank);
    pairs := WithValues(order, variables);
    Retold(order, blank, pairs, variables);
    Simply(order, pairs);
    PairsCall(order, pairs, blank.Keys, variables, long);
  }

  lemma KeysOf(order: seq<Pair>, blank: map<Text, Text>)
    requires ArePairsOf(order, blank)
    ensures Sorted(NamesOf(order)) && forall p :: p in order ==> p.0 in blank
  {
  }

  lemma PairsCall(order: seq<Pair>, pairs: seq<Pair>, names: set<Text>, variables: map<Text, Text>, long: nat)
    requires order != [] && Sorted(NamesOf(order)) && (forall p :: p in order ==> p.0 in names)
    requires variables == Calling(names, order[|order| - 1].0, long) && |pairs| == |order|
    requires forall k :: 0 <= k < |order| ==> pairs[k].0 == order[k].0 && pairs[k].1 == variables[order[k].0]
    ensures CallLast(pairs) && |pairs[|order| - 1].1| == long
    ensures forall a :: 0 <= a < |order| - 1 ==> |pairs[a].1| == 1 + |order[|order| - 1].0|
  {
    var last := order[|order| - 1].0;
    Distinct(order, |order| - 1);
    hide Sorted;
    forall a | 0 <= a < |order| - 1 ensures pairs[a].1 == [DOLLAR] + last {
      assert order[a] in order;
    }
  }

  lemma NotNowhere(s: Text, pairs: seq<Pair>)
    requires !EarlierFitNowhere(s, pairs)
    ensures pairs != []
  {
  }

  lemma Simply(order: seq<Pair>, pairs: seq<Pair>)
    requires HaveNames(order) && |pairs| == |order| && forall k :: 0 <= k < |order| ==> pairs[k].0 == order[k].0
    ensures HaveNames(pairs)
  {
    forall p | p in pairs ensures p.0 != [] && DOLLAR !in p.0 {
      var k :| 0 <= k < |pairs| && pairs[k] == p;
      assert order[k] in order;
    }
  }

  lemma Named(pairs: seq<Pair>, variables: map<Text, Text>)
    requires ArePairsOf(pairs, variables) && forall name :: name in variables ==> name != [] && DOLLAR !in name
    ensures HaveNames(pairs)
  {
  }

  /**
   * For names that are not empty and hold no $: replacing the variables one after the other is substituting them
   * all at once, for all values whatever, exactly when only the name tried last is ever replaced in the text.
   */
  lemma {:induction false} SequentialForAllValues(s: Text, names: set<Text>)
    requires forall name :: name in names ==> name != [] && DOLLAR !in name
    ensures (forall variables: map<Text, Text> :: variables.Keys == names ==> Agree(s, variables))
            <==> OnlyLast(names, s)
  {
    if OnlyLast(names, s) {
      forall variables: map<Text, Text> | variables.Keys == names ensures Agree(s, variables) {
        forall pairs | ArePairsOf(pairs, variables) ensures ReplaceEach(s, pairs) == Substitute(s, variables) {
          Named(pairs, variables);
          OnlyLastByPairs(pairs, variables, s);
          LastPassIsAll(s, pairs);
          SimultaneousIsSubstitute(s, pairs, variables);
        }
      }
    } else {
      var variables := CallingValues(s, names);
      assert !Agree(s, variables);
    }
  }
}
