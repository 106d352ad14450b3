/**
 * Variable substitution in webhook construct rules (model/webhook.go): one
 * strings.ReplaceAll per variable, longest name first.
 */
module Substitution {
  import opened Bytes
  import opened Names

  /** A variable name, without its $, and its value. */
  type Pair = (Text, Text)

  /** strings.ReplaceAll(s, "$" + name, value). */
  function ReplaceAll(s: Text, p: Pair): Text {
    if s == [] then []
    else if s[0] == DOLLAR && p.0 <= s[1..] then p.1 + ReplaceAll(s[1 + |p.0|..], p)
    else [s[0]] + ReplaceAll(s[1..], p)
  }

  /** The passes over a string leaf, one after the other. */
  function ReplaceEach(s: Text, pairs: seq<Pair>): Text
    decreases |pairs|
  {
    if pairs == [] then s else ReplaceEach(ReplaceAll(s, pairs[0]), pairs[1..])
  }

  method ReplaceInString(s: Text, pairs: seq<Pair>) returns (v: Text)
    ensures v == ReplaceEach(s, pairs)
  {
    v := s;
    for k := 0 to |pairs|
      invariant ReplaceEach(v, pairs[k..]) == ReplaceEach(s, pairs)
    {
      v := ReplaceAll(v, pairs[k]);
      assert pairs[k..][1..] == pairs[k + 1..];
    }
  }

  // The same in one pass

  /** Left to right, each $ with the longest name that follows it gives way to the value, which is not read again. */
  function Substitute(s: Text, variables: map<Text, Text>): Text {
    if s == [] then []
    else
      var name := if s[0] == DOLLAR then Longest(variables.Keys, s[1..]) else [];
      if name == [] then [s[0]] + Substitute(s[1..], variables)
      else variables[name] + Substitute(s[1 + |name|..], variables)
  }

  /** The index of the first pair whose name begins rest, the number of pairs if there is none. */
  function FitIndex(pairs: seq<Pair>, rest: Text): (k: nat)
    ensures k <= |pairs|
    ensures k < |pairs| ==> pairs[k].0 <= rest
    ensures forall j :: 0 <= j < k ==> !(pairs[j].0 <= rest)
  {
    if pairs == [] || pairs[0].0 <= rest then 0 else 1 + FitIndex(pairs[1..], rest)
  }

  function FirstFit(pairs: seq<Pair>, rest: Text): Option<Pair> {
    var k := FitIndex(pairs, rest);
    if k < |pairs| then Some(pairs[k]) else None
  }

  /** Substitute, with the variables in the order they are tried. */
  function Simultaneous(s: Text, pairs: seq<Pair>): Text {
    if s == [] then []
    else
      var fit := if s[0] == DOLLAR then FirstFit(pairs, s[1..]) else None;
      match fit
      case Some(p) => p.1 + Simultaneous(s[1 + |p.0|..], pairs)
      case None => [s[0]] + Simultaneous(s[1..], pairs)
  }

  // The sorted pairs

  /** The variables as pairs, longest name first: what sortedWebhookVariables returns. */
  ghost predicate ArePairsOf(pairs: seq<Pair>, variables: map<Text, Text>) {
    && Sorted(NamesOf(pairs))
    && ElementsOf(NamesOf(pairs)) == variables.Keys
    && forall i :: 0 <= i < |pairs| ==> pairs[i].0 in variables && pairs[i].1 == variables[pairs[i].0]
  }

  ghost function NamesOf(pairs: seq<Pair>): (names: seq<Text>)
    ensures |names| == |pairs| && forall i :: 0 <= i < |pairs| ==> names[i] == pairs[i].0
  {
    seq(|pairs|, i requires 0 <= i < |pairs| => pairs[i].0)
  }

  /** The sorted pairs do not depend on the order in which the map yields its keys. */
  lemma PairsAreDetermined(p1: seq<Pair>, p2: seq<Pair>, variables: map<Text, Text>)
    requires ArePairsOf(p1, variables) && ArePairsOf(p2, variables)
    ensures p1 == p2
  {
    SortedIsUnique(NamesOf(p1), NamesOf(p2));
    forall i | 0 <= i < |p1| ensures p1[i] == p2[i] {
      assert NamesOf(p1)[i] == NamesOf(p2)[i];
    }
  }

  method SortedWebhookVariables(variables: map<Text, Text>) returns (pairs: seq<Pair>)
    ensures ArePairsOf(pairs, variables)
  {
    var keys := SortNames(variables.Keys);
    pairs := [];
    for i := 0 to |keys|
      invariant |pairs| == i && forall j :: 0 <= j < i ==> pairs[j].0 == keys[j]
      invariant forall j :: 0 <= j < i ==> keys[j] in variables && pairs[j].1 == variables[keys[j]]
    {
      assert keys[i] in ElementsOf(keys);
      pairs := pairs + [(keys[i], variables[keys[i]])];
    }
    assert NamesOf(pairs) == keys;
  }
}
