/**
 * The order in which both template engines try variable names (longest first,
 * then bytewise), and the longest name that begins a text.
 */
module Names {
  import opened Bytes

  /** Go's < on strings. */
  predicate LexLess(a: Text, b: Text) {
    b != [] && (a == [] || a[0] < b[0] || (a[0] == b[0] && LexLess(a[1..], b[1..])))
  }

  /** Where a and b first differ, b goes on or has the greater byte. */
  ghost predicate DifferAt(a: Text, b: Text, k: nat) {
    k <= |a| && k < |b| && a[..k] == b[..k] && (k == |a| || a[k] < b[k])
  }

  lemma {:induction false} LexLessExactly(a: Text, b: Text)
    ensures LexLess(a, b) <==> exists k :: DifferAt(a, b, k)
  {
    if b != [] && a != [] && a[0] == b[0] {
      LexLessExactly(a[1..], b[1..]);
      forall k: nat ensures DifferAt(a, b, k + 1) <==> DifferAt(a[1..], b[1..], k) {
        if k + 1 <= |a| && k + 1 <= |b| {
          assert a[..k + 1] == [a[0]] + a[1..][..k] && b[..k + 1] == [b[0]] + b[1..][..k];
          assert a[1..][..k] == a[..k + 1][1..] && b[1..][..k] == b[..k + 1][1..];
        }
      }
      assert !DifferAt(a, b, 0);
      if k: nat :| DifferAt(a, b, k) {
        assert DifferAt(a[1..], b[1..], k - 1);
      }
      if k: nat :| DifferAt(a[1..], b[1..], k) {
        assert DifferAt(a, b, k + 1);
      }
    } else {
      assert LexLess(a, b) ==> DifferAt(a, b, 0);
      assert forall k :: 0 < k <= |a| ==> a[..k][0] == a[0];
      assert forall k :: 0 < k <= |b| ==> b[..k][0] == b[0];
    }
  }

  /** The comparator handed to sort.Slice. */
  predicate Before(a: Text, b: Text) {
    |a| > |b| || (|a| == |b| && LexLess(a, b))
  }

  lemma {:induction false} LexLessTransitive(a: Text, b: Text, c: Text)
    requires LexLess(a, b) && LexLess(b, c)
    ensures LexLess(a, c)
  {
    if a != [] && a[0] == b[0] == c[0] {
      LexLessTransitive(a[1..], b[1..], c[1..]);
    }
  }

  lemma {:induction false} LexLessTotal(a: Text, b: Text)
    ensures LexLess(a, b) || LexLess(b, a) || a == b
    ensures !(LexLess(a, b) && LexLess(b, a))
    ensures !LexLess(a, a)
  {
    if a != [] {
      LexLessTotal(a[1..], a[1..]);
      if b != [] && a[0] == b[0] {
        LexLessTotal(a[1..], b[1..]);
        assert a == [a[0]] + a[1..] && b == [b[0]] + b[1..];
      }
    }
  }

  lemma BeforeIsStrictOrder(a: Text, b: Text, c: Text)
    ensures Before(a, b) && Before(b, c) ==> Before(a, c)
    ensures Before(a, b) || Before(b, a) || a == b
    ensures !(Before(a, b) && Before(b, a))
  {
    if LexLess(a, b) && LexLess(b, c) {
      LexLessTransitive(a, b, c);
    }
    LexLessTotal(a, b);
  }

  ghost predicate Sorted(names: seq<Text>) {
    forall i, j :: 0 <= i < j < |names| ==> Before(names[i], names[j])
  }

  ghost function ElementsOf(names: seq<Text>): set<Text> {
    set n | n in names
  }

  lemma NoElements(names: seq<Text>)
    ensures ElementsOf(names) == {} <==> names == []
  {
    if names != [] {
      assert names[0] in ElementsOf(names);
    }
  }

  /** Sorted lists of the same names are equal, so map iteration order leaves no trace. */
  lemma {:induction false} SortedIsUnique(a: seq<Text>, b: seq<Text>)
    requires Sorted(a) && Sorted(b) && ElementsOf(a) == ElementsOf(b)
    ensures a == b
  {
    NoElements(a);
    NoElements(b);
    if a != [] {
      assert a[0] in ElementsOf(b) && b[0] in ElementsOf(a);
      BeforeIsStrictOrder(a[0], b[0], a[0]);
      assert a[0] == b[0];
      forall n ensures n in ElementsOf(a[1..]) <==> n in ElementsOf(b[1..]) {
        BeforeIsStrictOrder(a[0], a[0], a[0]);
        assert n in ElementsOf(a) <==> n == a[0] || n in a[1..];
        assert n in ElementsOf(b) <==> n == b[0] || n in b[1..];
      }
      SortedIsUnique(a[1..], b[1..]);
    }
  }

  /** Collects the keys in whatever order the map yields them and sorts them. */
  method SortNames(keys: set<Text>) returns (names: seq<Text>)
    ensures Sorted(names) && ElementsOf(names) == keys
  {
    names := [];
    var rest := keys;
    while rest != {}
      invariant rest <= keys && Sorted(names) && ElementsOf(names) == keys - rest
      decreases rest
    {
      var k :| k in rest;
      names := InsertName(names, k);
      rest := rest - {k};
    }
  }

  method InsertName(names: seq<Text>, k: Text) returns (grown: seq<Text>)
    requires Sorted(names) && k !in names
    ensures Sorted(grown) && ElementsOf(grown) == ElementsOf(names) + {k}
  {
    var i := 0;
    while i < |names| && Before(names[i], k)
      invariant i <= |names|
      invariant forall j :: 0 <= j < i ==> Before(names[j], k)
    {
      i := i + 1;
    }
    grown := names[..i] + [k] + names[i..];
    forall j | i <= j < |names| ensures Before(k, names[j]) {
      BeforeIsStrictOrder(k, names[i], names[j]);
      BeforeIsStrictOrder(names[i], k, k);
    }
    assert forall n :: n in names <==> n in names[..i] || n in names[i..];
  }

  /** A non-empty set of names has a first one. */
  lemma {:induction false} FirstOf(keys: set<Text>) returns (k: Text)
    requires keys != {}
    ensures k in keys && forall n :: n in keys && n != k ==> Before(k, n)
    decreases keys
  {
    var some: Text :| some in keys;
    var others := keys - {some};
    assert forall n :: n in keys && n != some ==> n in others;
    k := some;
    if others != {} {
      var o := FirstOf(others);
      BeforeIsStrictOrder(some, o, some);
      if Before(o, some) {
        k := o;
      } else {
        forall n | n in others ensures Before(some, n) {
          BeforeIsStrictOrder(some, o, n);
        }
      }
    }
  }

  lemma {:induction false} SortedListOf(keys: set<Text>) returns (names: seq<Text>)
    ensures Sorted(names) && ElementsOf(names) == keys
    decreases keys
  {
    names := [];
    if keys != {} {
      var k := FirstOf(keys);
      var rest := SortedListOf(keys - {k});
      names := [k] + rest;
      forall j | 1 <= j < |names| ensures Before(k, names[j]) {
        assert names[j] in ElementsOf(rest);
      }
      forall n ensures n in ElementsOf(names) <==> n in keys {
        assert n in ElementsOf(rest) <==> n in keys - {k};
      }
    }
  }

  // The longest name beginning a text

  predicate Begins(keys: set<Text>, rest: Text, name: Text) {
    name in keys && name != [] && name <= rest
  }

  ghost predicate IsLongest(keys: set<Text>, rest: Text, name: Text) {
    Begins(keys, rest, name) && forall m :: Begins(keys, rest, m) ==> |m| <= |name|
  }

  /** The longest non-empty key that is a prefix of rest, [] if none is. */
  function Longest(keys: set<Text>, rest: Text): (name: Text)
    ensures name != [] ==> IsLongest(keys, rest, name)
    ensures name == [] ==> forall m :: !Begins(keys, rest, m)
  {
    LongestUpTo(keys, rest, |rest|)
  }

  function LongestUpTo(keys: set<Text>, rest: Text, n: nat): (name: Text)
    requires n <= |rest|
    requires forall m :: Begins(keys, rest, m) ==> |m| <= n
    ensures name != [] ==> IsLongest(keys, rest, name)
    ensures name == [] ==> forall m :: !Begins(keys, rest, m)
  {
    if n == 0 then []
    else if rest[..n] in keys then rest[..n]
    else
      assert forall m :: Begins(keys, rest, m) && |m| == n ==> m == rest[..n];
      LongestUpTo(keys, rest, n - 1)
  }

  lemma LongestIsDetermined(keys: set<Text>, rest: Text, name: Text)
    requires IsLongest(keys, rest, name)
    ensures Longest(keys, rest) == name
  {
    assert Begins(keys, rest, name);
    var found := Longest(keys, rest);
    assert name == rest[..|name|] && found == rest[..|found|];
  }

  /** Two texts begun by the same keys have the same longest one. */
  lemma LongestAgrees(keys: set<Text>, r1: Text, r2: Text)
    requires forall m :: Begins(keys, r1, m) <==> Begins(keys, r2, m)
    ensures Longest(keys, r1) == Longest(keys, r2)
  {
    var name := Longest(keys, r1);
    if name != [] {
      LongestIsDetermined(keys, r2, name);
    }
  }

  /** In a list sorted for trying, the first name that fits is the longest that fits. */
  lemma FirstInSortedIsLongest(names: seq<Text>, rest: Text, i: nat)
    requires Sorted(names) && [] !in names && i < |names| && names[i] <= rest
    requires forall j :: 0 <= j < i ==> !(names[j] <= rest)
    ensures Longest(ElementsOf(names), rest) == names[i]
  {
    var keys := ElementsOf(names);
    forall m | Begins(keys, rest, m) ensures |m| <= |names[i]| {
      var j :| 0 <= j < |names| && names[j] == m;
      if i < j { assert Before(names[i], names[j]); }
    }
    LongestIsDetermined(keys, rest, names[i]);
  }
}
