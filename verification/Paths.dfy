/** Looking up a dotted path in a template variable (common/variables.go). */
module Paths {
  import opened Bytes
  import opened Utf8
  import opened Values
  import opened Numerals

  /** The member or element of a container a segment selects. */
  function Child(node: Value, segment: Text): Option<Value> {
    match node
    case Object(fields) => if segment in fields then Some(fields[segment]) else None
    case Array(items) =>
      (match Atoi(segment)
       case Some(i) => if 0 <= i < |items| then Some(items[i]) else None
       case None => None)
    case _ => None
  }

  /** A text is read as JSON before it is descended into. */
  function Open(lib: Library, v: Value): Option<Value> {
    if v.Str? then lib.decode(v.text) else Some(v)
  }

  /** One step down. */
  function Descend(lib: Library, v: Value, segment: Text): Option<Value> {
    if segment == [] then None
    else match Open(lib, v)
         case Some(node) => Child(node, segment)
         case None => None
  }

  /** Where the path leads from v. */
  function Resolve(lib: Library, v: Value, path: seq<Text>): Option<Value>
    decreases path
  {
    if path == [] then Some(v)
    else match Descend(lib, v, path[0])
         case Some(next) => Resolve(lib, next, path[1..])
         case None => None
  }

  /** resolveTemplatePath. */
  method ResolveTemplatePath(lib: Library, value: Value, path: seq<Text>) returns (found: Option<Value>)
    ensures found == Resolve(lib, value, path)
  {
    var current := value;
    for k := 0 to |path|
      invariant Resolve(lib, value, path) == Resolve(lib, current, path[k..])
    {
      var segment := path[k];
      assert path[k..][1..] == path[k + 1..];
      if segment == [] {
        return None;
      }
      if current.Str? {
        var parsed := lib.decode(current.text);
        if parsed.None? {
          return None;
        }
        current := parsed.value;
        assert Resolve(lib, value, path) ==
          match Child(current, segment) case Some(next) => Resolve(lib, next, path[k + 1..]) case None => None;
      }
      match current {
        case Object(fields) =>
          if segment !in fields {
            return None;
          }
          current := fields[segment];
        case Array(items) =>
          var index := Atoi(segment);
          if index.None? || index.value < 0 || index.value >= |items| {
            return None;
          }
          current := items[index.value];
        case _ =>
          return None;
      }
    }
    return Some(current);
  }

  /** Resolving p and then q is resolving p followed by q. */
  lemma {:induction false} ResolveComposes(lib: Library, v: Value, p: seq<Text>, q: seq<Text>)
    ensures Resolve(lib, v, p + q) ==
            match Resolve(lib, v, p) case Some(mid) => Resolve(lib, mid, q) case None => None
    decreases p
  {
    if p == [] {
      assert p + q == q;
    } else {
      assert (p + q)[1..] == p[1..] + q;
      match Descend(lib, v, p[0]) {
        case Some(next) => ResolveComposes(lib, next, p[1..], q);
        case None =>
      }
    }
  }

  // Where a path leads, said of the value itself

  /** next is the member or element of node that the segment names. */
  ghost predicate IsMember(node: Value, segment: Text, next: Value) {
    match node
    case Object(fields) => (segment, next) in fields.Items
    case Array(items) => exists k: nat :: k < |items| && IsDecimal(segment, k) && items[k] == next
    case _ => false
  }

  /** node is v, or what the string v is the JSON text of. */
  ghost predicate IsOpened(lib: Library, v: Value, node: Value) {
    match v
    case Str(text) => lib.decode(text) == Some(node)
    case _ => node == v
  }

  /** w lies under v along the path: segment by segment, no segment empty, JSON texts read on the way. */
  ghost predicate LiesUnder(lib: Library, v: Value, path: seq<Text>, w: Value)
    decreases path
  {
    if path == [] then w == v
    else
      path[0] != []
      && exists node, next :: IsOpened(lib, v, node) && IsMember(node, path[0], next)
                              && LiesUnder(lib, next, path[1..], w)
  }

  lemma ChildIsMember(node: Value, segment: Text, next: Value)
    ensures Child(node, segment) == Some(next) <==> IsMember(node, segment, next)
  {
    if node.Array? {
      if Child(node, segment) == Some(next) {
        AtoiExactly(segment, Atoi(segment).value);
      }
      forall k: nat | k < |node.items| && IsDecimal(segment, k) && node.items[k] == next
        ensures Child(node, segment) == Some(next)
      {
        AtoiExactly(segment, k);
      }
    }
  }

  /** The lookup finds exactly what lies under the value along the path. */
  lemma {:induction false} ResolveExactly(lib: Library, v: Value, path: seq<Text>, w: Value)
    ensures Resolve(lib, v, path) == Some(w) <==> LiesUnder(lib, v, path, w)
    decreases path
  {
    if path != [] && path[0] != [] {
      var step := Descend(lib, v, path[0]);
      if step.Some? {
        var node := Open(lib, v).value;
        ChildIsMember(node, path[0], step.value);
        ResolveExactly(lib, step.value, path[1..], w);
        assert IsOpened(lib, v, node);
      }
      forall node, next | IsOpened(lib, v, node) && IsMember(node, path[0], next) ensures step == Some(next) {
        ChildIsMember(node, path[0], next);
      }
    }
  }

  /** A key of an object leads to its value, and to nothing if it is not there. */
  lemma KeySegment(lib: Library, fields: map<Text, Value>, key: Text)
    requires key != []
    ensures Resolve(lib, Object(fields), [key]) == if key in fields then Some(fields[key]) else None
  {
    assert [key][1..] == [];
    if key in fields {
      assert Resolve(lib, fields[key], []) == Some(fields[key]);
    }
  }

  /** Below a scalar that is no text there is nothing. */
  lemma NothingBelow(lib: Library, v: Value, path: seq<Text>)
    requires !IsContainer(v) && !v.Str? && path != []
    ensures Resolve(lib, v, path).None?
  {
  }

  /** No path with an empty segment leads anywhere. */
  lemma {:induction false} EmptySegmentFails(lib: Library, v: Value, path: seq<Text>)
    requires [] in path
    ensures Resolve(lib, v, path).None?
    decreases path
  {
    if path[0] != [] && Descend(lib, v, path[0]).Some? {
      EmptySegmentFails(lib, Descend(lib, v, path[0]).value, path[1..]);
    }
  }

  /** The decimal form of an index selects that element. */
  lemma IndexSegment(lib: Library, items: seq<Value>, k: nat)
    requires k < |items| && k <= MAX_INT
    ensures Resolve(lib, Array(items), [Itoa(k)]) == Some(items[k])
  {
    AtoiItoa(k);
    assert Resolve(lib, items[k], [Itoa(k)][1..]) == Some(items[k]);
  }

  // Seeing through serialisation

  /** Same kind of container, with corresponding members related by Frozen. */
  ghost predicate SameNode(lib: Library, v: Value, w: Value)
    decreases v, 0
  {
    || (v.Object? && w.Object? && v.fields.Keys == w.fields.Keys
        && forall k :: k in v.fields ==> Frozen(lib, v.fields[k], w.fields[k]))
    || (v.Array? && w.Array? && |v.items| == |w.items|
        && forall i :: 0 <= i < |v.items| ==> Frozen(lib, v.items[i], w.items[i]))
  }

  /** w is v with some of its objects and arrays, at any depth, replaced by texts that decode to them. */
  ghost predicate Frozen(lib: Library, v: Value, w: Value)
    decreases v, 1
  {
    || v == w
    || SameNode(lib, v, w)
    || (IsContainer(v) && w.Str? && lib.decode(w.text).Some?
        && (lib.decode(w.text).value == v || SameNode(lib, v, lib.decode(w.text).value)))
  }

  lemma SameNodeChild(lib: Library, v: Value, w: Value, segment: Text)
    requires SameNode(lib, v, w)
    ensures Child(v, segment).Some? <==> Child(w, segment).Some?
    ensures Child(v, segment).Some? ==> Frozen(lib, Child(v, segment).value, Child(w, segment).value)
  {
  }

  lemma FrozenDescend(lib: Library, v: Value, w: Value, segment: Text)
    requires Frozen(lib, v, w)
    ensures Descend(lib, v, segment).Some? <==> Descend(lib, w, segment).Some?
    ensures Descend(lib, v, segment).Some? ==>
              Frozen(lib, Descend(lib, v, segment).value, Descend(lib, w, segment).value)
  {
    if v != w && segment != [] {
      var node := if w.Str? then lib.decode(w.text).value else w;
      assert Open(lib, v) == Some(v) && Open(lib, w) == Some(node);
      if SameNode(lib, v, node) {
        SameNodeChild(lib, v, node, segment);
      }
    }
  }

  /** A path leads to the same place whichever levels of the value are kept as JSON text. */
  lemma {:induction false} FrozenResolve(lib: Library, v: Value, w: Value, path: seq<Text>)
    requires Frozen(lib, v, w)
    ensures Resolve(lib, v, path).Some? <==> Resolve(lib, w, path).Some?
    ensures Resolve(lib, v, path).Some? ==>
              Frozen(lib, Resolve(lib, v, path).value, Resolve(lib, w, path).value)
    ensures Resolve(lib, v, path).Some? && !IsContainer(Resolve(lib, v, path).value) ==>
              Resolve(lib, v, path) == Resolve(lib, w, path)
    decreases path
  {
    if path != [] {
      FrozenDescend(lib, v, w, path[0]);
      if Descend(lib, v, path[0]).Some? {
        FrozenResolve(lib, Descend(lib, v, path[0]).value, Descend(lib, w, path[0]).value, path[1..]);
      }
    }
  }

  /** t is the JSON text of v, and reads back as v. */
  ghost predicate IsTextOf(lib: Library, v: Value, t: Text) {
    IsContainer(v) && lib.encode(v) == Some(t) && lib.decode(t) == Some(v)
  }

  lemma ResolveThroughText(lib: Library, v: Value, t: Text, path: seq<Text>)
    requires IsTextOf(lib, v, t) && path != []
    ensures Resolve(lib, Str(t), path) == Resolve(lib, v, path)
  {
    assert Descend(lib, Str(t), path[0]) == Descend(lib, v, path[0]);
  }
}
