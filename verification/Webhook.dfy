/** Rendering a webhook construct rule (model/webhook.go). */
module Webhook {
  import opened Bytes
  import opened Values
  import opened Numerals
  import opened Paths
  import opened Names
  import opened Substitution
  import opened SubstitutionLaws
  import opened SubstitutionExact
  import opened SubstitutionAll

  /** What replaceWebhookVariables makes of a JSON value. */
  function ReplaceValue(v: Value, pairs: seq<Pair>): Value {
    match v
    case Str(text) => Str(ReplaceEach(text, pairs))
    case Object(fields) => Object(map k | k in fields :: ReplaceValue(fields[k], pairs))
    case Array(items) => Array(seq(|items|, i requires 0 <= i < |items| => ReplaceValue(items[i], pairs)))
    case _ => v
  }

  /** The same keys, lengths and order at every level; the same values except for strings. */
  ghost predicate SameShape(v: Value, w: Value) {
    match v
    case Str(_) => w.Str?
    case Object(fields) =>
      w.Object? && w.fields.Keys == fields.Keys && forall k :: k in fields ==> SameShape(fields[k], w.fields[k])
    case Array(items) =>
      w.Array? && |w.items| == |items| && forall i :: 0 <= i < |items| ==> SameShape(items[i], w.items[i])
    case _ => w == v
  }

  lemma {:induction false} ShapeKept(v: Value, pairs: seq<Pair>)
    ensures SameShape(v, ReplaceValue(v, pairs))
  {
    match v {
      case Object(fields) =>
        forall k | k in fields ensures SameShape(fields[k], ReplaceValue(fields[k], pairs)) {
          ShapeKept(fields[k], pairs);
        }
      case Array(items) =>
        forall i | 0 <= i < |items| ensures SameShape(items[i], ReplaceValue(items[i], pairs)) {
          ShapeKept(items[i], pairs);
        }
      case _ =>
    }
  }

  // Leaf by leaf

  /** One step down a JSON tree. */
  datatype Turn = Key(key: Text) | At(index: nat)

  /** The value at a place of the tree. */
  function Find(v: Value, place: seq<Turn>): Option<Value>
    decreases place
  {
    if place == [] then Some(v)
    else match (v, place[0])
         case (Object(fields), Key(key)) => if key in fields then Find(fields[key], place[1..]) else None
         case (Array(items), At(index)) => if index < |items| then Find(items[index], place[1..]) else None
         case _ => None
  }

  /** What becomes of the value at one place: a string is replaced, any other leaf stays, a container keeps its kind. */
  ghost predicate IsLeafReplaced(before: Option<Value>, after: Option<Value>, pairs: seq<Pair>) {
    match before
    case None => after == None
    case Some(Str(text)) => after == Some(Str(ReplaceEach(text, pairs)))
    case Some(Object(fields)) => after.Some? && after.value.Object? && after.value.fields.Keys == fields.Keys
    case Some(Array(items)) => after.Some? && after.value.Array? && |after.value.items| == |items|
    case Some(_) => after == before
  }

  /** w is v with the passes made over its strings, wherever they are, and nothing else changed. */
  ghost predicate AreLeavesReplaced(v: Value, w: Value, pairs: seq<Pair>) {
    forall place :: IsLeafReplaced(Find(v, place), Find(w, place), pairs)
  }

  lemma {:induction false} LeafReplaced(v: Value, pairs: seq<Pair>, place: seq<Turn>)
    ensures IsLeafReplaced(Find(v, place), Find(ReplaceValue(v, pairs), place), pairs)
    decreases place
  {
    if place != [] {
      match (v, place[0]) {
        case (Object(fields), Key(key)) => if key in fields { LeafReplaced(fields[key], pairs, place[1..]); }
        case (Array(items), At(index)) => if index < |items| { LeafReplaced(items[index], pairs, place[1..]); }
        case _ =>
      }
    }
  }

  lemma BelowKey(v: Value, w: Value, pairs: seq<Pair>, key: Text)
    requires v.Object? && w.Object? && key in v.fields && key in w.fields && AreLeavesReplaced(v, w, pairs)
    ensures AreLeavesReplaced(v.fields[key], w.fields[key], pairs)
  {
    forall place ensures IsLeafReplaced(Find(v.fields[key], place), Find(w.fields[key], place), pairs) {
      var below := [Key(key)] + place;
      assert below[1..] == place;
      assert IsLeafReplaced(Find(v, below), Find(w, below), pairs);
    }
  }

  lemma BelowIndex(v: Value, w: Value, pairs: seq<Pair>, index: nat)
    requires v.Array? && w.Array? && index < |v.items| && index < |w.items| && AreLeavesReplaced(v, w, pairs)
    ensures AreLeavesReplaced(v.items[index], w.items[index], pairs)
  {
    forall place ensures IsLeafReplaced(Find(v.items[index], place), Find(w.items[index], place), pairs) {
      var below := [At(index)] + place;
      assert below[1..] == place;
      assert IsLeafReplaced(Find(v, below), Find(w, below), pairs);
    }
  }

  lemma {:induction false} LeavesDetermine(v: Value, w: Value, pairs: seq<Pair>)
    requires AreLeavesReplaced(v, w, pairs)
    ensures w == ReplaceValue(v, pairs)
    decreases v
  {
    assert IsLeafReplaced(Find(v, []), Find(w, []), pairs);
    match v {
      case Object(fields) =>
        forall key | key in fields ensures w.fields[key] == ReplaceValue(fields[key], pairs) {
          BelowKey(v, w, pairs, key);
          LeavesDetermine(fields[key], w.fields[key], pairs);
        }
        assert w.fields == ReplaceValue(v, pairs).fields;
      case Array(items) =>
        forall i | 0 <= i < |items| ensures w.items[i] == ReplaceValue(items[i], pairs) {
          BelowIndex(v, w, pairs, i);
          LeavesDetermine(items[i], w.items[i], pairs);
        }
        assert w.items == ReplaceValue(v, pairs).items;
      case _ =>
    }
  }

  /** The replaced value is the one value in which the passes were made over every string, and nothing else done. */
  lemma ReplacedExactly(v: Value, w: Value, pairs: seq<Pair>)
    ensures AreLeavesReplaced(v, w, pairs) <==> w == ReplaceValue(v, pairs)
  {
    if w == ReplaceValue(v, pairs) {
      forall place ensures IsLeafReplaced(Find(v, place), Find(w, place), pairs) {
        LeafReplaced(v, pairs, place);
      }
    }
    if AreLeavesReplaced(v, w, pairs) {
      LeavesDetermine(v, w, pairs);
    }
  }

  /**
   * A string of the tree in which no name can be completed, or in which only the last name is ever replaced, comes
   * out with all variables put in at once.
   */
  lemma LeafIsSubstituted(v: Value, variables: map<Text, Text>, pairs: seq<Pair>, place: seq<Turn>, text: Text)
    requires ArePairsOf(pairs, variables) && Find(v, place) == Some(Str(text))
    requires forall name :: name in variables ==> name != [] && DOLLAR !in name
    requires (NoDollars(variables) && forall i, j, m :: !Completes(variables.Keys, text, i, j, m))
             || OnlyLast(variables.Keys, text)
    ensures Find(ReplaceValue(v, pairs), place) == Some(Str(Substitute(text, variables)))
  {
    LeafReplaced(v, pairs, place);
    if OnlyLast(variables.Keys, text) {
      SequentialForAllValues(text, variables.Keys);
    } else {
      SequentialExactly(text, variables.Keys);
    }
    assert Agree(text, variables);
  }

  /** The value at a path that passes through objects and arrays only. */
  function Walk(v: Value, path: seq<Text>): Option<Value>
    decreases path
  {
    if path == [] then Some(v)
    else if path[0] == [] || !IsContainer(v) then None
    else match Child(v, path[0])
         case Some(next) => Walk(next, path[1..])
         case None => None
  }

  /**
   * A custom channel that reads the rule's JSON text at a path finds the substituted form of what the
   * rule holds at that path, and nothing where the rule holds nothing but containers on the way.
   */
  lemma {:induction false} PathAfterReplacement(lib: Library, v: Value, pairs: seq<Pair>, path: seq<Text>)
    requires Walk(v, path).Some?
    ensures Resolve(lib, ReplaceValue(v, pairs), path) == Some(ReplaceValue(Walk(v, path).value, pairs))
    decreases path
  {
    if path != [] {
      PathAfterReplacement(lib, Child(v, path[0]).value, pairs, path[1..]);
    }
  }

  /** WebhookConstructRuleString. */
  function RuleString(lib: Library, v: Value): Text {
    match v
    case Nil => []
    case Str(text) => text
    case _ =>
      match lib.encode(v)
      case Some(json) => json
      case None => []
  }

  /** The same when the substituted value travels as a message field, that is, as text. */
  lemma PathInMessage(lib: Library, v: Value, pairs: seq<Pair>, path: seq<Text>)
    requires path != [] && Walk(v, path).Some?
    requires var w := ReplaceValue(v, pairs); lib.encode(w).Some? && lib.decode(lib.encode(w).value) == Some(w)
    ensures Resolve(lib, Str(RuleString(lib, ReplaceValue(v, pairs))), path)
            == Some(ReplaceValue(Walk(v, path).value, pairs))
  {
    PathAfterReplacement(lib, v, pairs, path);
    ResolveThroughText(lib, ReplaceValue(v, pairs), RuleString(lib, ReplaceValue(v, pairs)), path);
  }

  /** A string field is itself and nil is empty; a container is its JSON text, or empty if there is none. */
  lemma RuleStringShows(lib: Library, v: Value)
    ensures v.Nil? || v.Str? || (IsContainer(v) && lib.encode(v).Some?) ==> IsShownAs(lib, v, RuleString(lib, v))
    ensures !v.Nil? && !v.Str? ==>
              if lib.encode(v).Some? then lib.encode(v) == Some(RuleString(lib, v)) else RuleString(lib, v) == []
  {
  }

  // The rule as a message template

  const TITLE := Ascii("title")
  const DESCRIPTION := Ascii("description")
  const CONTENT := Ascii("content")
  const URL := Ascii("url")
  const TO := Ascii("to")
  const FIELDS: set<Text> := {TITLE, DESCRIPTION, CONTENT, URL, TO}

  datatype Rule = Rule(title: Value, description: Value, content: Value, url: Value, to: Value,
                       extra: Option<map<Text, Value>>)

  /** raw[key], nil when there is no such key. */
  function Entry(raw: map<Text, Value>, key: Text): Value {
    if key in raw then raw[key] else Nil
  }

  /** A decoder into map[string]interface{}: an object, or null for no map at all. */
  function DecodeRule(lib: Library, constructRule: Text): Option<map<Text, Value>> {
    match lib.decode(constructRule)
    case Some(Object(fields)) => Some(fields)
    case Some(Nil) => Some(map[])
    case _ => None
  }

  /** The field the key of the rule goes to: its value with the passes made over its strings, nil without the key. */
  ghost predicate IsField(raw: map<Text, Value>, key: Text, field: Value, pairs: seq<Pair>) {
    if key in raw then AreLeavesReplaced(raw[key], field, pairs) else field == Nil
  }

  /**
   * Every top-level key of the rule ends in exactly one place, substituted: in its message field or, if
   * it is none of the five, in Extra. Fields the rule lacks are nil, and Extra is absent rather than empty.
   */
  ghost predicate IsRendered(raw: map<Text, Value>, pairs: seq<Pair>, rule: Rule) {
    && IsField(raw, Ascii("title"), rule.title, pairs)
    && IsField(raw, Ascii("description"), rule.description, pairs)
    && IsField(raw, Ascii("content"), rule.content, pairs)
    && IsField(raw, Ascii("url"), rule.url, pairs)
    && IsField(raw, Ascii("to"), rule.to, pairs)
    && var others := raw.Keys - {Ascii("title"), Ascii("description"), Ascii("content"), Ascii("url"), Ascii("to")};
       match rule.extra
       case None => others == {}
       case Some(extra) =>
         others != {} && extra.Keys == others && forall k :: k in others ==> AreLeavesReplaced(raw[k], extra[k], pairs)
  }

  method RenderWebhookConstructRule(lib: Library, constructRule: Text, variables: map<Text, Text>)
    returns (rule: Option<Rule>)
    ensures match lib.decode(constructRule)
            case Some(Object(fields)) =>
              rule.Some? && forall pairs :: ArePairsOf(pairs, variables) ==> IsRendered(fields, pairs, rule.value)
            case Some(Nil) =>
              rule.Some? && forall pairs :: ArePairsOf(pairs, variables) ==> IsRendered(map[], pairs, rule.value)
            case _ => rule.None?
  {
    var decoded := DecodeRule(lib, constructRule);
    if decoded.None? {
      return None;
    }
    var raw := decoded.value;
    var pairs := SortedWebhookVariables(variables);
    var result := Rule(
      ReplaceValue(Entry(raw, TITLE), pairs),
      ReplaceValue(Entry(raw, DESCRIPTION), pairs),
      ReplaceValue(Entry(raw, CONTENT), pairs),
      ReplaceValue(Entry(raw, URL), pairs),
      ReplaceValue(Entry(raw, TO), pairs),
      None);
    raw := DeleteFields(raw);
    if raw != map[] {
      var extra := ReplaceExtra(raw, pairs);
      result := result.(extra := Some(extra));
    }
    RuleIsRendered(decoded.value, raw, pairs, result);
    forall others | ArePairsOf(others, variables) ensures IsRendered(decoded.value, others, result) {
      PairsAreDetermined(pairs, others, variables);
    }
    return Some(result);
  }

  method DeleteFields(decoded: map<Text, Value>) returns (raw: map<Text, Value>)
    ensures raw == decoded - FIELDS
  {
    raw := decoded;
    var keys := [TITLE, DESCRIPTION, CONTENT, URL, TO];
    for i := 0 to |keys|
      invariant raw == decoded - set k | k in keys[..i]
    {
      assert keys[..i + 1] == keys[..i] + [keys[i]];
      raw := raw - {keys[i]};
    }
    assert keys[..|keys|] == keys;
  }

  method ReplaceExtra(raw: map<Text, Value>, pairs: seq<Pair>) returns (extra: map<Text, Value>)
    ensures extra.Keys == raw.Keys && forall k :: k in extra ==> extra[k] == ReplaceValue(raw[k], pairs)
  {
    extra := map[];
    var rest := raw.Keys;
    while rest != {}
      invariant rest <= raw.Keys && extra.Keys == raw.Keys - rest
      invariant forall k :: k in extra ==> extra[k] == ReplaceValue(raw[k], pairs)
      decreases rest
    {
      var key :| key in rest;
      extra := extra[key := ReplaceValue(raw[key], pairs)];
      rest := rest - {key};
    }
  }

  lemma RuleIsRendered(decoded: map<Text, Value>, raw: map<Text, Value>, pairs: seq<Pair>, rule: Rule)
    requires raw == decoded - FIELDS
    requires rule.title == ReplaceValue(Entry(decoded, TITLE), pairs)
    requires rule.description == ReplaceValue(Entry(decoded, DESCRIPTION), pairs)
    requires rule.content == ReplaceValue(Entry(decoded, CONTENT), pairs)
    requires rule.url == ReplaceValue(Entry(decoded, URL), pairs)
    requires rule.to == ReplaceValue(Entry(decoded, TO), pairs)
    requires rule.extra.Some? <==> raw != map[]
    requires rule.extra.Some? ==> rule.extra.value.Keys == raw.Keys
    requires rule.extra.Some? ==> forall k :: k in raw ==> rule.extra.value[k] == ReplaceValue(raw[k], pairs)
    ensures IsRendered(decoded, pairs, rule)
  {
    hide ReplaceValue, Entry, AreLeavesReplaced, IsField;
    FieldIsReplaced(decoded, TITLE, pairs);
    FieldIsReplaced(decoded, DESCRIPTION, pairs);
    FieldIsReplaced(decoded, CONTENT, pairs);
    FieldIsReplaced(decoded, URL, pairs);
    FieldIsReplaced(decoded, TO, pairs);
    assert raw.Keys == decoded.Keys - FIELDS;
    forall k | k in raw && rule.extra.Some? ensures AreLeavesReplaced(raw[k], rule.extra.value[k], pairs) {
      ReplacedExactly(raw[k], rule.extra.value[k], pairs);
    }
  }

  lemma FieldIsReplaced(raw: map<Text, Value>, key: Text, pairs: seq<Pair>)
    ensures IsField(raw, key, ReplaceValue(Entry(raw, key), pairs), pairs)
  {
    hide AreLeavesReplaced;
    ReplacedExactly(Entry(raw, key), ReplaceValue(Entry(raw, key), pairs), pairs);
  }

  // The tree that is changed in place

  /** An interface{} slot: a leaf other than a string, a string, or a reference to a map or slice. */
  datatype Item = Leaf(v: Value) | Text(text: Text) | Ref(node: Node)

  /** A Go map (fields) or slice (elements) of a decoded JSON tree. */
  class Node {
    const isMap: bool
    var fields: map<Text, Item>
    var elements: seq<Item>
    /** The JSON value the node stands for, and the nodes it is made of. */
    ghost var value: Value
    ghost var Repr: set<Node>

    ghost predicate Valid()
      reads this, Repr
      decreases Repr
      ensures Valid() ==> this in Repr
    {
      && this in Repr
      && (if isMap
          then value.Object? && (forall k :: k in fields <==> k in value.fields)
               && (forall k :: k in fields ==> Holds(this, Repr, fields[k], value.fields[k]))
               && (forall k, k' :: k in fields && k' in fields && k != k' ==> Apart(fields[k], fields[k']))
          else value.Array? && |value.items| == |elements|
               && (forall i :: 0 <= i < |elements| ==> Holds(this, Repr, elements[i], value.items[i]))
               && (forall i, i' :: 0 <= i < i' < |elements| ==> Apart(elements[i], elements[i'])))
    }

    /** The slot belongs to the tree of owner, whose nodes are repr, and stands for v. */
    static ghost predicate Holds(owner: Node, repr: set<Node>, item: Item, v: Value)
      reads if item.Ref? && item.node in repr then {item.node} + item.node.Repr * repr else {}
      decreases repr, 0
    {
      match item
      case Leaf(w) => w == v && !v.Str? && !IsContainer(v)
      case Text(text) => v == Str(text)
      case Ref(node) =>
        node in repr && node.Repr < repr && owner !in node.Repr && node.Valid() && node.value == v
    }

    /** No sharing between two slots. */
    static ghost predicate Apart(a: Item, b: Item)
      reads if a.Ref? then {a.node} else {}, if b.Ref? then {b.node} else {}
    {
      a.Ref? && b.Ref? ==> a.node.Repr !! b.node.Repr
    }

    /** The loop of replaceWebhookVariables over a map or a slice; v[key] is written back in place. */
    method ReplaceMembers(pairs: seq<Pair>)
      requires Valid()
      modifies Repr
      ensures Valid() && Repr == old(Repr)
      ensures value == ReplaceValue(old(value), pairs)
      decreases Repr, 2
    {
      if isMap {
        var rest := fields.Keys;
        while rest != {}
          invariant Valid() && Repr == old(Repr) && value.Object?
          invariant rest <= fields.Keys == old(value).fields.Keys
          invariant forall k :: k in fields ==>
            value.fields[k] == (if k in rest then old(value).fields[k] else ReplaceValue(old(value).fields[k], pairs))
          decreases rest
        {
          var key :| key in rest;
          ReplaceField(key, pairs);
          rest := rest - {key};
        }
        assert value.fields == ReplaceValue(old(value), pairs).fields;
      } else {
        for i := 0 to |elements|
          invariant Valid() && Repr == old(Repr) && value.Array?
          invariant |elements| == |value.items| == |old(value).items|
          invariant forall j :: 0 <= j < |elements| ==>
            value.items[j] == (if i <= j then old(value).items[j] else ReplaceValue(old(value).items[j], pairs))
        {
          ReplaceElement(i, pairs);
        }
        assert value.items == ReplaceValue(old(value), pairs).items;
      }
    }

    /** v[key] = replaceWebhookVariables(item, pairs) */
    method ReplaceField(key: Text, pairs: seq<Pair>)
      requires Valid() && isMap && key in fields
      modifies Repr
      ensures Valid() && Repr == old(Repr) && fields.Keys == old(fields.Keys)
      ensures value == Object(old(value).fields[key := ReplaceValue(old(value).fields[key], pairs)])
      decreases Repr, 1
    {
      hide ReplaceValue;
      var slot := fields[key];
      ghost var was := value.fields[key];
      assert Holds(this, Repr, slot, was);
      var item := ReplaceWebhookVariables(slot, was, pairs);
      StoreField(key, item, ReplaceValue(was, pairs));
    }

    method StoreField(key: Text, item: Item, ghost v: Value)
      requires this in Repr && isMap && key in fields
      requires value.Object? && forall k :: k in fields <==> k in value.fields
      requires forall k :: k in fields && k != key ==> Holds(this, Repr, fields[k], value.fields[k])
      requires Holds(this, Repr, item, v)
      requires forall k, k' :: k in fields && k' in fields && k != key && k' != key && k != k' ==>
        Apart(fields[k], fields[k'])
      requires forall k :: k in fields && k != key ==> Apart(fields[k], item)
      modifies `fields, `value
      ensures Valid() && fields == old(fields)[key := item] && value == Object(old(value).fields[key := v])
    {
      SetFields(fields[key := item], value.fields[key := v]);
    }

    method SetFields(stored: map<Text, Item>, ghost values: map<Text, Value>)
      requires this in Repr && isMap && stored.Keys == values.Keys
      requires forall k :: k in stored ==> Holds(this, Repr, stored[k], values[k])
      requires forall k, k' :: k in stored && k' in stored && k != k' ==> Apart(stored[k], stored[k'])
      modifies `fields, `value
      ensures Valid() && fields == stored && value == Object(values)
    {
      fields := stored;
      value := Object(values);
    }

    /** v[i] = replaceWebhookVariables(item, pairs) */
    method ReplaceElement(i: nat, pairs: seq<Pair>)
      requires Valid() && !isMap && i < |elements|
      modifies Repr
      ensures Valid() && Repr == old(Repr) && |elements| == old(|elements|)
      ensures value == Array(old(value).items[i := ReplaceValue(old(value).items[i], pairs)])
      decreases Repr, 1
    {
      ghost var was := value.items[i];
      assert Holds(this, Repr, elements[i], was);
      hide ReplaceValue;
      var item := ReplaceWebhookVariables(elements[i], was, pairs);
      StoreElement(i, item, ReplaceValue(was, pairs));
    }

    method StoreElement(i: nat, item: Item, ghost v: Value)
      requires this in Repr && !isMap && i < |elements|
      requires value.Array? && |value.items| == |elements|
      requires forall j :: 0 <= j < |elements| && j != i ==> Holds(this, Repr, elements[j], value.items[j])
      requires Holds(this, Repr, item, v)
      requires forall j, j' :: 0 <= j < j' < |elements| && j != i && j' != i ==> Apart(elements[j], elements[j'])
      requires forall j :: 0 <= j < |elements| && j != i ==> Apart(elements[j], item)
      modifies `elements, `value
      ensures Valid() && elements == old(elements)[i := item] && value == Array(old(value).items[i := v])
    {
      elements := elements[i := item];
      value := Array(value.items[i := v]);
    }
  }

  /** The nodes below a slot. */
  ghost function NodesOf(item: Item): set<Node>
    reads if item.Ref? then {item.node} else {}
  {
    if item.Ref? then item.node.Repr else {}
  }

  /** The slot, taken on its own, stands for v. */
  ghost predicate StandsFor(item: Item, v: Value)
    reads if item.Ref? then {item.node} else {}, NodesOf(item)
  {
    match item
    case Leaf(w) => w == v && !v.Str? && !IsContainer(v)
    case Text(text) => v == Str(text)
    case Ref(node) => node.Valid() && node.value == v
  }

  /**
   * replaceWebhookVariables: a string comes back replaced; a map or slice is changed in place and comes
   * back as the same reference; nothing outside the tree is touched.
   */
  method ReplaceWebhookVariables(item: Item, ghost v: Value, pairs: seq<Pair>) returns (replaced: Item)
    requires StandsFor(item, v)
    modifies NodesOf(item)
    ensures StandsFor(replaced, ReplaceValue(v, pairs))
    ensures AreLeavesReplaced(v, ReplaceValue(v, pairs), pairs)
    ensures NodesOf(replaced) == old(NodesOf(item))
    ensures !item.Text? ==> replaced == item
    decreases NodesOf(item), 3
  {
    match item {
      case Text(text) =>
        var s := ReplaceInString(text, pairs);
        replaced := Text(s);
      case Ref(node) =>
        node.ReplaceMembers(pairs);
        replaced := item;
      case Leaf(_) =>
        replaced := item;
    }
    ReplacedExactly(v, ReplaceValue(v, pairs), pairs);
  }
}
