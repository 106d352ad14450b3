/** The WeChat token store (channel/token-store.go) under its refresh cycle. */
module TokenStore {
  import opened Bytes

  /** A TokenStoreItem: its key never changes, its token does. An item is filled when no part of its key is missing. */
  class Item {
    const key: Text
    const isFilled: bool
    var token: Text

    constructor (key: Text, isFilled: bool)
      ensures this.key == key && this.isFilled == isFilled && token == []
    {
      this.key := key;
      this.isFilled := isFilled;
      token := [];
    }

    /** Refresh: answer is the token the service gives, if it gives one. */
    method Refresh(answer: Option<Text>)
      modifies this
      ensures token == if answer.Some? then answer.value else old(token)
    {
      if answer.Some? {
        token := answer.value;
      }
    }
  }

  /** The merge that ends a refresh: entries known to the snapshot are put back, no key is added. */
  function Merged<P>(store: map<Text, P>, snapshot: map<Text, P>): map<Text, P> {
    map k | k in store :: if k in snapshot then snapshot[k] else store[k]
  }

  /** The entries after the items found at start-up are stored one after the other. */
  function FillWith<P>(items: map<Text, P>, found: seq<P>, keyOf: P -> Text): map<Text, P>
    decreases found
  {
    if found == [] then items
    else FillWith(items[keyOf(found[0]) := found[0]], found[1..], keyOf)
  }

  function KeyOf(item: Item): Text {
    item.key
  }

  class Store {
    var items: map<Text, Item>

    /** Each entry sits under its own key. */
    ghost predicate Valid()
      reads this
    {
      forall k :: k in items ==> items[k].key == k
    }

    constructor ()
      ensures Valid() && items == map[]
    {
      items := map[];
    }

    /** The first locked section of TokenStoreInit. */
    method Fill(found: seq<Item>)
      requires Valid()
      modifies this
      ensures Valid() && items == FillWith(old(items), found, KeyOf)
    {
      for n := 0 to |found|
        invariant Valid() && FillWith(items, found[n..], KeyOf) == FillWith(old(items), found, KeyOf)
      {
        assert found[n..][1..] == found[n + 1..];
        items := items[found[n].key := found[n]];
      }
    }

    method Snapshot() returns (tmpMap: map<Text, Item>)
      requires Valid()
      ensures tmpMap == items
    {
      tmpMap := map[];
      var rest := items.Keys;
      while rest != {}
        invariant rest <= items.Keys && tmpMap == items - rest
        decreases rest
      {
        var k :| k in rest;
        tmpMap := tmpMap[k := items[k]];
        rest := rest - {k};
      }
    }

    method Merge(tmpMap: map<Text, Item>)
      requires Valid() && forall k :: k in tmpMap ==> tmpMap[k].key == k
      modifies this
      ensures Valid() && items == Merged(old(items), tmpMap)
    {
      var rest := items.Keys;
      while rest != {}
        invariant items.Keys == old(items).Keys && rest <= items.Keys
        invariant forall k :: k in items ==>
          items[k] == if k in rest then old(items)[k] else Merged(old(items), tmpMap)[k]
        decreases rest
      {
        var k :| k in rest;
        if k in tmpMap {
          items := items[k := tmpMap[k]];
        }
        rest := rest - {k};
      }
    }

    /** TokenStoreAddItem: an incomplete item is passed over, any other is refreshed and then stored. */
    method Add(item: Item, answer: Option<Text>)
      requires Valid()
      modifies this, item
      ensures Valid()
      ensures items == if item.isFilled then old(items)[item.key := item] else old(items)
      ensures item.token == if item.isFilled && answer.Some? then answer.value else old(item.token)
    {
      if !item.isFilled {
        return;
      }
      item.Refresh(answer);
      items := items[item.key := item];
    }

    method Remove(item: Item)
      requires Valid()
      modifies this
      ensures Valid() && items == old(items) - {item.key}
    {
      items := items - {item.key};
    }
  }
}
