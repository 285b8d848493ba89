/** The build tool's items: a property bag per item with a `Type` property, read through
    `GetProperty` under the key as spelled, and the `GetItemByType` filter. */
module MSBuildItems {
  import opened Wrappers
  import opened Text

  /** One `IMSBuildItem`: its identity and its property dictionary, keyed by the property names
      as the utility spells them; a key may be present with a null value. */
  datatype Item = Item(identity: string, properties: map<string, Option<string>>)

  /** `item.GetProperty(key)`: the value stored under `key`, or null when it is unset. */
  function GetProperty(item: Item, key: string): (r: Option<string>)
    ensures r.Some? ==> key in item.properties
  {
    if key in item.properties then item.properties[key] else None
  }

  /** The item's `Type` equals `itemType` ignoring case; an item without a type matches nothing. */
  predicate HasType(item: Item, itemType: string) {
    var t := GetProperty(item, "Type");
    t.Some? && EqualsIgnoreCase(itemType, t.value)
  }

  /** `GetItemByType(items, type)`: the items of that type, in input order. */
  function GetItemByType(items: seq<Item>, itemType: string): (r: seq<Item>)
    ensures |r| <= |items|
    ensures forall x :: x in r <==> x in items && HasType(x, itemType)
    ensures r == [] <==> forall i :: 0 <= i < |items| ==> !HasType(items[i], itemType)
  {
    if items == [] then []
    else
      var rest := GetItemByType(items[1..], itemType);
      assert forall i :: 1 <= i < |items| ==> items[i] == items[1..][i - 1];
      if HasType(items[0], itemType) then [items[0]] + rest else rest
  }

  /** The filter keeps at least two items exactly when two different positions of the input
      carry the type: this is the case in which `SingleOrDefault` throws. */
  lemma TwoOfType(items: seq<Item>, itemType: string)
    ensures |GetItemByType(items, itemType)| >= 2 <==>
            exists i, j :: 0 <= i < j < |items| && HasType(items[i], itemType) && HasType(items[j], itemType)
  {
    if exists i, j :: 0 <= i < j < |items| && HasType(items[i], itemType) && HasType(items[j], itemType) {
      var i, j :| 0 <= i < j < |items| && HasType(items[i], itemType) && HasType(items[j], itemType);
      TwoPositionsKept(items, itemType, i, j);
    }
    if |GetItemByType(items, itemType)| >= 2 {
      TwoKeptPositions(items, itemType);
    }
  }

  lemma {:induction false} TwoPositionsKept(items: seq<Item>, itemType: string, i: nat, j: nat)
    requires i < j < |items| && HasType(items[i], itemType) && HasType(items[j], itemType)
    ensures |GetItemByType(items, itemType)| >= 2
  {
    var tail := items[1..];
    assert tail[j - 1] == items[j];
    if i == 0 {
      assert items[j] in GetItemByType(tail, itemType);
    } else {
      assert tail[i - 1] == items[i];
      TwoPositionsKept(tail, itemType, i - 1, j - 1);
    }
  }

  lemma {:induction false} TwoKeptPositions(items: seq<Item>, itemType: string)
    requires |GetItemByType(items, itemType)| >= 2
    ensures exists i, j :: 0 <= i < j < |items| && HasType(items[i], itemType) && HasType(items[j], itemType)
  {
    var tail := items[1..];
    var r := GetItemByType(tail, itemType);
    if HasType(items[0], itemType) {
      assert r != [];
      var k :| 0 <= k < |tail| && HasType(tail[k], itemType);
      assert items[k + 1] == tail[k];
      assert HasType(items[0], itemType) && HasType(items[k + 1], itemType);
    } else {
      TwoKeptPositions(tail, itemType);
      var i, j :| 0 <= i < j < |tail| && HasType(tail[i], itemType) && HasType(tail[j], itemType);
      assert items[i + 1] == tail[i] && items[j + 1] == tail[j];
      assert HasType(items[i + 1], itemType) && HasType(items[j + 1], itemType);
    }
  }

  /** When at most one item carries the type and `items[i]` does, the filter is exactly that item. */
  lemma SoleOfType(items: seq<Item>, itemType: string, i: nat)
    requires i < |items| && HasType(items[i], itemType)
    requires |GetItemByType(items, itemType)| <= 1
    ensures GetItemByType(items, itemType) == [items[i]]
  {
    assert items[i] in GetItemByType(items, itemType);
  }

  /** Every item the filter keeps sits at some position of the input and has the type. */
  lemma TypedItemPosition(items: seq<Item>, itemType: string, k: nat)
    requires k < |GetItemByType(items, itemType)|
    ensures exists j :: 0 <= j < |items| && items[j] == GetItemByType(items, itemType)[k] && HasType(items[j], itemType)
  {
    var typed := GetItemByType(items, itemType);
    assert typed[k] in typed;
  }

  /** The filter keeps the input order and every occurrence: filtering a concatenation is
      concatenating the filtered parts. With the empty and one-item cases, this determines
      `GetItemByType` completely. */
  lemma {:induction false} GetItemByTypeConcat(a: seq<Item>, b: seq<Item>, itemType: string)
    ensures GetItemByType(a + b, itemType) == GetItemByType(a, itemType) + GetItemByType(b, itemType)
  {
    if a != [] {
      assert (a + b)[1..] == a[1..] + b;
      assert (a + b)[0] == a[0];
      GetItemByTypeConcat(a[1..], b, itemType);
    } else {
      assert a + b == b;
    }
  }

  /** One item is kept exactly when it has the type. */
  lemma GetItemByTypeSingle(x: Item, itemType: string)
    ensures GetItemByType([x], itemType) == if HasType(x, itemType) then [x] else []
  {
    assert [x][1..] == [];
  }

  /** An item of the type at position `k` is kept at position `n`, the number of items of the
      type before it, and the kept items before it are exactly those of `items[..k]`. */
  lemma PositionInFilter(items: seq<Item>, itemType: string, k: nat) returns (n: nat)
    requires k < |items| && HasType(items[k], itemType)
    ensures n == |GetItemByType(items[..k], itemType)|
    ensures n < |GetItemByType(items, itemType)|
    ensures GetItemByType(items, itemType)[n] == items[k]
    ensures GetItemByType(items, itemType)[..n] == GetItemByType(items[..k], itemType)
  {
    n := |GetItemByType(items[..k], itemType)|;
    assert items == items[..k] + ([items[k]] + items[k + 1..]);
    GetItemByTypeConcat(items[..k], [items[k]] + items[k + 1..], itemType);
    GetItemByTypeConcat([items[k]], items[k + 1..], itemType);
    GetItemByTypeSingle(items[k], itemType);
  }
}
