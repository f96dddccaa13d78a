/**
  The lookup of one answer in a Tally submission: `getFieldValueByLabel` scans the
  `data.fields` array with `Array.prototype.find`, comparing each element's `label`
  with the wanted label by strict equality, and gives the value of the first element
  that matches, or `null` when none does.
 */
module FieldLookup {
  import opened Optional

  /**
    One element of the `data.fields` array, as the scan sees it; `name` is its `label` property.
    `Field` is any element whose `label` property can be read: a `{label, value}` object,
    with `name == None` when that property is absent or not a string (strict equality
    with a string then never holds), or a non-null primitive, whose `label` is undefined.
    `Nullish` is a `null` or `undefined` element: reading its `label` raises a TypeError.
   */
  datatype Item<V> = Field(name: Option<string>, value: V) | Nullish

  /** What evaluating a lookup gives: a value (`None` is the `null` given when nothing matched), or the TypeError the scan raised. */
  datatype Lookup<V> = Returns(result: Option<V>) | TypeError

  /** `item.name === target`, for an element whose label can be read. */
  predicate HasLabel<V>(item: Item<V>, target: string)
  {
    item.Field? && item.name == Some(target)
  }

  /**
    `getFieldValueByLabel(items, target)`: the scan looks at the elements in order and
    stops at the first one labelled `target`, whose value it returns; it raises a
    TypeError when it meets a nullish element first, and gives `null` when it runs off the end.
   */
  function GetFieldValueByLabel<V>(items: seq<Item<V>>, target: string): (r: Lookup<V>)
    ensures r.Returns? && r.result.Some? ==>
      exists i :: 0 <= i < |items| && items[i] == Field(Some(target), r.result.value)
    ensures r.TypeError? ==> exists i :: 0 <= i < |items| && items[i].Nullish?
  {
    if items == [] then Returns(None)
    else match items[0]
      case Nullish => TypeError
      case Field(name, value) =>
        if name == Some(target) then Returns(Some(value))
        else
          var rest := GetFieldValueByLabel(items[1..], target);
          assert rest.Returns? && rest.result.Some? ==> items[1..] != [];
          rest
  }

  /** The scan reaches index `i`: every earlier element has a readable label other than `target`. */
  ghost predicate ScanReaches<V>(items: seq<Item<V>>, target: string, i: nat)
  {
    i <= |items| && forall j :: 0 <= j < i ==> items[j].Field? && !HasLabel(items[j], target)
  }

  /** Reaching index `i + 1` of a non-empty sequence is passing its head and reaching `i` of its tail. */
  lemma ScanReachesTail<V>(items: seq<Item<V>>, target: string, i: nat)
    requires items != []
    ensures ScanReaches(items, target, i + 1) <==>
      items[0].Field? && !HasLabel(items[0], target) && ScanReaches(items[1..], target, i)
  {
  }

  /** The first element labelled `target` that the scan reaches is the one whose value is returned. */
  lemma {:induction false} FirstMatchIsReturned<V>(items: seq<Item<V>>, target: string, i: nat)
    requires ScanReaches(items, target, i) && i < |items| && HasLabel(items[i], target)
    ensures GetFieldValueByLabel(items, target) == Returns(Some(items[i].value))
  {
    if i > 0 {
      ScanReachesTail(items, target, i - 1);
      FirstMatchIsReturned(items[1..], target, i - 1);
    }
  }

  /** A nullish element met before any element labelled `target` makes the lookup throw. */
  lemma {:induction false} NullishBeforeMatchThrows<V>(items: seq<Item<V>>, target: string, i: nat)
    requires ScanReaches(items, target, i) && i < |items| && items[i].Nullish?
    ensures GetFieldValueByLabel(items, target) == TypeError
  {
    if i > 0 {
      ScanReachesTail(items, target, i - 1);
      NullishBeforeMatchThrows(items[1..], target, i - 1);
    }
  }

  /** The lookup gives `null` exactly when the scan runs through every element without a match. */
  lemma {:induction false} NullExactlyWhenNoMatch<V>(items: seq<Item<V>>, target: string)
    ensures GetFieldValueByLabel(items, target) == Returns(None) <==> ScanReaches(items, target, |items|)
  {
    if items != [] {
      ScanReachesTail(items, target, |items| - 1);
      NullExactlyWhenNoMatch(items[1..], target);
    }
  }

  /**
    Conversely, every value the lookup returns is that of the first element labelled
    `target`, and every TypeError comes from a nullish element met before any match.
   */
  lemma {:induction false} ResultComesFromFirstStop<V>(items: seq<Item<V>>, target: string)
    ensures GetFieldValueByLabel(items, target).Returns? && GetFieldValueByLabel(items, target).result.Some? ==>
      exists i: nat :: ScanReaches(items, target, i) && i < |items| && HasLabel(items[i], target)
        && items[i].value == GetFieldValueByLabel(items, target).result.value
    ensures GetFieldValueByLabel(items, target).TypeError? ==>
      exists i: nat :: ScanReaches(items, target, i) && i < |items| && items[i].Nullish?
  {
    if items != [] && items[0].Field? && !HasLabel(items[0], target) {
      var tail := items[1..];
      ResultComesFromFirstStop(tail, target);
      var r := GetFieldValueByLabel(tail, target);
      if r.Returns? && r.result.Some? {
        var i: nat :| ScanReaches(tail, target, i) && i < |tail| && HasLabel(tail[i], target) && tail[i].value == r.result.value;
        ScanReachesTail(items, target, i);
        assert items[i + 1] == tail[i];
      } else if r.TypeError? {
        var i: nat :| ScanReaches(tail, target, i) && i < |tail| && tail[i].Nullish?;
        ScanReachesTail(items, target, i);
        assert items[i + 1] == tail[i];
      }
    } else if items != [] {
      assert ScanReaches(items, target, 0);
    }
  }


  /** An element whose readable label is not `target`, wherever it stands, does not change the lookup. */
  lemma {:induction false} UnrelatedFieldIsSkipped<V>(front: seq<Item<V>>, x: Item<V>, back: seq<Item<V>>, target: string)
    requires x.Field? && !HasLabel(x, target)
    ensures GetFieldValueByLabel(front + [x] + back, target) == GetFieldValueByLabel(front + back, target)
  {
    if front == [] {
      assert front + [x] + back == [x] + back;
      assert ([x] + back)[1..] == back;
      assert front + back == back;
    } else {
      assert (front + [x] + back)[0] == front[0];
      assert (front + back)[0] == front[0];
      assert (front + [x] + back)[1..] == front[1..] + [x] + back;
      assert (front + back)[1..] == front[1..] + back;
      UnrelatedFieldIsSkipped(front[1..], x, back, target);
    }
  }

  /** Every element of the array is readable. */
  ghost predicate Readable<V>(items: seq<Item<V>>)
  {
    forall x :: x in items ==> x.Field?
  }

  /** A sequence of readable elements (no `null` or `undefined` in the array) never makes the scan throw. */
  lemma {:induction false} ReadableItemsNeverThrow<V>(items: seq<Item<V>>, target: string)
    requires Readable(items)
    ensures GetFieldValueByLabel(items, target).Returns?
  {
    if items != [] && !HasLabel(items[0], target) {
      assert forall x :: x in items[1..] ==> x in items;
      ReadableItemsNeverThrow(items[1..], target);
    }
  }

  /** No two different elements carry the same string label. */
  ghost predicate UniqueLabels<V>(items: seq<Item<V>>)
  {
    forall x, y :: x in items && y in items && x.Field? && y.Field? && x.name.Some? && x.name == y.name ==> x == y
  }

  /** With readable elements and unique labels, the lookup returns `v` exactly when `{target, v}` is an element. */
  lemma {:induction false} LookupByMembership<V>(items: seq<Item<V>>, target: string, v: V)
    requires Readable(items) && UniqueLabels(items)
    ensures GetFieldValueByLabel(items, target).Returns?
    ensures GetFieldValueByLabel(items, target) == Returns(Some(v)) <==> Field(Some(target), v) in items
  {
    if items != [] {
      var tail := items[1..];
      assert forall x :: x in tail ==> x in items;
      LookupByMembership(tail, target, v);
      if !HasLabel(items[0], target) {
        assert Field(Some(target), v) in items <==> Field(Some(target), v) in tail by {
          assert items == [items[0]] + tail;
        }
      }
    }
  }

  /**
    When the elements are readable and their labels unique, reordering them changes no lookup:
    the answer for a label does not depend on the order in which the form sent its fields.
   */
  lemma PermutedFieldsGiveSameValue<V>(a: seq<Item<V>>, b: seq<Item<V>>, target: string)
    requires multiset(a) == multiset(b)
    requires Readable(a) && UniqueLabels(a)
    ensures GetFieldValueByLabel(a, target) == GetFieldValueByLabel(b, target)
  {
    forall x
      ensures x in a <==> x in b
    {
      assert x in a <==> x in multiset(a);
      assert x in b <==> x in multiset(b);
    }
    ReadableItemsNeverThrow(a, target);
    ReadableItemsNeverThrow(b, target);
    var ra := GetFieldValueByLabel(a, target);
    var rb := GetFieldValueByLabel(b, target);
    if ra.result.Some? {
      LookupByMembership(a, target, ra.result.value);
      LookupByMembership(b, target, ra.result.value);
    } else if rb.result.Some? {
      LookupByMembership(a, target, rb.result.value);
      LookupByMembership(b, target, rb.result.value);
    }
  }

  /** Matching is exact: a label differing only in case or in an accent is not a match. */
  lemma LabelsAreCaseAndAccentSensitive<V>(v: V, w: V)
    ensures GetFieldValueByLabel([Field(Some("Nombre"), v)], "nombre") == Returns(None)
    ensures GetFieldValueByLabel([Field(Some("Numero celular"), v)], "Número celular") == Returns(None)
    ensures GetFieldValueByLabel([Field(Some("Color favorito"), w), Field(Some("Color Favorito"), v)], "Color Favorito")
      == Returns(Some(v))
  {
  }
}
