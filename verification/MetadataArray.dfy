/** The native extension's two-pass flattening of a metadata object into a
    grpc_metadata_array, and the regrouping of a received array into an object. Which keys
    are binary is core's decision, so it is a parameter. `P` is the byte content of a
    slice. */
module MetadataArray {

  datatype Item<P> = JsString(content: P) | JsBuffer(content: P) | JsOther

  datatype PropertyValue<P> = JsArray(items: seq<Item<P>>) | NotArray

  /** An own property of the metadata object. */
  datatype Property<P> = Property(key: string, value: PropertyValue<P>)

  datatype Keyed<P> = Keyed(key: string, item: Item<P>)

  datatype Element<P> = Element(key: string, content: P)

  ghost predicate AllArrays<P>(props: seq<Property<P>>)
  {
    forall i :: 0 <= i < |props| ==> props[i].value.JsArray?
  }

  function Tagged<P>(key: string, items: seq<Item<P>>): (r: seq<Keyed<P>>)
    ensures |r| == |items|
    ensures forall i :: 0 <= i < |r| ==> r[i] == Keyed(key, items[i])
  {
    seq(|items|, i requires 0 <= i < |items| => Keyed(key, items[i]))
  }

  /** All the items in order: properties in turn, each list in turn. */
  function AllItems<P>(props: seq<Property<P>>): (r: seq<Keyed<P>>)
  {
    if props == [] then []
    else
      var last := props[|props| - 1];
      AllItems(props[..|props| - 1]) + if last.value.JsArray? then Tagged(last.key, last.value.items) else []
  }

  lemma {:induction false} AllItemsPrefix<P>(props: seq<Property<P>>, n: nat)
    requires n <= |props|
    ensures AllItems(props[..n]) <= AllItems(props)
    decreases |props|
  {
    if n == |props| {
      assert props[..n] == props;
    } else {
      AllItemsPrefix(props[..|props| - 1], n);
      assert props[..|props| - 1][..n] == props[..n];
    }
  }

  /** The given values of a key are in `all`, from position `start` on. */
  ghost predicate SitsAt<P>(all: seq<Keyed<P>>, start: nat, key: string, values: seq<Item<P>>)
  {
    start + |values| <= |all| && forall j :: 0 <= j < |values| ==> all[start + j] == Keyed(key, values[j])
  }

  lemma SitsAfter<P>(before: seq<Keyed<P>>, key: string, items: seq<Item<P>>, all: seq<Keyed<P>>)
    requires before + Tagged(key, items) <= all
    ensures SitsAt(all, |before|, key, items)
  {
    forall j | 0 <= j < |items| ensures all[|before| + j] == Keyed(key, items[j]) {
      assert all[|before| + j] == (before + Tagged(key, items))[|before| + j];
    }
  }

  /** Where the items of property i sit. */
  lemma ItemsOfProperty<P>(props: seq<Property<P>>, i: nat)
    requires i < |props| && props[i].value.JsArray?
    ensures var items, start := props[i].value.items, |AllItems(props[..i])|;
      && |AllItems(props[..i + 1])| == start + |items|
      && SitsAt(AllItems(props), start, props[i].key, items)
  {
    var items, before := props[i].value.items, AllItems(props[..i]);
    assert AllItems(props[..i + 1]) == before + Tagged(props[i].key, items) by {
      assert props[..i + 1][..i] == props[..i];
    }
    hide AllItems, SitsAt;
    AllItemsPrefix(props, i + 1);
    SitsAfter(before, props[i].key, items, AllItems(props));
  }

  /** Buffers under binary keys, strings under the others. */
  predicate Fits<P>(isBinary: string -> bool, k: Keyed<P>)
  {
    if isBinary(k.key) then k.item.JsBuffer? else k.item.JsString?
  }

  ghost predicate WellTyped<P>(isBinary: string -> bool, props: seq<Property<P>>)
  {
    AllArrays(props) && forall i :: 0 <= i < |AllItems(props)| ==> Fits(isBinary, AllItems(props)[i])
  }

  /** The elements are exactly the given items, all of the right kind. */
  ghost predicate Stored<P>(isBinary: string -> bool, elements: seq<Element<P>>, items: seq<Keyed<P>>)
  {
    && |elements| == |items|
    && forall i :: 0 <= i < |items| ==>
         Fits(isBinary, items[i]) && elements[i] == Element(items[i].key, items[i].item.content)
  }

  /** What the right kind is, on the smallest object that shows it: a buffer exactly under a
      binary key, a string exactly under any other, and a list in any case. */
  lemma RightKind<P>(isBinary: string -> bool, key: string, item: Item<P>)
    ensures WellTyped(isBinary, [Property(key, JsArray([item]))]) <==>
      if isBinary(key) then item.JsBuffer? else item.JsString?
    ensures !WellTyped<P>(isBinary, [Property(key, NotArray)])
  {
    var props := [Property(key, JsArray([item]))];
    assert props[..0] == [];
    assert AllItems(props) == [Keyed(key, item)];
    assert AllItems(props)[0] == Keyed(key, item);
    var odd: seq<Property<P>> := [Property(key, NotArray)];
    assert odd[0].value.NotArray?;
  }

  /** CreateMetadataArray. The array is allocated between the passes, so a write past its
      capacity would be an error here. */
  method CreateMetadataArray<P(0)>(isBinary: string -> bool, props: seq<Property<P>>)
      returns (ok: bool, metadata: array<Element<P>>, count: nat, capacity: nat)
    ensures ok <==> WellTyped(isBinary, props)
    ensures count <= metadata.Length
    ensures ok ==> count == capacity == metadata.Length && Stored(isBinary, metadata[..], AllItems(props))
    // A failure leaves behind exactly the items before the first offending one.
    ensures !ok ==> count <= |AllItems(props)| && Stored(isBinary, metadata[..count], AllItems(props)[..count])
    ensures !ok && AllArrays(props) ==> count < |AllItems(props)| && !Fits(isBinary, AllItems(props)[count])
  {
    metadata, count := new Element<P>[0], 0;
    ok, capacity := Capacity(props);
    if !ok {
      assert metadata[..0] == [] && AllItems(props)[..0] == [];
      return;
    }
    metadata := new Element<P>[capacity];
    hide AllItems, Stored, Fits;
    ok, count := StoreAll(isBinary, props, metadata);
    assert metadata[..metadata.Length] == metadata[..];
    assert AllItems(props)[..|AllItems(props)|] == AllItems(props);
    if ok {
      StoredFits(isBinary, props, metadata[..]);
    }
  }

  /** The second pass. */
  method StoreAll<P>(isBinary: string -> bool, props: seq<Property<P>>, metadata: array<Element<P>>)
      returns (ok: bool, count: nat)
    requires AllArrays(props) && metadata.Length == |AllItems(props)|
    modifies metadata
    ensures count <= metadata.Length && Stored(isBinary, metadata[..count], AllItems(props)[..count])
    ensures ok ==> count == metadata.Length
    ensures !ok ==> count < metadata.Length && !Fits(isBinary, AllItems(props)[count])
  {
    ghost var all := AllItems(props);
    count := 0;
    assert AllItems(props[..0]) == [] && Stored(isBinary, metadata[..0], all[..0]);
    hide AllItems, Stored, Fits, SitsAt;
    for i := 0 to |props|
      invariant metadata.Length == |all|
      invariant count == |AllItems(props[..i])| <= metadata.Length
      invariant Stored(isBinary, metadata[..count], all[..count])
    {
      ItemsOfProperty(props, i);
      ok, count := StoreList(isBinary, props[i].key, props[i].value.items, metadata, count, all);
      if !ok { return; }
    }
    assert props[..|props|] == props;
    ok := true;
  }

  /** The inner loop of the second pass, over the values of one key. */
  method StoreList<P>(isBinary: string -> bool, key: string, values: seq<Item<P>>,
                      metadata: array<Element<P>>, start: nat, ghost all: seq<Keyed<P>>)
      returns (ok: bool, count: nat)
    requires metadata.Length == |all| && SitsAt(all, start, key, values)
    requires Stored(isBinary, metadata[..start], all[..start])
    modifies metadata
    ensures count <= metadata.Length && Stored(isBinary, metadata[..count], all[..count])
    ensures ok ==> count == start + |values|
    ensures !ok ==> count < |all| && !Fits(isBinary, all[count])
  {
    count := start;
    for j := 0 to |values|
      invariant count == start + j
      invariant Stored(isBinary, metadata[..count], all[..count])
    {
      assert all[start + j] == Keyed(key, values[j]);
      if isBinary(key) {
        if !values[j].JsBuffer? { return false, count; }
      } else {
        if !values[j].JsString? { return false, count; }
      }
      metadata[count] := Element(key, values[j].content);
      count := count + 1;
    }
    ok := true;
  }

  lemma StoredFits<P>(isBinary: string -> bool, props: seq<Property<P>>, elements: seq<Element<P>>)
    requires AllArrays(props) && Stored(isBinary, elements, AllItems(props))
    ensures WellTyped(isBinary, props)
  {}

  /** The first pass. */
  method Capacity<P>(props: seq<Property<P>>) returns (ok: bool, capacity: nat)
    ensures ok <==> AllArrays(props)
    ensures ok ==> capacity == |AllItems(props)|
  {
    capacity := 0;
    for i := 0 to |props|
      invariant AllArrays(props[..i])
      invariant capacity == |AllItems(props[..i])|
    {
      assert props[..i + 1][..i] == props[..i];
      if props[i].value.NotArray? { return false, capacity; }
      capacity := capacity + |props[i].value.items|;
    }
    assert props[..|props|] == props;
    ok := true;
  }

  // ---- regrouping ----

  function At<P>(m: map<string, seq<Item<P>>>, k: string): (r: seq<Item<P>>)
  {
    if k in m then m[k] else []
  }

  /** The kind of a received value is read off its key. */
  function Received<P>(isBinary: string -> bool, e: Element<P>): (r: Item<P>)
  {
    if isBinary(e.key) then JsBuffer(e.content) else JsString(e.content)
  }

  /** The received values under one key, in order. */
  function Under<P>(isBinary: string -> bool, elements: seq<Element<P>>, k: string): (r: seq<Item<P>>)
  {
    if elements == [] then []
    else
      var last := elements[|elements| - 1];
      Under(isBinary, elements[..|elements| - 1], k) + if last.key == k then [Received(isBinary, last)] else []
  }

  /** Assigning to this key of a plain object replaces its prototype and adds no property. */
  const PROTO := "__proto__"

  /** Each key that occurs has all its values in order and no others; only the values under
      `__proto__` are not among the object's own properties. */
  ghost predicate Regrouped<P>(isBinary: string -> bool, elements: seq<Element<P>>, grouped: map<string, seq<Item<P>>>)
  {
    && (forall k :: At(grouped, k) == if k == PROTO then [] else Under(isBinary, elements, k))
    && (forall k :: k in grouped ==> grouped[k] != [])
  }

  /** ParseMetadata; `prototype` is the array that has become the object's prototype. What
      is inherited from it is never an array, so it does not disturb the other keys. */
  method ParseMetadata<P>(isBinary: string -> bool, elements: array<Element<P>>, length: nat)
      returns (grouped: map<string, seq<Item<P>>>, prototype: seq<Item<P>>)
    requires length <= elements.Length
    ensures Regrouped(isBinary, elements[..length], grouped)
    ensures prototype == Under(isBinary, elements[..length], PROTO)
  {
    grouped, prototype := map[], [];
    for i := 0 to length
      invariant Regrouped(isBinary, elements[..i], grouped)
      invariant prototype == Under(isBinary, elements[..i], PROTO)
    {
      var elem := elements[i];
      assert elements[..i + 1][..i] == elements[..i];
      var value := Received(isBinary, elem);
      if elem.key == PROTO {
        prototype := prototype + [value];
      } else {
        var values := if elem.key in grouped then grouped[elem.key] else [];
        grouped := grouped[elem.key := values + [value]];
      }
    }
  }

  function Selected<P>(items: seq<Keyed<P>>, k: string): (r: seq<Item<P>>)
  {
    if items == [] then []
    else
      var last := items[|items| - 1];
      Selected(items[..|items| - 1], k) + if last.key == k then [last.item] else []
  }

  lemma {:induction false} UnderStored<P>(isBinary: string -> bool, elements: seq<Element<P>>,
                                          items: seq<Keyed<P>>, k: string)
    requires Stored(isBinary, elements, items)
    ensures Under(isBinary, elements, k) == Selected(items, k)
    decreases |items|
  {
    if items == [] {
    } else {
      var n := |items| - 1;
      UnderStored(isBinary, elements[..n], items[..n], k);
      assert Fits(isBinary, items[n]);
    }
  }

  lemma SelectedSnoc<P>(items: seq<Keyed<P>>, last: Keyed<P>, k: string)
    ensures Selected(items + [last], k) == Selected(items, k) + if last.key == k then [last.item] else []
  {
    assert (items + [last])[..|items|] == items;
  }

  lemma {:induction false} SelectedTagged<P>(before: seq<Keyed<P>>, key: string, items: seq<Item<P>>, k: string)
    ensures Selected(before + Tagged(key, items), k) == Selected(before, k) + if key == k then items else []
    decreases |items|
  {
    hide Selected;
    if items == [] {
      assert before + Tagged(key, items) == before;
    } else {
      var n := |items| - 1;
      var init, last := Tagged(key, items[..n]), Keyed(key, items[n]);
      assert before + Tagged(key, items) == (before + init) + [last];
      SelectedTagged(before, key, items[..n], k);
      SelectedSnoc(before + init, last, k);
      assert items[..n] + [items[n]] == items;
    }
  }

  ghost predicate DistinctKeys<P>(props: seq<Property<P>>)
  {
    forall i, j :: 0 <= i < j < |props| ==> props[i].key != props[j].key
  }

  ghost predicate Lacks<P>(props: seq<Property<P>>, k: string)
  {
    forall i :: 0 <= i < |props| ==> props[i].key != k
  }

  lemma {:induction false} SelectedAbsent<P>(props: seq<Property<P>>, k: string)
    requires Lacks(props, k)
    ensures Selected(AllItems(props), k) == []
  {
    if props == [] {
    } else {
      var n := |props| - 1;
      SelectedAbsent(props[..n], k);
      if props[n].value.JsArray? {
        SelectedTagged(AllItems(props[..n]), props[n].key, props[n].value.items, k);
      } else {
        assert AllItems(props) == AllItems(props[..n]);
      }
    }
  }

  lemma {:induction false} SelectedPresent<P>(props: seq<Property<P>>, i: nat)
    requires DistinctKeys(props) && i < |props| && props[i].value.JsArray?
    ensures Selected(AllItems(props), props[i].key) == props[i].value.items
    decreases |props|
  {
    var n, k := |props| - 1, props[i].key;
    var before := AllItems(props[..n]);
    if props[n].value.JsArray? {
      SelectedTagged(before, props[n].key, props[n].value.items, k);
    } else {
      assert AllItems(props) == before;
    }
    if i == n {
      SelectedAbsent(props[..n], k);
    } else {
      SelectedPresent(props[..n], i);
    }
  }

  /** The list of one property after flattening and regrouping. */
  lemma RegroupedList<P>(isBinary: string -> bool, props: seq<Property<P>>, elements: seq<Element<P>>,
                         grouped: map<string, seq<Item<P>>>, i: nat)
    requires DistinctKeys(props) && Stored(isBinary, elements, AllItems(props))
    requires Regrouped(isBinary, elements, grouped) && i < |props| && props[i].value.JsArray?
    ensures At(grouped, props[i].key) == if props[i].key == PROTO then [] else props[i].value.items
    ensures props[i].key in grouped <==> At(grouped, props[i].key) != []
  {
    hide Stored, AllItems, Selected, Under, DistinctKeys;
    UnderStored(isBinary, elements, AllItems(props), props[i].key);
    SelectedPresent(props, i);
  }

  /** No key comes from nowhere. */
  lemma RegroupedKey<P>(isBinary: string -> bool, props: seq<Property<P>>, elements: seq<Element<P>>,
                        grouped: map<string, seq<Item<P>>>, k: string)
    requires Stored(isBinary, elements, AllItems(props)) && Regrouped(isBinary, elements, grouped)
    requires k in grouped
    ensures !Lacks(props, k)
  {
    hide Stored, AllItems, Selected, Under, Lacks;
    UnderStored(isBinary, elements, AllItems(props), k);
    assert At(grouped, k) != [];
    if Lacks(props, k) { SelectedAbsent(props, k); }
  }

  /** Flattening and regrouping gives back every list but that of `__proto__`, and invents
      no key. So only keys with empty lists are lost, if and only if there is nothing under
      `__proto__`. */
  lemma RegroupFlattened<P>(isBinary: string -> bool, props: seq<Property<P>>, elements: seq<Element<P>>,
                            grouped: map<string, seq<Item<P>>>)
    requires DistinctKeys(props) && AllArrays(props) && Stored(isBinary, elements, AllItems(props))
    requires Regrouped(isBinary, elements, grouped)
    ensures forall i :: 0 <= i < |props| ==>
      At(grouped, props[i].key) == if props[i].key == PROTO then [] else props[i].value.items
    ensures forall k :: k in grouped <==>
      k != PROTO && exists i :: 0 <= i < |props| && props[i].key == k && props[i].value.items != []
    ensures (forall i :: 0 <= i < |props| ==> At(grouped, props[i].key) == props[i].value.items) <==>
            (forall i :: 0 <= i < |props| && props[i].key == PROTO ==> props[i].value.items == [])
  {
    hide Stored, AllItems, Regrouped, DistinctKeys, At;
    forall i | 0 <= i < |props|
      ensures At(grouped, props[i].key) == if props[i].key == PROTO then [] else props[i].value.items
      ensures props[i].key in grouped <==> At(grouped, props[i].key) != []
    {
      RegroupedList(isBinary, props, elements, grouped, i);
    }
    forall k | k in grouped ensures exists i :: 0 <= i < |props| && props[i].key == k {
      RegroupedKey(isBinary, props, elements, grouped, k);
    }
  }

  /** The exception is real: any one value under that key is flattened and then lost. */
  lemma ProtoLost<P>(isBinary: string -> bool, content: P, grouped: map<string, seq<Item<P>>>)
    requires !isBinary(PROTO)
    requires Regrouped(isBinary, [Element(PROTO, content)], grouped)
    ensures WellTyped(isBinary, [Property(PROTO, JsArray([JsString(content)]))])
    ensures Stored(isBinary, [Element(PROTO, content)], AllItems([Property(PROTO, JsArray([JsString(content)]))]))
    ensures grouped == map[]
  {
    var props := [Property(PROTO, JsArray([JsString(content)]))];
    assert props[..0] == [];
    assert AllItems(props) == [Keyed(PROTO, JsString(content))];
    RegroupFlattened(isBinary, props, [Element(PROTO, content)], grouped);
    assert forall k :: k !in grouped;
  }
}
