/** The JSON API source: a decoded response body, the `list_key` path that leads
    to the item list, and how each item becomes `ip:port` entries filed per
    protocol. JSON decoding itself is foreign; a body arrives already decoded. */
module Json {
  import opened Wrappers
  import opened Text
  import opened Protocols

  /** A decoded JSON value. An object keeps its fields in document order. */
  datatype Json =
    | JNull
    | JBool(b: bool)
    | JInt(i: int)
    | JStr(s: string)
    | JArr(elems: seq<Json>)
    | JObj(fields: seq<(string, Json)>)

  /** The `mapping` block of a JSON source's configuration. */
  datatype Mapping = Mapping(listKey: Option<string>, ipKey: string, portKey: string, protocolsKey: string)

  /** One response of the JSON API: a decoded body, a body that is not JSON, or a
      request that raised. */
  datatype JsonResponse = Decoded(data: Json) | DecodeError | TransportError

  /** Python truthiness of a decoded value. */
  predicate Truthy(j: Json) {
    match j
    case JNull => false
    case JBool(b) => b
    case JInt(i) => i != 0
    case JStr(s) => s != []
    case JArr(e) => e != []
    case JObj(f) => f != []
  }

  /** No field has key `key`. */
  predicate KeyFree(fields: seq<(string, Json)>, key: string)
    decreases |fields|
  {
    fields == [] || (fields[|fields| - 1].0 != key && KeyFree(fields[..|fields| - 1], key))
  }

  lemma {:induction false} KeyFreeAt(fields: seq<(string, Json)>, key: string)
    ensures KeyFree(fields, key) <==> forall j :: 0 <= j < |fields| ==> fields[j].0 != key
    decreases |fields|
  {
    if fields != [] {
      var init := fields[..|fields| - 1];
      KeyFreeAt(init, key);
      assert forall j :: 0 <= j < |init| ==> init[j] == fields[j];
    }
  }

  /** `d.get(key)`; a decoder keeps the last of duplicated keys, so the value is
      that of a field with the key after which no field has it. */
  function Get(fields: seq<(string, Json)>, key: string): (r: Option<Json>)
    ensures r.None? <==> KeyFree(fields, key)
    ensures r.Some? ==> exists k :: 0 <= k < |fields| && fields[k] == (key, r.value) && KeyFree(fields[k + 1..], key)
    decreases |fields|
  {
    if fields == [] then None
    else if fields[|fields| - 1].0 == key then
      assert fields[|fields|..] == [];
      Some(fields[|fields| - 1].1)
    else
      var init := fields[..|fields| - 1];
      var r := Get(init, key);
      assert r.Some? ==> exists k :: 0 <= k < |fields| && fields[k] == (key, r.value) && KeyFree(fields[k + 1..], key) by {
        if r.Some? {
          var k :| 0 <= k < |init| && init[k] == (key, r.value) && KeyFree(init[k + 1..], key);
          assert fields[k + 1..][..|fields[k + 1..]| - 1] == init[k + 1..];
          assert fields[k] == init[k];
        }
      }
      r
  }

  /** A field appended last decides its own key and no other. */
  lemma GetSnoc(fields: seq<(string, Json)>, x: (string, Json), key: string)
    ensures Get(fields + [x], key) == if x.0 == key then Some(x.1) else Get(fields, key)
  {
    var f := fields + [x];
    assert f[..|f| - 1] == fields;
  }

  /** A field that was given a truthy value: the opposite of `not d.get(key)`. */
  predicate Present(v: Option<Json>) {
    v.Some? && Truthy(v.value)
  }

  /** The keys of an object in iteration order (first occurrence, no repeats). */
  function Keys(fields: seq<(string, Json)>): seq<string>
    decreases |fields|
  {
    if fields == [] then []
    else
      var init := Keys(fields[..|fields| - 1]);
      var key := fields[|fields| - 1].0;
      if key in init then init else init + [key]
  }

  /* --------------------------------------------------------- list_key path */

  /** The keys of `list_key`: none when it is absent or empty, otherwise its
      dot-separated pieces. */
  function ListPath(listKey: Option<string>): seq<string> {
    match listKey
    case None => []
    case Some(k) => if k == [] then [] else SplitSep(k, '.')
  }

  /** Following `keys` from `items`: a missing key yields `[]`, and meeting a
      value that is not an object before the path ends yields `[]`. */
  function Navigate(items: Json, keys: seq<string>): Json
    decreases |keys|
  {
    if keys == [] then items
    else
      match items
      case JObj(f) =>
        var next := match Get(f, keys[0]) case Some(v) => v case None => JArr([]);
        Navigate(next, keys[1..])
      case _ => JArr([])
  }

  /** The items of a page: the whole body, or what `list_key` leads to. */
  function ItemsOf(data: Json, listKey: Option<string>): Json {
    Navigate(data, ListPath(listKey))
  }

  /** How a path lookup goes: an empty path stops at once, a non-object or a
      missing key ends it with `[]`, and a key that is there descends into its
      value. */
  lemma NavigateEdgeCases(items: Json, key: string, rest: seq<string>)
    ensures Navigate(items, []) == items
    ensures !items.JObj? ==> Navigate(items, [key] + rest) == JArr([])
    ensures items.JObj? && Get(items.fields, key).None? ==> Navigate(items, [key] + rest) == JArr([])
    ensures items.JObj? && Get(items.fields, key).Some? ==>
              Navigate(items, [key] + rest) == Navigate(Get(items.fields, key).value, rest)
  {
    assert ([key] + rest)[1..] == rest;
  }

  /** Following a path in two stages is following it at once. */
  lemma {:induction false} NavigateAppend(items: Json, a: seq<string>, b: seq<string>)
    ensures Navigate(items, a + b) == Navigate(Navigate(items, a), b)
    decreases |a|
  {
    if a == [] {
      assert a + b == b;
    } else {
      assert (a + b)[0] == a[0];
      assert (a + b)[1..] == a[1..] + b;
      match items
      case JObj(f) =>
        var next := match Get(f, a[0]) case Some(v) => v case None => JArr([]);
        NavigateAppend(next, a[1..], b);
      case _ =>
    }
  }

  /** A `list_key` written as dot-joined keys is followed one key at a time. */
  lemma ListKeyFollowsKeys(data: Json, keys: seq<string>)
    requires |keys| >= 1 && (|keys| >= 2 || keys[0] != [])
    requires forall k :: k in keys ==> '.' !in k
    ensures ItemsOf(data, Some(JoinSep(keys, '.'))) == Navigate(data, keys)
  {
    SplitJoin(keys, '.');
    if |keys| >= 2 {
      assert |JoinSep(keys, '.')| > 0;
    }
  }

  /** An absent or empty `list_key` takes the whole body as the item list. */
  lemma NoListKeyIsWholeBody(data: Json)
    ensures ItemsOf(data, None) == data
    ensures ItemsOf(data, Some("")) == data
  {
  }

  /* ------------------------------------------------------------ one item */

  function DigitChar(d: nat): char
    requires d < 10
  {
    "0123456789"[d]
  }

  function NatToString(n: nat): string
    decreases n
  {
    if n < 10 then [DigitChar(n)] else NatToString(n / 10) + [DigitChar(n % 10)]
  }

  /** `f"{v}"` of a decoded value. */
  function Format(j: Json): string {
    match j
    case JStr(s) => s
    case JInt(i) => if i < 0 then "-" + NatToString(-i) else NatToString(i)
    case JBool(b) => if b then "True" else "False"
    case JNull => "None"
    case JArr(_) => "[...]"
    case JObj(_) => "{...}"
  }

  /** The elements of an array when they are all strings. */
  function Strings(xs: seq<Json>): (r: Option<seq<string>>)
    ensures r.Some? ==> |r.value| == |xs| && forall k :: 0 <= k < |xs| ==> xs[k] == JStr(r.value[k])
    ensures r.None? ==> exists k :: 0 <= k < |xs| && !xs[k].JStr?
    decreases |xs|
  {
    if xs == [] then Some([])
    else if !xs[0].JStr? then None
    else
      match Strings(xs[1..])
      case None => None
      case Some(rest) => Some([xs[0].s] + rest)
  }

  /** What `for proto in protocols: proto.lower()` iterates over: a missing field
      is `[]`, a string is a one-element list, an object yields its keys; `None`
      when the loop raises (a non-iterable value or a non-string element). */
  function ProtocolStrings(v: Option<Json>): Option<seq<string>> {
    match v
    case None => Some([])
    case Some(JStr(s)) => Some([s])
    case Some(JArr(xs)) => Strings(xs)
    case Some(JObj(f)) => Some(Keys(f))
    case Some(_) => None
  }

  /** How one element of the item list is handled. */
  datatype ItemResult =
    | NotAnObject            // `item.get` raises: the whole page is lost
    | Skipped                // ip or port missing or empty: `continue`
    | BadProtocols           // iterating the protocols field raises
    | Entry(proxy: string, protocols: seq<string>)

  function Item(item: Json, m: Mapping): (r: ItemResult)
    ensures r.NotAnObject? <==> !item.JObj?
    ensures r.Skipped? <==>
              item.JObj? && (!Present(Get(item.fields, m.ipKey)) || !Present(Get(item.fields, m.portKey)))
    ensures r.Entry? ==>
              && item.JObj?
              && Present(Get(item.fields, m.ipKey)) && Present(Get(item.fields, m.portKey))
              && r.proxy == Format(Get(item.fields, m.ipKey).value) + ":" + Format(Get(item.fields, m.portKey).value)
  {
    match item
    case JObj(f) => ItemOf(Get(f, m.ipKey), Get(f, m.portKey), ProtocolStrings(Get(f, m.protocolsKey)))
    case _ => NotAnObject
  }

  /** An object item, from its ip and port fields and its protocol strings. */
  function ItemOf(ip: Option<Json>, port: Option<Json>, protocols: Option<seq<string>>): ItemResult {
    if !Present(ip) || !Present(port) then Skipped
    else
      match protocols
      case None => BadProtocols
      case Some(ps) => Entry(Format(ip.value) + ":" + Format(port.value), ps)
  }

  /** An object item with a truthy ip and port, by the shape of its protocols
      field: absent gives no protocol strings, a string gives itself, an object
      gives its keys, an array gives its elements in order unless one is not a
      string, and `null`, a number or a boolean raises. */
  lemma ItemProtocols(f: seq<(string, Json)>, m: Mapping)
    ensures var ip, port, v := Get(f, m.ipKey), Get(f, m.portKey), Get(f, m.protocolsKey);
            Present(ip) && Present(port) ==>
              var proxy, r := Format(ip.value) + ":" + Format(port.value), Item(JObj(f), m);
              && (v.None? ==> r == Entry(proxy, []))
              && (v.Some? && v.value.JStr? ==> r == Entry(proxy, [v.value.s]))
              && (v.Some? && v.value.JObj? ==> r == Entry(proxy, Keys(v.value.fields)))
              && (v.Some? && (v.value.JNull? || v.value.JInt? || v.value.JBool?) ==> r == BadProtocols)
              && (v.Some? && v.value.JArr? ==>
                    && (r == BadProtocols <==> exists k :: 0 <= k < |v.value.elems| && !v.value.elems[k].JStr?)
                    && (r != BadProtocols ==>
                          && r.Entry? && r.proxy == proxy && |r.protocols| == |v.value.elems|
                          && forall k :: 0 <= k < |r.protocols| ==> v.value.elems[k] == JStr(r.protocols[k])))
  {
    var v := Get(f, m.protocolsKey);
    assert Item(JObj(f), m) == ItemOf(Get(f, m.ipKey), Get(f, m.portKey), ProtocolStrings(v));
    if v.Some? && v.value.JArr? {
      assert ProtocolStrings(v) == Strings(v.value.elems);
    }
  }

  /** Iterating an object yields each of its keys once, and nothing else. */
  lemma {:induction false} KeysMembers(fields: seq<(string, Json)>)
    ensures forall x :: x in Keys(fields) <==> !KeyFree(fields, x)
    ensures forall i, j :: 0 <= i < j < |Keys(fields)| ==> Keys(fields)[i] != Keys(fields)[j]
    decreases |fields|
  {
    if fields != [] {
      KeysMembers(fields[..|fields| - 1]);
    }
  }

  /** How many of the protocol strings are filed under `p`. */
  function MatchCount(ps: seq<string>, p: Protocol): nat
    decreases |ps|
  {
    if ps == [] then 0 else (if Classify(ps[0]) == Some(p) then 1 else 0) + MatchCount(ps[1..], p)
  }

  /** `n` copies of `x`; the ensures is there so that proofs about buckets can
      use it without unfolding the body. */
  function Repeat(x: string, n: nat): (r: seq<string>)
    ensures |r| == n && forall k :: 0 <= k < n ==> r[k] == x
  {
    seq(n, _ => x)
  }

  /** What one entry adds to the page's buckets: its proxy once per protocol
      string, into that string's bucket (the loop over `protocols`). */
  function EntryCollected(proxy: string, ps: seq<string>): (c: Collected)
    ensures forall p :: c.Get(p) == Repeat(proxy, MatchCount(ps, p))
    decreases |ps|
  {
    if ps == [] then NothingCollected
    else
      var init := EntryCollected(proxy, ps[..|ps| - 1]);
      var last := ps[|ps| - 1];
      SameClassification(last);
      MatchCountSnoc(ps);
      match JsonClassify(last)
      case Some(p) => init.Add(p, proxy)
      case None => init
  }

  /** `MatchCount` counted from the back. */
  lemma {:induction false} MatchCountSnoc(ps: seq<string>)
    requires ps != []
    ensures forall p :: MatchCount(ps, p)
              == MatchCount(ps[..|ps| - 1], p) + (if Classify(ps[|ps| - 1]) == Some(p) then 1 else 0)
    decreases |ps|
  {
    if |ps| > 1 {
      MatchCountSnoc(ps[1..]);
      assert ps[1..][..|ps[1..]| - 1] == ps[..|ps| - 1][1..];
    }
  }

  /** Both halves succeed, joined; or the whole fails. */
  function Both(a: Option<Collected>, b: Option<Collected>): Option<Collected> {
    if a.Some? && b.Some? then Some(a.value.Then(b.value)) else None
  }

  /** Adding one item's outcome in front of the rest of the list's. */
  function Step(it: ItemResult, rest: Option<Collected>): Option<Collected> {
    match it
    case NotAnObject => None
    case BadProtocols => None
    case Skipped => rest
    case Entry(proxy, ps) => Both(Some(EntryCollected(proxy, ps)), rest)
  }

  /** The buckets of a whole item list, or `None` when an item makes the page raise. */
  function CollectItems(xs: seq<Json>, m: Mapping): Option<Collected>
    decreases |xs|
  {
    if xs == [] then Some(NothingCollected) else Step(Item(xs[0], m), CollectItems(xs[1..], m))
  }

  lemma StepBoth(it: ItemResult, x: Option<Collected>, y: Option<Collected>)
    ensures Step(it, Both(x, y)) == Both(Step(it, x), y)
  {
    match it
    case Entry(proxy, ps) =>
      if x.Some? && y.Some? {
        ThenAssoc(EntryCollected(proxy, ps), x.value, y.value);
      }
    case _ =>
  }

  /** An item list is processed piecewise: any failure fails the page, otherwise
      the buckets of the pieces are concatenated. */
  lemma {:induction false} CollectItemsAppend(a: seq<Json>, b: seq<Json>, m: Mapping)
    ensures CollectItems(a + b, m) == Both(CollectItems(a, m), CollectItems(b, m))
    decreases |a|
  {
    if a == [] {
      assert a + b == b;
      var cb := CollectItems(b, m);
      if cb.Some? {
        assert NothingCollected.Then(cb.value) == cb.value;
      }
    } else {
      assert (a + b)[0] == a[0];
      assert (a + b)[1..] == a[1..] + b;
      CollectItemsAppend(a[1..], b, m);
      StepBoth(Item(a[0], m), CollectItems(a[1..], m), CollectItems(b, m));
    }
  }

  /** An item whose handling raises: it loses the whole page. */
  predicate Raises(it: ItemResult) {
    it.NotAnObject? || it.BadProtocols?
  }

  /** Reference reading of an item list: every entry's proxy, once per protocol
      string naming `p`, in item order. */
  function JsonFiled(xs: seq<Json>, m: Mapping, p: Protocol): seq<string>
    decreases |xs|
  {
    if xs == [] then []
    else
      var it := Item(xs[0], m);
      (if it.Entry? then Repeat(it.proxy, MatchCount(it.protocols, p)) else []) + JsonFiled(xs[1..], m, p)
  }

  /** A page of items fails exactly when one of its items raises. */
  lemma {:induction false} RaisingItemFailsPage(xs: seq<Json>, m: Mapping)
    ensures CollectItems(xs, m).None? <==> exists i :: 0 <= i < |xs| && Raises(Item(xs[i], m))
    decreases |xs|
  {
    if xs != [] {
      RaisingItemFailsPage(xs[1..], m);
      if exists i :: 0 <= i < |xs[1..]| && Raises(Item(xs[1..][i], m)) {
        var i :| 0 <= i < |xs[1..]| && Raises(Item(xs[1..][i], m));
        assert xs[i + 1] == xs[1..][i];
      }
      if (exists i :: 0 <= i < |xs| && Raises(Item(xs[i], m))) && !Raises(Item(xs[0], m)) {
        var i :| 0 <= i < |xs| && Raises(Item(xs[i], m));
        assert i != 0;
        assert xs[1..][i - 1] == xs[i];
      }
    }
  }

  /** When a page is read, each bucket holds exactly the entries filed under it. */
  lemma {:induction false} CollectItemsContent(xs: seq<Json>, m: Mapping, p: Protocol)
    requires CollectItems(xs, m).Some?
    ensures CollectItems(xs, m).value.Get(p) == JsonFiled(xs, m, p)
    decreases |xs|
  {
    if xs != [] {
      var it := Item(xs[0], m);
      var rest := CollectItems(xs[1..], m);
      assert CollectItems(xs, m) == Step(it, rest);
      assert rest.Some?;
      CollectItemsContent(xs[1..], m, p);
      ItemStepContent(it, rest.value, p);
    }
  }

  /** An item that does not make the page raise puts its entries in front of the
      rest of the page's buckets. */
  lemma ItemStepContent(it: ItemResult, rest: Collected, p: Protocol)
    requires Step(it, Some(rest)).Some?
    ensures Step(it, Some(rest)).value.Get(p)
         == (if it.Entry? then Repeat(it.proxy, MatchCount(it.protocols, p)) else []) + rest.Get(p)
  {
  }

  /** An item without a truthy ip or port contributes nothing and breaks nothing. */
  lemma SkippedItemContributesNothing(a: seq<Json>, item: Json, b: seq<Json>, m: Mapping)
    requires Item(item, m).Skipped?
    ensures CollectItems(a + [item] + b, m) == CollectItems(a + b, m)
  {
    CollectItemsAppend(a + [item], b, m);
    CollectItemsAppend(a, [item], m);
    CollectItemsAppend(a, b, m);
    assert CollectItems([item], m) == CollectItems([], m);
    var ca := CollectItems(a, m);
    if ca.Some? {
      assert ca.value.Then(NothingCollected) == ca.value;
    }
  }

  /** A string-valued protocols field behaves like a one-element list holding it:
      two objects that agree on ip and port and differ only in that, give the
      same item. */
  lemma StringProtocolsLikeList(f1: seq<(string, Json)>, f2: seq<(string, Json)>, s: string, m: Mapping)
    requires Get(f1, m.ipKey) == Get(f2, m.ipKey) && Get(f1, m.portKey) == Get(f2, m.portKey)
    requires Get(f1, m.protocolsKey) == Some(JStr(s)) && Get(f2, m.protocolsKey) == Some(JArr([JStr(s)]))
    ensures Item(JObj(f1), m) == Item(JObj(f2), m)
  {
    OneString(s);
    assert ProtocolStrings(Get(f1, m.protocolsKey)) == ProtocolStrings(Get(f2, m.protocolsKey));
  }

  lemma OneString(s: string)
    ensures Strings([JStr(s)]) == Some([s])
  {
    var xs := [JStr(s)];
    assert xs[1..] == [];
    assert Strings(xs[1..]) == Some([]);
    assert [xs[0].s] + [] == [s];
  }

  /* ------------------------------------------------------------ one page */

  /** What one response of the JSON API amounts to. Falsy items end the crawl; a
      failed request, an undecodable body, a truthy non-list item value (iterating
      it raises) or an item that raises fail the page; otherwise the buckets. */
  function JsonPage(resp: JsonResponse, m: Mapping): (r: PageOutcome)
    ensures r.Exhausted? <==> resp.Decoded? && !Truthy(ItemsOf(resp.data, m.listKey))
    ensures r.Parsed? <==>
              resp.Decoded? && ItemsOf(resp.data, m.listKey).JArr?
              && ItemsOf(resp.data, m.listKey).elems != []
              && CollectItems(ItemsOf(resp.data, m.listKey).elems, m).Some?
    ensures r.Failed? <==>
              !resp.Decoded?
              || (Truthy(ItemsOf(resp.data, m.listKey)) && !ItemsOf(resp.data, m.listKey).JArr?)
              || (ItemsOf(resp.data, m.listKey).JArr?
                  && exists i :: 0 <= i < |ItemsOf(resp.data, m.listKey).elems|
                                 && Raises(Item(ItemsOf(resp.data, m.listKey).elems[i], m)))
    ensures r.Parsed? ==> forall p :: r.batch.Get(p) == JsonFiled(ItemsOf(resp.data, m.listKey).elems, m, p)
  {
    match resp
    case Decoded(data) =>
      var items := ItemsOf(data, m.listKey);
      if !Truthy(items) then Exhausted
      else if items.JArr? then
        RaisingItemFailsPage(items.elems, m);
        match CollectItems(items.elems, m)
        case Some(c) =>
          assert forall p :: c.Get(p) == JsonFiled(items.elems, m, p) by {
            forall p
              ensures c.Get(p) == JsonFiled(items.elems, m, p)
            {
              CollectItemsContent(items.elems, m, p);
            }
          }
          Parsed(c)
        case None => Failed
      else Failed
    case DecodeError => Failed
    case TransportError => Failed
  }
}
