/** The request vectorizer: the canonical text form of a request (flattened
    body and query parameters, headers, path and method, sorted and joined)
    and the degenerate return paths of `fit_transform`. The TF-IDF fit itself
    is a parameter. */
module Vectorizer {
  import opened Text
  import opened JsonValue
  import opened Wrappers

  /** One flattened `key: value` entry. */
  type Item = (string, string)

  // ---------------------------------------------------------------------
  // Python dicts built from item lists

  function Keys(d: seq<Item>): set<string> {
    set i | 0 <= i < |d| :: d[i].0
  }

  predicate KeysDistinct(d: seq<Item>) {
    forall i, j :: 0 <= i < j < |d| ==> d[i].0 != d[j].0
  }

  /** The value the last item with key `k` gives, if any. */
  function LastValue(items: seq<Item>, k: string): Option<string> {
    if |items| == 0 then None
    else if items[|items| - 1].0 == k then Some(items[|items| - 1].1)
    else LastValue(items[..|items| - 1], k)
  }

  /** `d[k] = v`: overwrite the entry for `k` in place, or append one. */
  function Put(d: seq<Item>, kv: Item): seq<Item> {
    if |d| == 0 then [kv]
    else if d[0].0 == kv.0 then [kv] + d[1..]
    else [d[0]] + Put(d[1..], kv)
  }

  /** Python's `dict(items)`. */
  function DictOf(items: seq<Item>): seq<Item> {
    if |items| == 0 then [] else Put(DictOf(items[..|items| - 1]), items[|items| - 1])
  }

  lemma {:induction false} PutProps(d: seq<Item>, kv: Item)
    requires KeysDistinct(d)
    ensures KeysDistinct(Put(d, kv))
    ensures Keys(Put(d, kv)) == Keys(d) + {kv.0}
    ensures LastValue(Put(d, kv), kv.0) == Some(kv.1)
    ensures forall k :: k != kv.0 ==> LastValue(Put(d, kv), k) == LastValue(d, k)
  {
    if |d| == 0 {
      KeysCons(kv, []);
    } else if d[0].0 == kv.0 {
      PutFrontProps(d, kv);
    } else {
      PutProps(d[1..], kv);
      PutLaterProps(d, kv);
    }
  }

  /** `d[k] = v` where the first entry holds `k`. */
  lemma PutFrontProps(d: seq<Item>, kv: Item)
    requires KeysDistinct(d) && 0 < |d| && d[0].0 == kv.0
    ensures KeysDistinct(Put(d, kv))
    ensures Keys(Put(d, kv)) == Keys(d) + {kv.0}
    ensures LastValue(Put(d, kv), kv.0) == Some(kv.1)
    ensures forall k :: k != kv.0 ==> LastValue(Put(d, kv), k) == LastValue(d, k)
  {
    var r := Put(d, kv);
    assert r == [kv] + d[1..];
    assert d == [d[0]] + d[1..];
    assert Keys(r) == Keys(d) + {kv.0} by {
      KeysCons(kv, d[1..]);
      KeysCons(d[0], d[1..]);
    }
    forall k | k != kv.0 ensures LastValue(r, k) == LastValue(d, k) {
      LastValueCons(kv, d[1..], k);
      LastValueCons(d[0], d[1..], k);
    }
    LastValueDistinct(r, 0);
  }

  /** `d[k] = v` where the first entry holds another key, given the
      properties for the rest of the dict. */
  lemma PutLaterProps(d: seq<Item>, kv: Item)
    requires KeysDistinct(d) && 0 < |d| && d[0].0 != kv.0
    requires KeysDistinct(Put(d[1..], kv))
    requires Keys(Put(d[1..], kv)) == Keys(d[1..]) + {kv.0}
    requires LastValue(Put(d[1..], kv), kv.0) == Some(kv.1)
    requires forall k :: k != kv.0 ==> LastValue(Put(d[1..], kv), k) == LastValue(d[1..], k)
    ensures KeysDistinct(Put(d, kv))
    ensures Keys(Put(d, kv)) == Keys(d) + {kv.0}
    ensures LastValue(Put(d, kv), kv.0) == Some(kv.1)
    ensures forall k :: k != kv.0 ==> LastValue(Put(d, kv), k) == LastValue(d, k)
  {
    var t := Put(d[1..], kv);
    assert Put(d, kv) == [d[0]] + t;
    ConsKeys(d, t, kv.0);
    forall k {
      ConsValue(d, t, kv, k);
    }
  }

  /** Keys after replacing the tail of `d` by `t`, whose keys are those of
      the tail plus `k`. */
  lemma ConsKeys(d: seq<Item>, t: seq<Item>, k: string)
    requires KeysDistinct(d) && 0 < |d| && KeysDistinct(t) && d[0].0 != k
    requires Keys(t) == Keys(d[1..]) + {k}
    ensures KeysDistinct([d[0]] + t)
    ensures Keys([d[0]] + t) == Keys(d) + {k}
  {
    assert d == [d[0]] + d[1..];
    ConsDistinct(d[0], d[1..], t, k);
    KeysCons(d[0], d[1..]);
    KeysCons(d[0], t);
  }

  /** Lookups after replacing the tail of `d` by `t`, which agrees with the
      tail except that `kv.0` maps to `kv.1`. */
  lemma ConsValue(d: seq<Item>, t: seq<Item>, kv: Item, k: string)
    requires 0 < |d| && d[0].0 != kv.0
    requires LastValue(t, kv.0) == Some(kv.1)
    requires k != kv.0 ==> LastValue(t, k) == LastValue(d[1..], k)
    ensures LastValue([d[0]] + t, k) == if k == kv.0 then Some(kv.1) else LastValue(d, k)
  {
    assert d == [d[0]] + d[1..];
    LastValueCons(d[0], t, k);
    LastValueCons(d[0], d[1..], k);
  }

  /** Putting `x` in front of `t`, whose keys are those of `rest` (where `x`'s
      key does not occur) plus another key, keeps the keys distinct. */
  lemma ConsDistinct(x: Item, rest: seq<Item>, t: seq<Item>, k: string)
    requires KeysDistinct([x] + rest) && KeysDistinct(t) && x.0 != k
    requires Keys(t) == Keys(rest) + {k}
    ensures KeysDistinct([x] + t)
  {
    var r := [x] + t;
    assert x.0 !in Keys(rest) by {
      forall i | 0 <= i < |rest| ensures rest[i].0 != x.0 {
        assert ([x] + rest)[0] == x && rest[i] == ([x] + rest)[i + 1];
      }
    }
    forall i, j | 0 <= i < j < |r| ensures r[i].0 != r[j].0 {
      assert r[j] == t[j - 1];
      if i == 0 { assert t[j - 1].0 in Keys(t); } else { assert r[i] == t[i - 1]; }
    }
  }

  lemma KeysCons(x: Item, rest: seq<Item>)
    ensures Keys([x] + rest) == {x.0} + Keys(rest)
  {
    var s := [x] + rest;
    forall k | k in Keys(s) ensures k in {x.0} + Keys(rest) {
      var i :| 0 <= i < |s| && s[i].0 == k;
      if i > 0 { assert rest[i - 1].0 == k; }
    }
    forall k | k in Keys(rest) ensures k in Keys(s) {
      var i :| 0 <= i < |rest| && rest[i].0 == k;
      assert s[i + 1].0 == k;
    }
    assert s[0].0 == x.0;
  }

  /** Looking a key up in a one-item-longer list from the front. */
  lemma {:induction false} LastValueCons(x: Item, rest: seq<Item>, k: string)
    ensures LastValue([x] + rest, k) == if LastValue(rest, k).Some? then LastValue(rest, k) else if x.0 == k then Some(x.1) else None
  {
    if |rest| > 0 {
      assert ([x] + rest)[..|rest|] == [x] + rest[..|rest| - 1];
      LastValueCons(x, rest[..|rest| - 1], k);
    }
  }

  /** In a dict with distinct keys, an entry's key finds that entry's value. */
  lemma {:induction false} LastValueDistinct(d: seq<Item>, i: nat)
    requires KeysDistinct(d) && i < |d|
    ensures LastValue(d, d[i].0) == Some(d[i].1)
  {
    if i < |d| - 1 {
      LastValueDistinct(d[..|d| - 1], i);
    }
  }

  lemma {:induction false} LastValueNone(d: seq<Item>, k: string)
    ensures LastValue(d, k).None? <==> k !in Keys(d)
  {
    if |d| > 0 {
      LastValueNone(d[..|d| - 1], k);
      assert Keys(d) == Keys(d[..|d| - 1]) + {d[|d| - 1].0};
    }
  }

  /** `dict(items)` has one entry per distinct key and maps each key to the
      value of the LAST item carrying it: on a key collision the later
      value wins. */
  lemma {:induction false} DictOfIsDict(items: seq<Item>)
    ensures KeysDistinct(DictOf(items))
    ensures Keys(DictOf(items)) == Keys(items)
    ensures forall k :: LastValue(DictOf(items), k) == LastValue(items, k)
  {
    if |items| > 0 {
      var init := items[..|items| - 1];
      DictOfIsDict(init);
      PutProps(DictOf(init), items[|items| - 1]);
      assert Keys(items) == Keys(init) + {items[|items| - 1].0};
    }
  }

  /** Without collisions `dict(items)` keeps the items as they are. */
  lemma {:induction false} DictOfNoCollision(items: seq<Item>)
    requires KeysDistinct(items)
    ensures DictOf(items) == items
  {
    if |items| > 0 {
      var init := items[..|items| - 1];
      DictOfNoCollision(init);
      assert items[|items| - 1].0 !in Keys(init);
      PutAppends(init, items[|items| - 1]);
    }
  }

  lemma {:induction false} PutAppends(d: seq<Item>, kv: Item)
    requires kv.0 !in Keys(d)
    ensures Put(d, kv) == d + [kv]
  {
    if |d| > 0 {
      assert Keys(d[1..]) <= Keys(d) by {
        forall k | k in Keys(d[1..]) ensures k in Keys(d) {
          var i :| 0 <= i < |d[1..]| && d[1..][i].0 == k;
          assert d[i + 1].0 == k;
        }
      }
      assert d[0].0 in Keys(d);
      PutAppends(d[1..], kv);
    }
  }

  // ---------------------------------------------------------------------
  // `_flatten_json`

  /** `f"{prefix}.{k}" if prefix else k` */
  function Key(prefix: string, k: string): string {
    if prefix != "" then prefix + "." + k else k
  }

  /** `_flatten_json(data, prefix)`. `None` gives no entries; a value that is
      not a dict gives one entry keyed by the prefix (or "value"); a dict
      gives the entries of its values, then `dict(...)` merges colliding
      keys. */
  function Flatten(data: Json, prefix: string): (d: seq<Item>)
    ensures KeysDistinct(d)
    ensures prefix != "" ==> forall i :: 0 <= i < |d| ==> prefix <= d[i].0
    decreases data, 2
  {
    match data
    case Null => []
    case Object(entries) =>
      var items := EntryItems(data, prefix, |entries|);
      DictOfIsDict(items);
      assert forall i :: 0 <= i < |DictOf(items)| ==> DictOf(items)[i].0 in Keys(items);
      DictOf(items)
    case _ => [(if prefix != "" then prefix else "value", Str(data))]
  }

  /** The items of the first `n` entries of a dict, before `dict(...)`. */
  function EntryItems(obj: Json, prefix: string, n: nat): (items: seq<Item>)
    requires obj.Object? && n <= |obj.entries|
    ensures prefix != "" ==> forall i :: 0 <= i < |items| ==> prefix <= items[i].0
    decreases obj, 1, n
  {
    if n == 0 then []
    else
      var entry := obj.entries[n - 1];
      assert entry.1 < obj by { assert entry in obj.entries; }
      var key := Key(prefix, entry.0);
      var more := ValueItems(entry.1, key);
      assert prefix != "" ==> forall i :: 0 <= i < |more| ==> prefix <= more[i].0 by {
        if prefix != "" {
          forall i | 0 <= i < |more| ensures prefix <= more[i].0 {
            assert prefix <= key <= more[i].0;
          }
        }
      }
      EntryItems(obj, prefix, n - 1) + more
  }

  /** The items one dict value contributes under `key`: a nested dict is
      flattened, a list contributes one item per element, anything else
      (including `None`) one item holding its `str()`. */
  function ValueItems(v: Json, key: string): (items: seq<Item>)
    ensures forall i :: 0 <= i < |items| ==> key <= items[i].0
    decreases v, 3
  {
    match v
    case Object(_) =>
      if key == "" then
        var d := Flatten(v, key);
        assert forall i :: 0 <= i < |d| ==> key <= d[i].0;
        d
      else Flatten(v, key)
    case List(elements) => ListItems(v, key, |elements|)
    case _ => [(key, Str(v))]
  }

  /** The items of the first `n` list elements under `key`: element `i` is
      keyed `key.i`; a dict element is flattened under that key, any other
      element (a nested list too) is stringified. */
  function ListItems(lst: Json, key: string, n: nat): (items: seq<Item>)
    requires lst.List? && n <= |lst.items|
    ensures forall i :: 0 <= i < |items| ==> key <= items[i].0
    decreases lst, 1, n
  {
    if n == 0 then []
    else
      var element := lst.items[n - 1];
      assert element < lst by { assert element in lst.items; }
      var elementKey := key + "." + NatToString(n - 1);
      var more := if element.Object? then Flatten(element, elementKey) else [(elementKey, Str(element))];
      assert forall i :: 0 <= i < |more| ==> key <= more[i].0 by {
        forall i | 0 <= i < |more| ensures key <= more[i].0 {
          assert key <= elementKey <= more[i].0;
        }
      }
      ListItems(lst, key, n - 1) + more
  }

  /** A `None` inside a dict is not skipped: it becomes the string "None". */
  lemma NoneInsideDict(k: string, prefix: string)
    ensures Flatten(Object([(k, Null)]), prefix) == [(Key(prefix, k), "None")]
  {
    var obj := Object([(k, Null)]);
    var kv := (Key(prefix, k), "None");
    assert ValueItems(Null, Key(prefix, k)) == [kv];
    assert EntryItems(obj, prefix, 1) == EntryItems(obj, prefix, 0) + [kv];
    DictOfSingle(kv);
  }

  lemma DictOfSingle(kv: Item)
    ensures DictOf([kv]) == [kv]
  {
    assert [kv][..0] == [];
  }

  /** Empty dicts and empty lists inside a dict contribute no entries. */
  lemma EmptyContainersVanish(k1: string, k2: string, prefix: string)
    ensures Flatten(Object([(k1, Object([])), (k2, List([]))]), prefix) == []
  {
    var obj := Object([(k1, Object([])), (k2, List([]))]);
    assert Flatten(Object([]), Key(prefix, k1)) == [] by {
      assert EntryItems(Object([]), Key(prefix, k1), 0) == [];
    }
    assert ValueItems(Object([]), Key(prefix, k1)) == [];
    assert ValueItems(List([]), Key(prefix, k2)) == [];
    assert EntryItems(obj, prefix, 1) == [];
    assert EntryItems(obj, prefix, 2) == [];
  }

  lemma NestedScalar(y: Json)
    requires y.Scalar?
    ensures Flatten(Object([("b", y)]), "a") == [("a.b", y.str)]
  {
    var inner := Object([("b", y)]);
    assert Key("a", "b") == "a.b";
    assert ValueItems(y, "a.b") == [("a.b", y.str)];
    assert EntryItems(inner, "a", 1) == EntryItems(inner, "a", 0) + [("a.b", y.str)];
    DictOfSingle(("a.b", y.str));
  }

  /** A colliding key keeps the later value: `{"a.b": x, "a": {"b": y}}`
      flattens to the single entry `a.b` holding `str(y)`. */
  lemma CollisionLaterWins(x: Json, y: Json)
    requires x.Scalar? && y.Scalar?
    ensures Flatten(Object([("a.b", x), ("a", Object([("b", y)]))]), "") == [("a.b", y.str)]
  {
    var inner := Object([("b", y)]);
    NestedScalar(y);
    var obj := Object([("a.b", x), ("a", inner)]);
    assert EntryItems(obj, "", 2) == [("a.b", x.str), ("a.b", y.str)] by {
      assert ValueItems(x, "a.b") == [("a.b", x.str)];
      assert EntryItems(obj, "", 1) == EntryItems(obj, "", 0) + [("a.b", x.str)];
      assert ValueItems(inner, "a") == [("a.b", y.str)];
    }
    var items := [("a.b", x.str), ("a.b", y.str)];
    assert Flatten(obj, "") == DictOf(items);
    assert items[..1] == [("a.b", x.str)];
    DictOfSingle(("a.b", x.str));
    assert DictOf(items) == Put([("a.b", x.str)], ("a.b", y.str));
  }

  function IndexedKeys(key: string, elements: seq<Json>): (d: seq<Item>)
    ensures |d| == |elements|
  {
    seq(|elements|, i requires 0 <= i < |elements| => (key + "." + NatToString(i), Str(elements[i])))
  }

  lemma NatToStringInjective(i: nat, j: nat)
    requires NatToString(i) == NatToString(j)
    ensures i == j
  {
    DigitsValueOfNatToString(i);
    DigitsValueOfNatToString(j);
  }

  lemma {:induction false} ListItemsOfScalars(lst: Json, key: string, n: nat)
    requires lst.List? && n <= |lst.items|
    requires forall i :: 0 <= i < |lst.items| ==> !lst.items[i].Object?
    ensures ListItems(lst, key, n) == IndexedKeys(key, lst.items[..n])
  {
    if n > 0 {
      ListItemsOfScalars(lst, key, n - 1);
      assert lst.items[..n][..n - 1] == lst.items[..n - 1];
    }
  }

  lemma IndexedKeysDistinct(key: string, elements: seq<Json>)
    ensures KeysDistinct(IndexedKeys(key, elements))
  {
    var d := IndexedKeys(key, elements);
    var pre := key + ".";
    forall i, j | 0 <= i < j < |d| ensures d[i].0 != d[j].0 {
      assert d[i].0 == pre + NatToString(i) && d[j].0 == pre + NatToString(j);
      assert (pre + NatToString(i))[|pre|..] == NatToString(i);
      assert (pre + NatToString(j))[|pre|..] == NatToString(j);
      if NatToString(i) == NatToString(j) { NatToStringInjective(i, j); }
    }
  }

  /** A dict entry whose value is a list of non-dict elements gives one
      entry `key.i` per element, holding the element's `str()`: lists nested
      in the list are stringified, not flattened. */
  lemma ListElementsIndexed(k: string, elements: seq<Json>)
    requires forall i :: 0 <= i < |elements| ==> !elements[i].Object?
    ensures Flatten(Object([(k, List(elements))]), "") == IndexedKeys(k, elements)
  {
    var obj := Object([(k, List(elements))]);
    ListItemsOfScalars(List(elements), k, |elements|);
    assert elements[..|elements|] == elements;
    assert Key("", k) == k;
    assert ValueItems(List(elements), k) == IndexedKeys(k, elements);
    assert EntryItems(obj, "", 1) == EntryItems(obj, "", 0) + IndexedKeys(k, elements);
    assert EntryItems(obj, "", 1) == IndexedKeys(k, elements);
    assert Flatten(obj, "") == DictOf(EntryItems(obj, "", 1));
    IndexedKeysDistinct(k, elements);
    DictOfNoCollision(IndexedKeys(k, elements));
  }

  // ---------------------------------------------------------------------
  // `_request_to_string`

  /** A request record as the vectorizer receives it; a missing field is
      `None`. Header values are JSON-like and rendered with `str()`. */
  datatype Request = Request(
    path: Option<string>,
    httpMethod: Option<string>,
    body: Option<Json>,
    queryParams: Option<Json>,
    headers: Option<seq<(string, Json)>>)

  function BodyFlat(r: Request): seq<Item> {
    Flatten(r.body.GetOr(Object([])), "")
  }

  function QueryFlat(r: Request): seq<Item> {
    Flatten(r.queryParams.GetOr(Object([])), "")
  }

  function Tagged(tag: string, d: seq<Item>): seq<string> {
    seq(|d|, i requires 0 <= i < |d| => tag + d[i].0 + ":" + d[i].1)
  }

  function HeaderPart(h: (string, Json)): string {
    "header." + h.0 + ":" + Str(h.1)
  }

  function HeaderParts(hs: seq<(string, Json)>): seq<string> {
    seq(|hs|, i requires 0 <= i < |hs| => HeaderPart(hs[i]))
  }

  function PathPart(r: Request): string {
    "path:" + r.path.GetOr("")
  }

  function MethodPart(r: Request): string {
    "method:" + r.httpMethod.GetOr("")
  }

  /** The parts of the canonical string, before sorting: path, method, one
      part per flattened body entry, per flattened query entry, per header. */
  function RequestParts(r: Request): (parts: seq<string>)
    ensures |parts| == 2 + |BodyFlat(r)| + |QueryFlat(r)| + |r.headers.GetOr([])|
    ensures PathPart(r) in parts && MethodPart(r) in parts
  {
    [PathPart(r), MethodPart(r)]
      + Tagged("body.", BodyFlat(r))
      + Tagged("query.", QueryFlat(r))
      + HeaderParts(r.headers.GetOr([]))
  }

  /** `_request_to_string`: the parts, sorted, joined by single spaces. The
      path and method parts are always there, so the string is never empty. */
  function RequestToString(r: Request): (s: string)
    ensures Contains(s, PathPart(r)) && Contains(s, MethodPart(r))
    ensures |s| >= |"path:" + "method:"|
  {
    var parts := RequestParts(r);
    var sorted := Sort(parts);
    SortCorrect(parts);
    assert PathPart(r) in multiset(sorted) && MethodPart(r) in multiset(sorted);
    var i :| 0 <= i < |sorted| && sorted[i] == PathPart(r);
    var j :| 0 <= j < |sorted| && sorted[j] == MethodPart(r);
    JoinContains(sorted, " ", i);
    JoinContains(sorted, " ", j);
    var s := Join(sorted, " ");
    JoinLength(sorted, " ", i, j);
    s
  }

  /** Two distinct parts of a joined string together fit in it. */
  lemma {:induction false} JoinLength(parts: seq<string>, sep: string, i: nat, j: nat)
    requires i < |parts| && j < |parts| && i != j
    ensures |Join(parts, sep)| >= |parts[i]| + |parts[j]|
  {
    if i > 0 && j > 0 {
      JoinLength(parts[1..], sep, i - 1, j - 1);
    } else {
      var k := if i == 0 then j else i;
      JoinPartLength(parts[1..], sep, k - 1);
    }
  }

  lemma {:induction false} JoinPartLength(parts: seq<string>, sep: string, k: nat)
    requires k < |parts|
    ensures |Join(parts, sep)| >= |parts[k]|
  {
    if k > 0 { JoinPartLength(parts[1..], sep, k - 1); }
  }

  /** Reordering the parts does not change the canonical string. */
  lemma PartOrderIrrelevant(r1: Request, r2: Request)
    requires multiset(RequestParts(r1)) == multiset(RequestParts(r2))
    ensures RequestToString(r1) == RequestToString(r2)
  {
    SortPermutationInvariant(RequestParts(r1), RequestParts(r2));
  }

  function MapSeq<A, B>(f: A -> B, s: seq<A>): seq<B> {
    seq(|s|, i requires 0 <= i < |s| => f(s[i]))
  }

  lemma MapSeqConcat<A, B>(f: A -> B, x: seq<A>, y: seq<A>)
    ensures MapSeq(f, x + y) == MapSeq(f, x) + MapSeq(f, y)
  {
  }

  lemma RemoveAtMultiset<A>(b: seq<A>, j: nat)
    requires j < |b|
    ensures multiset(b[..j] + b[j + 1..]) == multiset(b) - multiset{b[j]}
  {
    assert b == b[..j] + [b[j]] + b[j + 1..];
  }

  /** Taking element `j` out of a sequence takes its image out of the
      mapped sequence. */
  lemma MapSeqRemove<A, B>(f: A -> B, b: seq<A>, j: nat)
    requires j < |b|
    ensures multiset(MapSeq(f, b)) == multiset{f(b[j])} + multiset(MapSeq(f, b[..j] + b[j + 1..]))
  {
    var pre, post := b[..j], b[j + 1..];
    MapSeqConcat(f, pre, post);
    assert MapSeq(f, b) == MapSeq(f, pre) + [f(b[j])] + MapSeq(f, post);
  }

  lemma {:induction false} MapPermutation<A, B>(f: A -> B, a: seq<A>, b: seq<A>)
    requires multiset(a) == multiset(b)
    ensures multiset(MapSeq(f, a)) == multiset(MapSeq(f, b))
  {
    if |a| == 0 {
      assert |b| == |multiset(b)| == 0;
    } else {
      var j := MatchFirst(a, b);
      MapPermutation(f, a[1..], b[..j] + b[j + 1..]);
      MapPermutationStep(f, a, b, j);
    }
  }

  /** In two permutations of each other, the first element of `a` sits at
      some position `j` of `b`, and what remains is again a permutation. */
  lemma MatchFirst<A>(a: seq<A>, b: seq<A>) returns (j: nat)
    requires 0 < |a| && multiset(a) == multiset(b)
    ensures j < |b| && b[j] == a[0]
    ensures multiset(a[1..]) == multiset(b[..j] + b[j + 1..])
  {
    assert a[0] in multiset(b);
    j :| 0 <= j < |b| && b[j] == a[0];
    RemoveAtMultiset(b, j);
    DropFirstMultiset(a);
  }

  lemma DropFirstMultiset<A>(a: seq<A>)
    requires 0 < |a|
    ensures multiset(a[1..]) == multiset(a) - multiset{a[0]}
  {
    assert a == [a[0]] + a[1..];
  }

  /** Matching the first element of `a` with element `j` of `b`. */
  lemma MapPermutationStep<A, B>(f: A -> B, a: seq<A>, b: seq<A>, j: nat)
    requires 0 < |a| && j < |b| && b[j] == a[0]
    requires multiset(MapSeq(f, a[1..])) == multiset(MapSeq(f, b[..j] + b[j + 1..]))
    ensures multiset(MapSeq(f, a)) == multiset(MapSeq(f, b))
  {
    MapSeqRemove(f, a, 0);
    MapSeqRemove(f, b, j);
    assert a[..0] + a[1..] == a[1..];
  }

  /** Header insertion order does not matter: any reordering of the headers
      gives the same canonical string. */
  lemma HeaderOrderIrrelevant(r: Request, reordered: seq<(string, Json)>)
    requires multiset(r.headers.GetOr([])) == multiset(reordered)
    ensures RequestToString(r) == RequestToString(r.(headers := Some(reordered)))
  {
    var r2 := r.(headers := Some(reordered));
    MapPermutation(HeaderPart, r.headers.GetOr([]), reordered);
    assert HeaderParts(r.headers.GetOr([])) == MapSeq(HeaderPart, r.headers.GetOr([]));
    assert HeaderParts(reordered) == MapSeq(HeaderPart, reordered);
    var head := [PathPart(r), MethodPart(r)] + Tagged("body.", BodyFlat(r)) + Tagged("query.", QueryFlat(r));
    assert RequestParts(r) == head + HeaderParts(r.headers.GetOr([]));
    assert RequestParts(r2) == head + HeaderParts(reordered);
    PartOrderIrrelevant(r, r2);
  }

  // ---------------------------------------------------------------------
  // Dict insertion order

  /** The images of a sequence's elements, concatenated in order. */
  function FlatMap<A, B>(f: A -> seq<B>, s: seq<A>): seq<B> {
    if |s| == 0 then [] else FlatMap(f, s[..|s| - 1]) + f(s[|s| - 1])
  }

  /** The items one dict entry contributes under `prefix`. */
  function EntryBlock(prefix: string): ((string, Json)) -> seq<Item> {
    (e: (string, Json)) => ValueItems(e.1, Key(prefix, e.0))
  }

  /** The first `n` entries of a dict contribute, entry by entry, the items
      of each. */
  lemma {:induction false} EntryItemsFlatMap(es: seq<(string, Json)>, prefix: string, n: nat)
    requires n <= |es|
    ensures EntryItems(Object(es), prefix, n) == FlatMap(EntryBlock(prefix), es[..n])
  {
    if n > 0 {
      EntryItemsFlatMap(es, prefix, n - 1);
      assert es[..n][..n - 1] == es[..n - 1];
    }
  }

  lemma {:induction false} FlatMapConcat<A, B>(f: A -> seq<B>, x: seq<A>, y: seq<A>)
    ensures FlatMap(f, x + y) == FlatMap(f, x) + FlatMap(f, y)
  {
    if |y| == 0 {
      assert x + y == x;
    } else {
      var init := y[..|y| - 1];
      FlatMapConcat(f, x, init);
      assert (x + y)[..|x + y| - 1] == x + init;
    }
  }

  /** Taking element `j` out takes its image out of the multiset of the
      concatenation. */
  lemma FlatMapRemove<A, B>(f: A -> seq<B>, s: seq<A>, j: nat)
    requires j < |s|
    ensures multiset(FlatMap(f, s)) == multiset(f(s[j])) + multiset(FlatMap(f, s[..j] + s[j + 1..]))
  {
    var pre, post := s[..j], s[j + 1..];
    assert s == (pre + [s[j]]) + post;
    FlatMapConcat(f, pre + [s[j]], post);
    FlatMapConcat(f, pre, post);
    assert (pre + [s[j]])[..|pre|] == pre;
  }

  /** Reordering a sequence reorders the concatenation of its images. */
  lemma {:induction false} FlatMapPermutation<A, B>(f: A -> seq<B>, a: seq<A>, b: seq<A>)
    requires multiset(a) == multiset(b)
    ensures multiset(FlatMap(f, a)) == multiset(FlatMap(f, b))
  {
    if |a| == 0 {
      assert |b| == |multiset(b)| == 0;
    } else {
      var j := MatchFirst(a, b);
      FlatMapPermutation(f, a[1..], b[..j] + b[j + 1..]);
      FlatMapPermutationStep(f, a, b, j);
    }
  }

  /** Matching the first element of `a` with element `j` of `b`. */
  lemma FlatMapPermutationStep<A, B>(f: A -> seq<B>, a: seq<A>, b: seq<A>, j: nat)
    requires 0 < |a| && j < |b| && b[j] == a[0]
    requires multiset(FlatMap(f, a[1..])) == multiset(FlatMap(f, b[..j] + b[j + 1..]))
    ensures multiset(FlatMap(f, a)) == multiset(FlatMap(f, b))
  {
    FlatMapFirst(f, a);
    FlatMapRemove(f, b, j);
  }

  lemma FlatMapFirst<A, B>(f: A -> seq<B>, s: seq<A>)
    requires 0 < |s|
    ensures multiset(FlatMap(f, s)) == multiset(f(s[0])) + multiset(FlatMap(f, s[1..]))
  {
    var x, rest := s[0], s[1..];
    assert s == [x] + rest;
    FlatMapConcat(f, [x], rest);
    FlatMapSingle(f, x);
  }

  lemma FlatMapSingle<A, B>(f: A -> seq<B>, x: A)
    ensures FlatMap(f, [x]) == f(x)
  {
    assert [x][..0] == [];
  }

  /** Items with distinct keys are themselves distinct. */
  lemma {:induction false} DistinctKeysCount(d: seq<Item>, x: Item)
    requires KeysDistinct(d)
    ensures multiset(d)[x] <= 1
  {
    if |d| > 0 {
      assert d == [d[0]] + d[1..];
      assert KeysDistinct(d[1..]) by {
        forall i, j | 0 <= i < j < |d[1..]| ensures d[1..][i].0 != d[1..][j].0 {
          assert d[1..][i] == d[i + 1] && d[1..][j] == d[j + 1];
        }
      }
      DistinctKeysCount(d[1..], x);
      if d[0] == x {
        assert x !in d[1..] by {
          forall i | 0 <= i < |d[1..]| ensures d[1..][i] != x {
            assert d[1..][i] == d[i + 1];
          }
        }
      }
    }
  }

  /** A reordering of items with distinct keys has distinct keys. */
  lemma PermutationKeysDistinct(a: seq<Item>, b: seq<Item>)
    requires KeysDistinct(a) && multiset(a) == multiset(b)
    ensures KeysDistinct(b)
  {
    forall i, j | 0 <= i < j < |b| ensures b[i].0 != b[j].0 {
      DistinctKeysCount(a, b[j]);
      assert b == b[..j] + [b[j]] + b[j + 1..];
      assert b[i] == b[..j][i];
      assert multiset(b[..j])[b[j]] >= (if b[i] == b[j] then 1 else 0);
      assert b[i] != b[j];
      assert b[i] in multiset(a) && b[j] in multiset(a);
      var p :| 0 <= p < |a| && a[p] == b[i];
      var q :| 0 <= q < |a| && a[q] == b[j];
      assert p != q;
    }
  }

  /** Without colliding keys, reordering a dict's entries reorders its
      flattened items and nothing else. */
  lemma FlattenReordered(es: seq<(string, Json)>, reordered: seq<(string, Json)>, prefix: string)
    requires multiset(es) == multiset(reordered)
    requires KeysDistinct(EntryItems(Object(es), prefix, |es|))
    ensures multiset(Flatten(Object(es), prefix)) == multiset(Flatten(Object(reordered), prefix))
  {
    var items := EntryItems(Object(es), prefix, |es|);
    var items2 := EntryItems(Object(reordered), prefix, |reordered|);
    EntryItemsPermutation(es, reordered, prefix);
    PermutationKeysDistinct(items, items2);
    FlattenObject(es, prefix);
    FlattenObject(reordered, prefix);
    DictOfNoCollision(items);
    DictOfNoCollision(items2);
  }

  lemma EntryItemsPermutation(es: seq<(string, Json)>, reordered: seq<(string, Json)>, prefix: string)
    requires multiset(es) == multiset(reordered)
    ensures multiset(EntryItems(Object(es), prefix, |es|)) ==
      multiset(EntryItems(Object(reordered), prefix, |reordered|))
  {
    EntryItemsFlatMap(es, prefix, |es|);
    EntryItemsFlatMap(reordered, prefix, |reordered|);
    assert es[..|es|] == es && reordered[..|reordered|] == reordered;
    FlatMapPermutation(EntryBlock(prefix), es, reordered);
  }

  lemma FlattenObject(es: seq<(string, Json)>, prefix: string)
    ensures Flatten(Object(es), prefix) == DictOf(EntryItems(Object(es), prefix, |es|))
  {
  }

  lemma TaggedPermutation(tag: string, d1: seq<Item>, d2: seq<Item>)
    requires multiset(d1) == multiset(d2)
    ensures multiset(Tagged(tag, d1)) == multiset(Tagged(tag, d2))
  {
    var f := (x: Item) => tag + x.0 + ":" + x.1;
    MapPermutation(f, d1, d2);
    assert Tagged(tag, d1) == MapSeq(f, d1);
    assert Tagged(tag, d2) == MapSeq(f, d2);
  }

  /** Body key order does not matter: when no two flattened body keys
      collide, any reordering of the body dict gives the same canonical
      string. */
  lemma BodyOrderIrrelevant(r: Request, reordered: seq<(string, Json)>)
    requires r.body.Some? && r.body.value.Object?
    requires multiset(r.body.value.entries) == multiset(reordered)
    requires KeysDistinct(EntryItems(r.body.value, "", |r.body.value.entries|))
    ensures RequestToString(r) == RequestToString(r.(body := Some(Object(reordered))))
  {
    var r2 := r.(body := Some(Object(reordered)));
    FlattenReordered(r.body.value.entries, reordered, "");
    TaggedPermutation("body.", BodyFlat(r), BodyFlat(r2));
    PartOrderIrrelevant(r, r2);
  }

  /** Query parameter order does not matter, on the same terms. */
  lemma QueryOrderIrrelevant(r: Request, reordered: seq<(string, Json)>)
    requires r.queryParams.Some? && r.queryParams.value.Object?
    requires multiset(r.queryParams.value.entries) == multiset(reordered)
    requires KeysDistinct(EntryItems(r.queryParams.value, "", |r.queryParams.value.entries|))
    ensures RequestToString(r) == RequestToString(r.(queryParams := Some(Object(reordered))))
  {
    var r2 := r.(queryParams := Some(Object(reordered)));
    FlattenReordered(r.queryParams.value.entries, reordered, "");
    TaggedPermutation("query.", QueryFlat(r), QueryFlat(r2));
    PartOrderIrrelevant(r, r2);
  }

  /** Missing path, method, body, query parameters and headers read as
      "", "", `{}`, `{}` and `{}`. */
  lemma MissingFieldsDefault()
    ensures RequestToString(Request(None, None, None, None, None))
         == RequestToString(Request(Some(""), Some(""), Some(Object([])), Some(Object([])), Some([])))
  {
  }

  // ---------------------------------------------------------------------
  // `fit_transform`

  type Matrix = seq<seq<real>>

  /** `np.zeros((n, 1))` */
  function ZeroColumn(n: nat): (m: Matrix)
    ensures |m| == n && forall i :: 0 <= i < n ==> m[i] == [0.0]
  {
    seq(n, _ => [0.0])
  }

  function CanonicalStrings(requests: seq<Request>): (strs: seq<string>)
    ensures |strs| == |requests|
  {
    seq(|requests|, i requires 0 <= i < |requests| => RequestToString(requests[i]))
  }

  predicate AllEmpty(strs: seq<string>) {
    forall i :: 0 <= i < |strs| ==> strs[i] == ""
  }

  /** Every canonical string is non-empty, so the "all requests produced
      empty strings" branch of `fit_transform` fires exactly for an empty
      batch. */
  lemma AllEmptyOnlyForEmptyBatch(requests: seq<Request>)
    ensures AllEmpty(CanonicalStrings(requests)) <==> |requests| == 0
  {
    if |requests| > 0 {
      assert CanonicalStrings(requests)[0] == RequestToString(requests[0]);
    }
  }

  /** The vectorizer: `fitted` records whether a TF-IDF fit has succeeded. */
  class RequestVectorizer {
    var fitted: bool

    constructor ()
      ensures !fitted
    {
      fitted := false;
    }

    /** `fit_transform`. `tfidf` is the library fit, `None` when it raises;
        both the all-empty branch and a raised error give one zero column
        per request. */
    method FitTransform(requests: seq<Request>, tfidf: seq<string> -> Option<Matrix>) returns (vectors: Matrix)
      modifies this
      ensures var strs := CanonicalStrings(requests);
        if AllEmpty(strs) || tfidf(strs).None? then vectors == ZeroColumn(|requests|) && fitted == old(fitted)
        else vectors == tfidf(strs).value && fitted
    {
      var strs := seq(|requests|, i requires 0 <= i < |requests| => RequestToString(requests[i]));
      if forall i | 0 <= i < |strs| :: strs[i] == "" {
        return ZeroColumn(|requests|);
      }
      var result := tfidf(strs);
      if result.None? {
        return ZeroColumn(|requests|);
      }
      fitted := true;
      vectors := result.value;
    }
  }
}
