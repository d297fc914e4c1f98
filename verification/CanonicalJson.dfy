/** `sortObjectKeys` of src/common/utils/hash.util.js, and what two payloads with equal sorted forms
    have in common. Objects list their own members in enumeration order. */
module CanonicalJson {
  import opened Collections

  datatype Json =
    | Null
    | Bool(b: bool)
    | Num(n: real)
    | Str(s: string)
    | Arr(items: seq<Json>)
    | Obj(members: seq<Member>)

  datatype Member = Member(key: string, value: Json)

  /** Assigning this name on a plain object sets its prototype and creates no member. */
  const PROTO := "__proto__"

  // ---- Sorting keys ----------------------------------------------------------------------------

  predicate Less(a: string, b: string)
    decreases |a|
  {
    if b == [] then false
    else if a == [] then true
    else a[0] < b[0] || (a[0] == b[0] && Less(a[1..], b[1..]))
  }

  lemma {:induction false} LessIrreflexive(a: string)
    ensures !Less(a, a)
    decreases |a|
  {
    if a != [] { LessIrreflexive(a[1..]); }
  }

  lemma {:induction false} LessTransitive(a: string, b: string, c: string)
    requires Less(a, b) && Less(b, c)
    ensures Less(a, c)
    decreases |a|
  {
    if a != [] && a[0] == b[0] && b[0] == c[0] { LessTransitive(a[1..], b[1..], c[1..]); }
  }

  lemma {:induction false} LessTotal(a: string, b: string)
    requires a != b
    ensures Less(a, b) || Less(b, a)
    decreases |a|
  {
    if a != [] && b != [] && a[0] == b[0] {
      assert a == [a[0]] + a[1..] && b == [b[0]] + b[1..];
      LessTotal(a[1..], b[1..]);
    }
  }

  predicate Ascending(ks: seq<string>) {
    forall i, j :: 0 <= i < j < |ks| ==> Less(ks[i], ks[j])
  }

  function Insert(k: string, ks: seq<string>): seq<string>
    decreases |ks|
  {
    if ks == [] || Less(k, ks[0]) then [k] + ks else [ks[0]] + Insert(k, ks[1..])
  }

  /** `Array.prototype.sort` on distinct keys. */
  function Sort(ks: seq<string>): seq<string>
    decreases |ks|
  {
    if ks == [] then [] else Insert(ks[0], Sort(ks[1..]))
  }

  lemma {:induction false} InsertSorts(k: string, ks: seq<string>)
    requires Ascending(ks) && k !in ks
    ensures Ascending(Insert(k, ks)) && Elements(Insert(k, ks)) == Elements(ks) + {k}
    decreases |ks|
  {
    if ks != [] {
      if Less(k, ks[0]) {
        forall i | 0 < i < |ks| ensures Less(k, ks[i]) { LessTransitive(k, ks[0], ks[i]); }
      } else {
        LessTotal(k, ks[0]);
        InsertSorts(k, ks[1..]);
        var rest := Insert(k, ks[1..]);
        assert Elements(ks) == Elements(ks[1..]) + {ks[0]};
        forall i | 0 <= i < |rest| ensures Less(ks[0], rest[i]) {
          assert rest[i] in Elements(rest);
        }
      }
    }
  }

  lemma {:induction false} SortSorts(ks: seq<string>)
    requires Distinct(ks)
    ensures Ascending(Sort(ks)) && Elements(Sort(ks)) == Elements(ks)
    decreases |ks|
  {
    if ks != [] {
      SortSorts(ks[1..]);
      assert Elements(ks) == Elements(ks[1..]) + {ks[0]};
      SortKeepsKeys(ks[1..]);
      InsertSorts(ks[0], Sort(ks[1..]));
    }
  }

  /** An ascending list is determined by its elements. */
  lemma {:induction false} AscendingUnique(x: seq<string>, y: seq<string>)
    requires Ascending(x) && Ascending(y) && Elements(x) == Elements(y)
    ensures x == y
    decreases |x|
  {
    assert forall k :: k in x <==> k in Elements(x);
    assert forall k :: k in y <==> k in Elements(y);
    assert y == [] || y[0] in x;
    if x != [] {
      assert x[0] in y;
      SameHead(x, y);
      forall k ensures k in Elements(x[1..]) <==> k in Elements(y[1..]) {
        TailElements(x, k);
        TailElements(y, k);
      }
      AscendingUnique(x[1..], y[1..]);
      assert x == [x[0]] + x[1..] && y == [y[0]] + y[1..];
    }
  }

  lemma SameHead(x: seq<string>, y: seq<string>)
    requires x != [] && y != [] && Ascending(x) && Ascending(y) && Elements(x) == Elements(y)
    ensures x[0] == y[0]
  {
    assert x[0] in Elements(x) && y[0] in Elements(y);
    if x[0] != y[0] {
      var i :| 0 <= i < |y| && y[i] == x[0];
      var j :| 0 <= j < |x| && x[j] == y[0];
      LessTransitive(x[0], y[0], x[0]);
      LessIrreflexive(x[0]);
    }
  }

  lemma TailElements(x: seq<string>, k: string)
    requires x != [] && Ascending(x)
    ensures k in Elements(x[1..]) <==> k in Elements(x) && k != x[0]
  {
    LessIrreflexive(x[0]);
    assert x == [x[0]] + x[1..];
  }

  // ---- Building an object ----------------------------------------------------------------------

  predicate AllDigits(k: string) {
    forall i :: 0 <= i < |k| ==> '0' <= k[i] <= '9'
  }

  /** Array-index names, which objects enumerate first and in numeric order. */
  predicate IsIndex(k: string) {
    && k != [] && AllDigits(k) && (k[0] == '0' ==> |k| == 1)
    && (|k| < 10 || (|k| == 10 && Less(k, "4294967295")))
  }

  predicate IndexLess(a: string, b: string) {
    |a| < |b| || (|a| == |b| && Less(a, b))
  }

  /** Where a new member goes in the enumeration order. */
  function PlaceFor(k: string, ms: seq<Member>): (i: nat)
    ensures i <= |ms|
    decreases |ms|
  {
    if !IsIndex(k) then |ms|
    else if ms == [] || !IsIndex(ms[0].key) || IndexLess(k, ms[0].key) then 0
    else 1 + PlaceFor(k, ms[1..])
  }

  /** `acc[key] = value`, for a key `acc` does not have yet. */
  function Put(acc: seq<Member>, k: string, v: Json): seq<Member> {
    if k == PROTO then acc
    else var i := PlaceFor(k, acc); acc[..i] + [Member(k, v)] + acc[i..]
  }

  function Keys(ms: seq<Member>): seq<string> {
    seq(|ms|, i requires 0 <= i < |ms| => ms[i].key)
  }

  /** The value under a key. */
  function Get(ms: seq<Member>, k: string): (v: Json)
    requires k in Keys(ms)
    ensures exists i :: 0 <= i < |ms| && ms[i].key == k && ms[i].value == v
    decreases |ms|
  {
    if ms[0].key == k then ms[0].value else assert k in Keys(ms[1..]) by { HasKey(ms, k); } Get(ms[1..], k)
  }

  lemma HasKey(ms: seq<Member>, k: string)
    requires k in Keys(ms) && ms[0].key != k
    ensures k in Keys(ms[1..])
  {
    var i :| 0 <= i < |ms| && Keys(ms)[i] == k;
    assert Keys(ms[1..])[i - 1] == k;
  }

  /** The `reduce` over the sorted keys. */
  function Collect(ks: seq<string>, values: map<string, Json>, acc: seq<Member>): seq<Member>
    requires forall k :: k in ks ==> k in values
    decreases |ks|
  {
    if ks == [] then acc else Collect(ks[1..], values, Put(acc, ks[0], values[ks[0]]))
  }

  function ValueMap(ms: seq<Member>): map<string, Json> {
    map k | k in Keys(ms) :: Get(ms, k)
  }

  function SortObjectKeys(v: Json): Json
    decreases v, 1
  {
    match v
    case Arr(items) => Arr(SortItems(items))
    case Obj(ms) =>
      var sorted := SortMembers(ms);
      var keys := Sort(Keys(sorted));
      SortKeepsKeys(Keys(sorted));
      Obj(Collect(keys, ValueMap(sorted), []))
    case _ => v
  }

  function SortItems(items: seq<Json>): (r: seq<Json>)
    ensures |r| == |items|
    decreases items, 0
  {
    if items == [] then [] else [SortObjectKeys(items[0])] + SortItems(items[1..])
  }

  function SortMembers(ms: seq<Member>): (r: seq<Member>)
    ensures |r| == |ms| && forall i :: 0 <= i < |r| ==> r[i].key == ms[i].key
    decreases ms, 0
  {
    if ms == [] then []
    else [Member(ms[0].key, SortObjectKeys(ms[0].value))] + SortMembers(ms[1..])
  }

  lemma {:induction false} InsertKeeps(k: string, ks: seq<string>)
    ensures forall x :: x in Insert(k, ks) <==> x == k || x in ks
    decreases |ks|
  {
    if ks != [] {
      InsertKeeps(k, ks[1..]);
    }
  }

  lemma {:induction false} SortKeepsKeys(ks: seq<string>)
    ensures forall x :: x in Sort(ks) <==> x in ks
    decreases |ks|
  {
    if ks != [] {
      SortKeepsKeys(ks[1..]);
      InsertKeeps(ks[0], Sort(ks[1..]));
    }
  }

  // ---- The reference: trees with unordered keys ------------------------------------------------

  datatype Tree = Leaf(v: Json) | Items(items: seq<Tree>) | Fields(fields: map<string, Tree>)

  /** The unordered tree a value stands for, leaving out members named `__proto__`. */
  function Visible(v: Json): Tree
    decreases v, 1
  {
    match v
    case Arr(items) => Items(VisibleItems(items))
    case Obj(ms) => Fields(map k | k in Keys(ms) && k != PROTO :: Visible(Get(ms, k)))
    case _ => Leaf(v)
  }

  function VisibleItems(items: seq<Json>): (r: seq<Tree>)
    ensures |r| == |items|
    decreases items, 0
  {
    if items == [] then [] else [Visible(items[0])] + VisibleItems(items[1..])
  }

  /** The unordered tree a value stands for. */
  function Meaning(v: Json): Tree
    decreases v, 1
  {
    match v
    case Arr(items) => Items(MeaningItems(items))
    case Obj(ms) => Fields(map k | k in Keys(ms) :: Meaning(Get(ms, k)))
    case _ => Leaf(v)
  }

  function MeaningItems(items: seq<Json>): (r: seq<Tree>)
    ensures |r| == |items|
    decreases items, 0
  {
    if items == [] then [] else [Meaning(items[0])] + MeaningItems(items[1..])
  }

  /** A JSON value: no object has the same key twice. */
  predicate WellFormed(v: Json)
    decreases v
  {
    match v
    case Arr(items) => forall i :: 0 <= i < |items| ==> WellFormed(items[i])
    case Obj(ms) => Distinct(Keys(ms)) && forall i :: 0 <= i < |ms| ==> WellFormed(ms[i].value)
    case _ => true
  }

  predicate NoProto(v: Json)
    decreases v
  {
    match v
    case Arr(items) => forall i :: 0 <= i < |items| ==> NoProto(items[i])
    case Obj(ms) => PROTO !in Keys(ms) && forall i :: 0 <= i < |ms| ==> NoProto(ms[i].value)
    case _ => true
  }

  // ---- The two directions ----------------------------------------------------------------------

  ghost function AscendingOf(s: set<string>): (ks: seq<string>)
    ensures Ascending(ks) && Elements(ks) == s
    decreases |s|
  {
    if s == {} then []
    else
      var k :| k in s;
      var rest := AscendingOf(s - {k});
      assert k !in Elements(rest);
      InsertSorts(k, rest);
      Insert(k, rest)
  }

  /** The sorted form, rebuilt from the unordered tree alone. */
  ghost function Render(t: Tree): Json
    decreases t, 1
  {
    match t
    case Leaf(v) => v
    case Items(items) => Arr(RenderItems(items))
    case Fields(m) =>
      var ks := AscendingOf(m.Keys);
      assert forall k :: k in ks ==> k in Elements(ks);
      Obj(Collect(ks, map k | k in m :: Render(m[k]), []))
  }

  ghost function RenderItems(items: seq<Tree>): (r: seq<Json>)
    ensures |r| == |items|
    decreases items, 0
  {
    if items == [] then [] else [Render(items[0])] + RenderItems(items[1..])
  }

  function WithoutProto(ks: seq<string>): seq<string>
    decreases |ks|
  {
    if ks == [] then [] else (if ks[0] == PROTO then [] else [ks[0]]) + WithoutProto(ks[1..])
  }

  lemma {:induction false} WithoutProtoKeeps(ks: seq<string>)
    requires Ascending(ks)
    ensures forall k :: k in WithoutProto(ks) <==> k in ks && k != PROTO
    ensures Ascending(WithoutProto(ks))
    decreases |ks|
  {
    if ks != [] {
      WithoutProtoKeeps(ks[1..]);
      var rest := WithoutProto(ks[1..]);
      forall i | 0 <= i < |rest| ensures Less(ks[0], rest[i]) {
        assert rest[i] in ks[1..];
      }
    }
  }

  lemma {:induction false} CollectSkipsProto(ks: seq<string>, values: map<string, Json>, values': map<string, Json>,
                                             acc: seq<Member>)
    requires Ascending(ks) && forall k :: k in ks ==> k in values
    requires forall k :: k in WithoutProto(ks) ==> k in values' && k in values && values'[k] == values[k]
    ensures Collect(ks, values, acc) == Collect(WithoutProto(ks), values', acc)
    decreases |ks|
  {
    if ks != [] {
      var rest := WithoutProto(ks[1..]);
      if ks[0] == PROTO {
        assert WithoutProto(ks) == rest;
      } else {
        assert WithoutProto(ks) == [ks[0]] + rest;
        assert WithoutProto(ks)[1..] == rest;
      }
      CollectSkipsProto(ks[1..], values, values', Put(acc, ks[0], values[ks[0]]));
    }
  }

  lemma {:induction false} GetSorted(ms: seq<Member>, k: string)
    requires k in Keys(ms)
    ensures k in Keys(SortMembers(ms)) && Get(SortMembers(ms), k) == SortObjectKeys(Get(ms, k))
    decreases |ms|
  {
    SameKeys(ms);
    if ms[0].key != k {
      HasKey(ms, k);
      GetSorted(ms[1..], k);
      assert SortMembers(ms)[1..] == SortMembers(ms[1..]);
    }
  }

  lemma SameKeys(ms: seq<Member>)
    ensures Keys(SortMembers(ms)) == Keys(ms)
  {
  }

  lemma GetWellFormed(ms: seq<Member>, k: string)
    requires WellFormed(Obj(ms)) && k in Keys(ms)
    ensures WellFormed(Get(ms, k))
  {
  }

  /** The sorted keys without `__proto__` are the ascending list of the visible keys. */
  lemma VisibleKeysAscend(ks: seq<string>, visible: set<string>)
    requires Distinct(ks)
    requires forall k :: k in visible <==> k in ks && k != PROTO
    ensures Ascending(Sort(ks)) && WithoutProto(Sort(ks)) == AscendingOf(visible)
  {
    SortSorts(ks);
    SortKeepsKeys(ks);
    WithoutProtoKeeps(Sort(ks));
    assert Elements(WithoutProto(Sort(ks))) == visible;
    AscendingUnique(WithoutProto(Sort(ks)), AscendingOf(visible));
  }

  lemma InAscendingOf(s: set<string>)
    ensures forall k :: k in AscendingOf(s) <==> k in s
  {
    assert forall k :: k in AscendingOf(s) <==> k in Elements(AscendingOf(s));
  }

  lemma CollectsTheVisible(ms: seq<Member>, rendered: map<string, Json>)
    requires Distinct(Keys(ms))
    requires forall k :: k in rendered <==> k in Keys(ms) && k != PROTO
    requires forall k :: k in rendered ==> rendered[k] == SortObjectKeys(Get(ms, k))
    ensures forall k :: k in AscendingOf(rendered.Keys) ==> k in rendered
    ensures SortObjectKeys(Obj(ms)) == Obj(Collect(AscendingOf(rendered.Keys), rendered, []))
  {
    var sorted := SortMembers(ms);
    SameKeys(ms);
    forall k | k in rendered
      ensures rendered[k] == ValueMap(sorted)[k]
    {
      GetSorted(ms, k);
    }
    InAscendingOf(rendered.Keys);
    VisibleKeysAscend(Keys(ms), rendered.Keys);
    SortKeepsKeys(Keys(ms));
    CollectSkipsProto(Sort(Keys(ms)), ValueMap(sorted), rendered, []);
  }

  /** Sorting factors through the unordered tree: nothing else about a value shows in its sorted form. */
  lemma {:induction false} SortIsRender(v: Json)
    requires WellFormed(v)
    ensures SortObjectKeys(v) == Render(Visible(v))
    decreases v, 1
  {
    match v
    case Arr(items) => SortItemsIsRender(items);
    case Obj(ms) =>
      var m := Visible(v).fields;
      forall k | k in m
        ensures Render(m[k]) == SortObjectKeys(Get(ms, k))
      {
        GetWellFormed(ms, k);
        SortIsRender(Get(ms, k));
      }
      var rendered := map k | k in m :: Render(m[k]);
      assert rendered.Keys == m.Keys;
      CollectsTheVisible(ms, rendered);
    case _ =>
  }

  lemma {:induction false} SortItemsIsRender(items: seq<Json>)
    requires forall i :: 0 <= i < |items| ==> WellFormed(items[i])
    ensures SortItems(items) == RenderItems(VisibleItems(items))
    decreases items, 0
  {
    if items != [] {
      SortIsRender(items[0]);
      SortItemsIsRender(items[1..]);
      assert VisibleItems(items)[1..] == VisibleItems(items[1..]);
    }
  }

  /** A list of members holds exactly the given keys, once each, under the given values. */
  predicate Holds(ms: seq<Member>, content: map<string, Json>) {
    && Distinct(Keys(ms))
    && (forall i :: 0 <= i < |ms| ==> ms[i].key in content && content[ms[i].key] == ms[i].value)
    && (forall k :: k in content ==> k in Keys(ms))
  }

  lemma DistinctInsert(ks: seq<string>, i: nat, k: string)
    requires Distinct(ks) && i <= |ks| && k !in ks
    ensures Distinct(ks[..i] + [k] + ks[i..])
    ensures forall x :: x in ks[..i] + [k] + ks[i..] <==> x == k || x in ks
  {
    assert ks == ks[..i] + ks[i..];
  }

  lemma PutKeys(acc: seq<Member>, k: string, v: Json)
    requires Distinct(Keys(acc)) && k !in Keys(acc) && k != PROTO
    ensures Distinct(Keys(Put(acc, k, v)))
    ensures forall x :: x in Keys(Put(acc, k, v)) <==> x == k || x in Keys(acc)
  {
    var i := PlaceFor(k, acc);
    DistinctInsert(Keys(acc), i, k);
    assert Keys(Put(acc, k, v)) == Keys(acc)[..i] + [k] + Keys(acc)[i..];
  }

  lemma PutHolds(acc: seq<Member>, content: map<string, Json>, k: string, v: Json)
    requires Holds(acc, content) && k !in content && k != PROTO
    ensures Holds(Put(acc, k, v), content[k := v])
  {
    assert k !in Keys(acc) by {
      assert forall j :: 0 <= j < |acc| ==> Keys(acc)[j] == acc[j].key;
    }
    PutKeys(acc, k, v);
    var i := PlaceFor(k, acc);
    var r := Put(acc, k, v);
    forall j | 0 <= j < |r|
      ensures r[j].key in content[k := v] && content[k := v][r[j].key] == r[j].value
    {
      if j != i {
        assert r[j] == acc[if j < i then j else j - 1];
      }
    }
  }

  /** What collecting the values under these keys adds. */
  function Chosen(ks: seq<string>, values: map<string, Json>): map<string, Json>
    requires forall k :: k in ks ==> k in values
  {
    map k | k in ks && k != PROTO :: values[k]
  }

  lemma ChosenHead(ks: seq<string>, values: map<string, Json>)
    requires ks != [] && forall k :: k in ks ==> k in values
    ensures forall k :: k in ks <==> k == ks[0] || k in ks[1..]
    ensures Chosen(ks, values)
            == (if ks[0] == PROTO then map[] else map[ks[0] := values[ks[0]]]) + Chosen(ks[1..], values)
  {
    assert forall k :: k in ks <==> k == ks[0] || k in ks[1..];
  }

  lemma ChosenStep(ks: seq<string>, values: map<string, Json>, content: map<string, Json>)
    requires ks != [] && Distinct(ks) && forall k :: k in ks ==> k in values && k !in content
    ensures var content' := if ks[0] == PROTO then content else content[ks[0] := values[ks[0]]];
            && content' + Chosen(ks[1..], values) == content + Chosen(ks, values)
            && forall k :: k in ks[1..] ==> k !in content'
  {
    ChosenHead(ks, values);
  }

  lemma {:induction false} CollectHolds(ks: seq<string>, values: map<string, Json>, acc: seq<Member>,
                                        content: map<string, Json>)
    requires Distinct(ks) && (forall k :: k in ks ==> k in values && k !in content) && Holds(acc, content)
    ensures Holds(Collect(ks, values, acc), content + Chosen(ks, values))
    decreases |ks|
  {
    if ks == [] {
      assert content + Chosen(ks, values) == content;
    } else {
      var content' := if ks[0] == PROTO then content else content[ks[0] := values[ks[0]]];
      var acc' := Put(acc, ks[0], values[ks[0]]);
      assert Holds(acc', content') by {
        if ks[0] != PROTO {
          PutHolds(acc, content, ks[0], values[ks[0]]);
        }
      }
      ChosenStep(ks, values, content);
      CollectHolds(ks[1..], values, acc', content');
    }
  }

  lemma HoldsGet(ms: seq<Member>, content: map<string, Json>, k: string)
    requires Holds(ms, content) && k in content
    ensures k in Keys(ms) && Get(ms, k) == content[k]
  {
  }

  lemma AscendingDistinct(ks: seq<string>)
    requires Ascending(ks)
    ensures Distinct(ks)
  {
    forall i, j | 0 <= i < j < |ks| ensures ks[i] != ks[j] {
      LessIrreflexive(ks[i]);
    }
  }

  /** The content of a sorted object: every key but `__proto__`, with its value sorted. */
  function SortedFields(ms: seq<Member>): map<string, Json> {
    map k | k in Keys(ms) && k != PROTO :: SortObjectKeys(Get(ms, k))
  }

  lemma ChosenIsSortedFields(ms: seq<Member>, keys: seq<string>)
    requires forall k :: k in keys <==> k in Keys(ms)
    ensures Keys(SortMembers(ms)) == Keys(ms)
    ensures Chosen(keys, ValueMap(SortMembers(ms))) == SortedFields(ms)
  {
    SameKeys(ms);
    forall k | k in Keys(ms)
      ensures ValueMap(SortMembers(ms))[k] == SortObjectKeys(Get(ms, k))
    {
      GetSorted(ms, k);
    }
  }

  lemma SortedContent(ms: seq<Member>)
    requires Distinct(Keys(ms))
    ensures SortObjectKeys(Obj(ms)).Obj?
    ensures Holds(SortObjectKeys(Obj(ms)).members, SortedFields(ms))
  {
    var keys := Sort(Keys(ms));
    SortSorts(Keys(ms));
    SortKeepsKeys(Keys(ms));
    AscendingDistinct(keys);
    ChosenIsSortedFields(ms, keys);
    CollectHolds(keys, ValueMap(SortMembers(ms)), [], map[]);
    assert map[] + SortedFields(ms) == SortedFields(ms);
  }

  lemma HoldsKeys(ms: seq<Member>, content: map<string, Json>)
    requires Holds(ms, content)
    ensures forall k :: k in Keys(ms) <==> k in content
  {
    assert forall i :: 0 <= i < |ms| ==> Keys(ms)[i] == ms[i].key;
  }

  lemma HoldsWellFormed(out: seq<Member>, content: map<string, Json>)
    requires Holds(out, content) && PROTO !in content
    requires forall k :: k in content ==> WellFormed(content[k]) && NoProto(content[k])
    ensures WellFormed(Obj(out)) && NoProto(Obj(out))
  {
    HoldsKeys(out, content);
  }

  /** Objects with the same visible keys and trees are the same visible tree. */
  lemma SameVisible(ms: seq<Member>, out: seq<Member>)
    requires forall k :: k in Keys(out) && k != PROTO <==> k in Keys(ms) && k != PROTO
    requires forall k :: k in Keys(out) && k != PROTO ==> Visible(Get(out, k)) == Visible(Get(ms, k))
    ensures Visible(Obj(out)) == Visible(Obj(ms))
  {
    assert Visible(Obj(out)).fields == Visible(Obj(ms)).fields;
  }

  lemma SameFields(ms: seq<Member>, out: seq<Member>)
    requires Holds(out, SortedFields(ms))
    requires forall k :: k in SortedFields(ms) ==> Visible(SortedFields(ms)[k]) == Visible(Get(ms, k))
    ensures Visible(Obj(out)) == Visible(Obj(ms))
  {
    var content := SortedFields(ms);
    HoldsKeys(out, content);
    forall k | k in Keys(out) && k != PROTO
      ensures Visible(Get(out, k)) == Visible(Get(ms, k))
    {
      HoldsGet(out, content, k);
    }
    SameVisible(ms, out);
  }

  /** Sorting keeps the unordered tree, and yields a well-formed value without `__proto__` members. */
  lemma {:induction false} SortKeepsVisible(v: Json)
    requires WellFormed(v)
    ensures Visible(SortObjectKeys(v)) == Visible(v)
    ensures WellFormed(SortObjectKeys(v)) && NoProto(SortObjectKeys(v))
    decreases v, 1
  {
    match v
    case Arr(items) => SortItemsKeepVisible(items);
    case Obj(ms) =>
      SortedContent(ms);
      forall k | k in SortedFields(ms)
        ensures var w := SortedFields(ms)[k]; Visible(w) == Visible(Get(ms, k)) && WellFormed(w) && NoProto(w)
      {
        GetWellFormed(ms, k);
        SortKeepsVisible(Get(ms, k));
      }
      SameFields(ms, SortObjectKeys(v).members);
      HoldsWellFormed(SortObjectKeys(v).members, SortedFields(ms));
    case _ =>
  }

  lemma {:induction false} SortItemsKeepVisible(items: seq<Json>)
    requires forall i :: 0 <= i < |items| ==> WellFormed(items[i])
    ensures VisibleItems(SortItems(items)) == VisibleItems(items)
    ensures forall i :: 0 <= i < |items| ==> WellFormed(SortItems(items)[i]) && NoProto(SortItems(items)[i])
    decreases items, 0
  {
    if items != [] {
      SortKeepsVisible(items[0]);
      SortItemsKeepVisible(items[1..]);
      assert SortItems(items)[1..] == SortItems(items[1..]);
    }
  }

  /** Canonical form: two payloads have the same sorted form exactly when they are the same tree with
      unordered object keys and ordered arrays, `__proto__` members aside. */
  lemma SortedFormsDecideEquality(a: Json, b: Json)
    requires WellFormed(a) && WellFormed(b)
    ensures SortObjectKeys(a) == SortObjectKeys(b) <==> Visible(a) == Visible(b)
  {
    SortIsRender(a);
    SortIsRender(b);
    SortKeepsVisible(a);
    SortKeepsVisible(b);
  }

  lemma SortingIsIdempotent(v: Json)
    requires WellFormed(v)
    ensures SortObjectKeys(SortObjectKeys(v)) == SortObjectKeys(v)
  {
    SortKeepsVisible(v);
    SortedFormsDecideEquality(SortObjectKeys(v), v);
  }

  lemma {:induction false} VisibleIsMeaning(v: Json)
    requires NoProto(v)
    ensures Visible(v) == Meaning(v)
    decreases v, 1
  {
    match v
    case Arr(items) => VisibleItemsAreMeaning(items);
    case Obj(ms) =>
      forall k | k in Keys(ms)
        ensures Visible(Get(ms, k)) == Meaning(Get(ms, k))
      {
        VisibleIsMeaning(Get(ms, k));
      }
    case _ =>
  }

  lemma {:induction false} VisibleItemsAreMeaning(items: seq<Json>)
    requires forall i :: 0 <= i < |items| ==> NoProto(items[i])
    ensures VisibleItems(items) == MeaningItems(items)
    decreases items, 0
  {
    if items != [] {
      VisibleIsMeaning(items[0]);
      VisibleItemsAreMeaning(items[1..]);
    }
  }

  /** For payloads without such members the sorted form is a canonical form outright. */
  lemma CanonicalForm(a: Json, b: Json)
    requires WellFormed(a) && WellFormed(b) && NoProto(a) && NoProto(b)
    ensures SortObjectKeys(a) == SortObjectKeys(b) <==> Meaning(a) == Meaning(b)
  {
    SortedFormsDecideEquality(a, b);
    VisibleIsMeaning(a);
    VisibleIsMeaning(b);
  }

  /** The condition is needed: these payloads differ, yet sort to the same form. */
  lemma ProtoMemberIsLost()
    ensures var a, b := Obj([Member(PROTO, Obj([]))]), Obj([]);
            && WellFormed(a) && WellFormed(b)
            && Meaning(a) != Meaning(b) && SortObjectKeys(a) == SortObjectKeys(b)
  {
    var a, b := Obj([Member(PROTO, Obj([]))]), Obj([]);
    assert Keys(a.members) == [PROTO] && Keys(b.members) == [];
    assert PROTO in Meaning(a).fields && PROTO !in Meaning(b).fields;
    assert Visible(a) == Visible(b);
    SortedFormsDecideEquality(a, b);
  }
}
