/** Fixed-size keys of btree_gist (btree_utils_num.cpp) in their int4 instance. */
module NumIndex {
  import opened Gist
  import opened Options

  type Int32 = x: int | -0x8000_0000 <= x < 0x8000_0000

  datatype NumKey = NumKey(lower: Int32, upper: Int32)

  type NumTree = Tree<Int32, NumKey>

  /** gbt_num_compress: a leaf key repeats its value. */
  function KeyOf(t: NumTree): NumKey {
    match t
    case Entry(v) => NumKey(v, v)
    case Page(key, _) => key
  }

  predicate Contains(key: NumKey, v: Int32) {
    key.lower <= v <= key.upper
  }

  /** key has exactly the least lower and the greatest upper bound of keys. */
  ghost predicate IsHull(key: NumKey, keys: seq<NumKey>) {
    && (forall e :: e in keys ==> key.lower <= e.lower && e.upper <= key.upper)
    && (exists e :: e in keys && e.lower == key.lower)
    && (exists e :: e in keys && e.upper == key.upper)
  }

  /** gbt_num_bin_union: widens u, or starts it. */
  function BinUnion(u: Option<NumKey>, e: NumKey): NumKey {
    match u
    case None => e
    case Some(r) =>
      NumKey(if r.lower > e.lower then e.lower else r.lower, if r.upper < e.upper then e.upper else r.upper)
  }

  lemma HullOfMore(u: Option<NumKey>, keys: seq<NumKey>, e: NumKey)
    requires if u.None? then keys == [] else IsHull(u.value, keys)
    ensures IsHull(BinUnion(u, e), keys + [e])
  {
    var all := keys + [e];
    assert all[|keys|] == e && e in all;
    if u.Some? {
      var low :| low in keys && low.lower == u.value.lower;
      var high :| high in keys && high.upper == u.value.upper;
      assert low in all && high in all;
    }
  }

  /** gbt_num_union. */
  method Union(entries: seq<NumKey>) returns (out: NumKey)
    requires entries != []
    ensures IsHull(out, entries)
  {
    out := entries[0];
    HullOfMore(None, [], entries[0]);
    assert entries[..1] == [] + [entries[0]];
    for i := 1 to |entries|
      invariant IsHull(out, entries[..i])
    {
      HullOfMore(Some(out), entries[..i], entries[i]);
      assert entries[..i + 1] == entries[..i] + [entries[i]];
      var cur := entries[i];
      if out.lower > cur.lower { out := out.(lower := cur.lower); }
      if out.upper < cur.upper { out := out.(upper := cur.upper); }
    }
    assert entries[..|entries|] == entries;
  }

  // ---------------------------------------------------------------------------------------------
  // Searching
  // ---------------------------------------------------------------------------------------------

  predicate Satisfies(v: Int32, query: Int32, strategy: Strategy) {
    match strategy
    case Less => v < query
    case LessEqual => v <= query
    case Equal => v == query
    case GreaterEqual => v >= query
    case Greater => v > query
    case NotEqual => v != query
    case Unknown => false
  }

  /** gbt_num_consistent. */
  predicate Consistent(key: NumKey, query: Int32, strategy: Strategy, isLeaf: bool) {
    match strategy
    case LessEqual => query >= key.lower
    case Less => if isLeaf then query > key.lower else query >= key.lower
    case Equal => if isLeaf then query == key.lower else key.lower <= query && query <= key.upper
    case Greater => if isLeaf then query < key.upper else query <= key.upper
    case GreaterEqual => query <= key.upper
    case NotEqual => !(query == key.lower && query == key.upper)
    case Unknown => false
  }

  /** Exactly which pages are entered: those whose interval has a value that satisfies the query; and for the
      two strict comparisons also those whose interval only touches the query. */
  lemma NodeTestIff(key: NumKey, query: Int32, strategy: Strategy)
    requires key.lower <= key.upper
    ensures Consistent(key, query, strategy, false) <==>
            || (exists v: Int32 :: Contains(key, v) && Satisfies(v, query, strategy))
            || (strategy == Less && query == key.lower) || (strategy == Greater && query == key.upper)
  {
    assert Contains(key, key.lower) && Contains(key, key.upper);
    if Consistent(key, query, strategy, false) {
      if strategy == Equal {
        assert Satisfies(query, query, strategy) && Contains(key, query);
      } else if strategy == NotEqual {
        assert Satisfies(key.lower, query, strategy) || Satisfies(key.upper, query, strategy);
      } else if strategy == Less || strategy == LessEqual {
        assert query != key.lower || strategy == LessEqual ==> Satisfies(key.lower, query, strategy);
      } else {
        assert query != key.upper || strategy == GreaterEqual ==> Satisfies(key.upper, query, strategy);
      }
    }
  }

  /** gbt_int4_dist; the difference of two int4 values is exact in a float8. */
  function Dist(a: int, b: int): nat {
    if a < b then b - a else a - b
  }

  /** gbt_num_distance. */
  function Distance(key: NumKey, query: Int32): nat {
    if query <= key.lower then Dist(query, key.lower)
    else if query >= key.upper then Dist(query, key.upper)
    else 0
  }

  function IndexScan(t: NumTree, query: Int32, strategy: Strategy): seq<Int32> {
    Search(t, (v: Int32) => Consistent(NumKey(v, v), query, strategy, true),
           (key: NumKey) => Consistent(key, query, strategy, false))
  }

  function FullScan(t: NumTree, query: Int32, strategy: Strategy): seq<Int32> {
    Filter(Values(t), (v: Int32) => Satisfies(v, query, strategy))
  }

  /** Every page key contains all values below it. */
  ghost predicate Sound(t: NumTree) {
    Covered(t, Contains)
  }

  /** The key of every page is the union of the keys one level down. */
  ghost predicate BuiltByUnion(t: NumTree)
    decreases t
  {
    match t
    case Entry(_) => true
    case Page(key, kids) => IsHull(key, KeysOf(kids)) && forall kid :: kid in kids ==> BuiltByUnion(kid)
  }

  function KeysOf(kids: seq<NumTree>): seq<NumKey> {
    seq(|kids|, i requires 0 <= i < |kids| => KeyOf(kids[i]))
  }

  /** A page keyed by the union of the keys of sound entries is sound. */
  lemma UnionPageSound(key: NumKey, kids: seq<NumTree>)
    requires IsHull(key, KeysOf(kids)) && forall kid :: kid in kids ==> Sound(kid)
    ensures Sound(Page(key, kids))
  {
    forall v: Int32 | v in ValuesOf(kids) ensures Contains(key, v) {
      ValuesBelow(kids, v);
      var kid: NumTree :| kid in kids && v in Values(kid);
      var i :| 0 <= i < |kids| && kids[i] == kid;
      assert KeysOf(kids)[i] == KeyOf(kid) && Contains(KeyOf(kid), v);
    }
  }

  lemma {:induction false} BuiltByUnionIsSound(t: NumTree)
    requires BuiltByUnion(t)
    ensures Sound(t) && forall v :: v in Values(t) ==> Contains(KeyOf(t), v)
    decreases t
  {
    match t
    case Entry(_) =>
    case Page(key, kids) =>
      forall kid | kid in kids ensures Sound(kid) {
        BuiltByUnionIsSound(kid);
      }
      UnionPageSound(key, kids);
  }

  /** Inserting or replacing an entry and widening the old page key by its key keeps a page sound. */
  lemma AdjustedPageSound(page: NumTree, kid: NumTree, kids: seq<NumTree>, key: NumKey)
    requires page.Page? && Sound(page) && Sound(kid) && IsHull(key, [page.key, KeyOf(kid)])
    requires forall x :: x in kids ==> x in page.kids || x == kid
    ensures Sound(Page(key, kids))
  {
    assert page.key in [page.key, KeyOf(kid)] && KeyOf(kid) in [page.key, KeyOf(kid)];
    forall v: Int32 | v in ValuesOf(kids) ensures Contains(key, v) {
      ValuesBelow(kids, v);
      var x: NumTree :| x in kids && v in Values(x);
      if x != kid {
        ValuesBelow(page.kids, v);
        assert v in Values(page);
      }
    }
  }

  /** Descending by gbt_num_consistent returns exactly what a full scan would. */
  lemma IndexAgreesWithScan(t: NumTree, query: Int32, strategy: Strategy)
    requires Sound(t)
    ensures IndexScan(t, query, strategy) == FullScan(t, query, strategy)
  {
    var wanted := (v: Int32) => Consistent(NumKey(v, v), query, strategy, true);
    var satisfied := (v: Int32) => Satisfies(v, query, strategy);
    var nodeTest := (key: NumKey) => Consistent(key, query, strategy, false);
    SearchIsScan(t, Contains, wanted, nodeTest);
    FilterSame(Values(t), wanted, satisfied);
  }

  /** The distance reported for a page is at most the distance to any value below it, and at a leaf it
      is the distance itself. */
  lemma DistanceBounds(t: NumTree, query: Int32, v: Int32)
    requires Sound(t) && v in Values(t)
    ensures Distance(KeyOf(t), query) <= Dist(query, v)
    ensures t.Entry? ==> Distance(KeyOf(t), query) == Dist(query, v)
  {
    if t.Page? { assert Contains(t.key, v); }
  }

  /** Some value of the interval is exactly that far away, so no better bound follows from the key. */
  lemma DistanceTight(key: NumKey, query: Int32) returns (v: Int32)
    requires key.lower <= key.upper
    ensures Contains(key, v) && Dist(query, v) == Distance(key, query)
  {
    v := if query <= key.lower then key.lower else if query >= key.upper then key.upper else query;
  }

  // ---------------------------------------------------------------------------------------------
  // Splitting
  // ---------------------------------------------------------------------------------------------

  /** gbt_int4key_cmp: by lower bound, then by upper bound. */
  function SortCompare(a: NumKey, b: NumKey): int {
    if a.lower == b.lower then (if a.upper == b.upper then 0 else if a.upper > b.upper then 1 else -1)
    else if a.lower > b.lower then 1 else -1
  }

  /** What qsort may return: any arrangement of the offsets in ascending key order. */
  ghost predicate Sorted(entries: seq<NumKey>, order: seq<int>) {
    && IsPermutation(order, |entries|)
    && forall i, j :: 0 <= i < j < |order| ==> SortCompare(entries[order[i] - 1], entries[order[j] - 1]) <= 0
  }

  /** gbt_num_picksplit on the arrangement that sorting produced. */
  method PickSplit(entries: seq<NumKey>, order: seq<int>)
    returns (left: seq<int>, right: seq<int>, leftKey: NumKey, rightKey: NumKey)
    requires 2 <= |entries| && Sorted(entries, order)
    ensures Partition(left, right, |entries|)
    ensures |left| == |entries| / 2 && left != [] && right != []
    ensures forall i, j :: 0 <= i < |left| && 0 <= j < |right| ==>
              NotAfter(entries[left[i] - 1], entries[right[j] - 1])
    ensures IsHull(leftKey, At(entries, left)) && IsHull(rightKey, At(entries, right))
  {
    hide IsHull;
    var half := |entries| / 2;
    HalvesPartition(order, |entries|, half);
    left, right, leftKey, rightKey := Deal(entries, order, half);
    SortedHalves(entries, order, half);
  }

  /** In key order: by lower bounds, and for equal ones by upper bounds. */
  predicate NotAfter(a: NumKey, b: NumKey) {
    a.lower < b.lower || (a.lower == b.lower && a.upper <= b.upper)
  }

  /** Splitting any page of sound entries leaves two sound pages that together hold exactly its values. */
  method SplitPage(kids: seq<NumTree>, order: seq<int>) returns (left: NumTree, right: NumTree)
    requires 2 <= |kids| && Sorted(KeysOf(kids), order) && forall kid :: kid in kids ==> Sound(kid)
    ensures Sound(left) && Sound(right)
    ensures multiset(Values(left)) + multiset(Values(right)) == multiset(ValuesOf(kids))
  {
    hide IsHull;
    hide Sound;
    var l, r, leftKey, rightKey := PickSplit(KeysOf(kids), order);
    var ls, rs := At(kids, l), At(kids, r);
    left, right := Page(leftKey, ls), Page(rightKey, rs);
    assert At(KeysOf(kids), l) == KeysOf(ls) && At(KeysOf(kids), r) == KeysOf(rs);
    UnionPageSound(leftKey, ls);
    UnionPageSound(rightKey, rs);
    SplitConserves(kids, l, r);
  }

  /** Deals the offsets in order, the first half to the left, and forms the union of either side. */
  method Deal(entries: seq<NumKey>, order: seq<int>, half: nat)
    returns (left: seq<int>, right: seq<int>, leftKey: NumKey, rightKey: NumKey)
    requires |order| == |entries| && InRange(order, |entries|) && 0 < half < |order|
    ensures left == order[..half] && right == order[half..]
    ensures IsHull(leftKey, At(entries, left)) && IsHull(rightKey, At(entries, right))
  {
    hide IsHull;
    hide BinUnion;
    var l, r: Option<NumKey> := None, None;
    left, right := [], [];
    for i := 1 to |order| + 1
      invariant left == order[..if i - 1 < half then i - 1 else half]
      invariant right == order[half..if i - 1 < half then half else i - 1]
      invariant if left == [] then l == None else l.Some? && IsHull(l.value, At(entries, left))
      invariant if right == [] then r == None else r.Some? && IsHull(r.value, At(entries, right))
    {
      var o := order[i - 1];
      if i <= half {
        HullAt(l, entries, left, o);
        l, left := Some(BinUnion(l, entries[o - 1])), left + [o];
      } else {
        HullAt(r, entries, right, o);
        r, right := Some(BinUnion(r, entries[o - 1])), right + [o];
      }
    }
    leftKey, rightKey := l.value, r.value;
  }

  lemma HullAt(u: Option<NumKey>, entries: seq<NumKey>, offsets: seq<int>, o: int)
    requires 1 <= o <= |entries| && InRange(offsets, |entries|)
    requires if offsets == [] then u == None else u.Some? && IsHull(u.value, At(entries, offsets))
    ensures InRange(offsets + [o], |entries|)
    ensures IsHull(BinUnion(u, entries[o - 1]), At(entries, offsets + [o]))
  {
    HullOfMore(u, At(entries, offsets), entries[o - 1]);
    assert At(entries, offsets + [o]) == At(entries, offsets) + [entries[o - 1]];
  }

  lemma SortedHalves(entries: seq<NumKey>, order: seq<int>, h: nat)
    requires Sorted(entries, order) && h <= |order|
    ensures forall i, j :: 0 <= i < h && 0 <= j < |order| - h ==>
              NotAfter(entries[order[..h][i] - 1], entries[order[h..][j] - 1])
  {
    forall i, j | 0 <= i < h && 0 <= j < |order| - h
      ensures NotAfter(entries[order[..h][i] - 1], entries[order[h..][j] - 1])
    {
      assert order[..h][i] == order[i] && order[h..][j] == order[h + j];
      assert SortCompare(entries[order[i] - 1], entries[order[h + j] - 1]) <= 0;
    }
  }
}
