/** A GiST as its support functions see it: entries on leaf pages hold values, entries on inner pages
    hold a key and lead to a page below. */
module Gist {
  /** The strategies of the btree_gist operator classes; any other number matches nothing. */
  datatype Strategy = Less | LessEqual | Equal | GreaterEqual | Greater | NotEqual | Unknown

  datatype Tree<V, K> = Entry(value: V) | Page(key: K, kids: seq<Tree<V, K>>)

  /** All stored values, in tree order. */
  function Values<V, K>(t: Tree<V, K>): seq<V>
    decreases t
  {
    match t
    case Entry(v) => [v]
    case Page(_, kids) => ValuesOf(kids)
  }

  function ValuesOf<V, K>(kids: seq<Tree<V, K>>): seq<V>
    decreases kids
  {
    if kids == [] then [] else Values(kids[0]) + ValuesOf(kids[1..])
  }

  /** An index scan: entries are tested, and only pages whose entry passes are visited. */
  function Search<V, K>(t: Tree<V, K>, leafTest: V -> bool, nodeTest: K -> bool): seq<V>
    decreases t
  {
    match t
    case Entry(v) => if leafTest(v) then [v] else []
    case Page(key, kids) => if nodeTest(key) then SearchOf(kids, leafTest, nodeTest) else []
  }

  function SearchOf<V, K>(kids: seq<Tree<V, K>>, leafTest: V -> bool, nodeTest: K -> bool): seq<V>
    decreases kids
  {
    if kids == [] then [] else Search(kids[0], leafTest, nodeTest) + SearchOf(kids[1..], leafTest, nodeTest)
  }

  /** A sequential scan. */
  function Filter<V>(s: seq<V>, p: V -> bool): seq<V> {
    if s == [] then [] else (if p(s[0]) then [s[0]] else []) + Filter(s[1..], p)
  }

  // A page split: the entries of a page, numbered from 1, go to two sides.

  predicate InRange(offsets: seq<int>, n: nat) {
    forall i :: 0 <= i < |offsets| ==> 1 <= offsets[i] <= n
  }

  ghost predicate Distinct(offsets: seq<int>) {
    forall i, j :: 0 <= i < j < |offsets| ==> offsets[i] != offsets[j]
  }

  /** order lists the offsets 1..n, each once. */
  ghost predicate IsPermutation(order: seq<int>, n: nat) {
    |order| == n && InRange(order, n) && Distinct(order) && forall o :: 1 <= o <= n ==> o in order
  }

  /** Every offset goes to exactly one side, and is listed there once. */
  ghost predicate Partition(left: seq<int>, right: seq<int>, n: nat) {
    && InRange(left, n) && Distinct(left)
    && InRange(right, n) && Distinct(right)
    && (forall o :: 1 <= o <= n ==> (o in left) != (o in right))
    && |left| + |right| == n
  }

  /** Dealing out a permutation in two runs partitions the offsets. */
  lemma HalvesPartition(order: seq<int>, n: nat, h: nat)
    requires IsPermutation(order, n) && h <= n
    ensures Partition(order[..h], order[h..], n)
  {
    var left, right := order[..h], order[h..];
    assert order == left + right;
    forall o | 1 <= o <= n ensures (o in left) != (o in right) {
      assert o in order;
    }
  }

  /** The keys at the given offsets of a page. */
  function At<K>(entries: seq<K>, offsets: seq<int>): seq<K>
    requires InRange(offsets, |entries|)
  {
    seq(|offsets|, i requires 0 <= i < |offsets| => entries[offsets[i] - 1])
  }

  lemma {:induction false} ValuesOfConcat<V, K>(a: seq<Tree<V, K>>, b: seq<Tree<V, K>>)
    ensures ValuesOf(a + b) == ValuesOf(a) + ValuesOf(b)
  {
    hide Values;
    if a == [] {
      assert a + b == b;
    } else {
      ValuesOfConcat(a[1..], b);
      assert (a + b)[0] == a[0] && (a + b)[1..] == a[1..] + b;
      var head := Values(a[0]);
      assert head + (ValuesOf(a[1..]) + ValuesOf(b)) == head + ValuesOf(a[1..]) + ValuesOf(b);
    }
  }

  function Without(offsets: seq<int>, k: nat): (rest: seq<int>)
    requires k < |offsets|
    ensures |rest| == |offsets| - 1
  {
    offsets[..k] + offsets[k + 1..]
  }

  /** Taking offset n away from the side that has it leaves a partition of the others. */
  lemma PartitionWithout(left: seq<int>, right: seq<int>, n: nat, k: nat)
    requires Partition(left, right, n) && k < |left| && left[k] == n
    ensures Partition(Without(left, k), right, n - 1)
  {
    var rest := Without(left, k);
    assert forall i :: 0 <= i < |rest| ==> rest[i] == left[if i < k then i else i + 1];
    forall o | 1 <= o < n ensures o in rest <==> o in left {
      if o in left {
        var i :| 0 <= i < |left| && left[i] == o;
        assert rest[if i < k then i else i - 1] == o;
      }
    }
    assert n in left && n !in right;
  }

  /** The entries at some offsets are those at all but one of them, and the one. */
  lemma ValuesWithout<V, K>(kids: seq<Tree<V, K>>, offsets: seq<int>, k: nat)
    requires InRange(offsets, |kids|) && k < |offsets| && offsets[k] == |kids|
    requires InRange(Without(offsets, k), |kids| - 1)
    ensures var n := |kids| - 1;
            multiset(ValuesOf(At(kids, offsets))) ==
            multiset(ValuesOf(At(kids[..n], Without(offsets, k)))) + multiset(Values(kids[n]))
  {
    var n := |kids| - 1;
    var a, b := At(kids, offsets)[..k], At(kids, offsets)[k + 1..];
    assert At(kids, offsets) == a + [kids[n]] + b;
    assert At(kids[..n], Without(offsets, k)) == a + b;
    ValuesOfConcat(a + [kids[n]], b);
    ValuesOfConcat(a, [kids[n]]);
    ValuesOfConcat(a, b);
    ValuesOfOne(kids[n]);
  }

  lemma ValuesOfOne<V, K>(kid: Tree<V, K>)
    ensures ValuesOf([kid]) == Values(kid)
  {
    assert [kid][1..] == [];
  }

  /** A split neither loses nor repeats a value. */
  lemma {:induction false} SplitConserves<V, K>(kids: seq<Tree<V, K>>, left: seq<int>, right: seq<int>)
    requires Partition(left, right, |kids|)
    ensures multiset(ValuesOf(At(kids, left))) + multiset(ValuesOf(At(kids, right))) == multiset(ValuesOf(kids))
    decreases |kids|, if |kids| in left then 0 else 1
  {
    hide ValuesOf;
    if kids == [] {
      assert At(kids, left) == [] == At(kids, right);
      NoValues<V, K>();
    } else if |kids| in left {
      var n := |kids| - 1;
      var k :| 0 <= k < |left| && left[k] == n + 1;
      PartitionWithout(left, right, n + 1, k);
      hide Partition;
      SplitConserves(kids[..n], Without(left, k), right);
      ValuesWithout(kids, left, k);
      LastOf(kids);
      assert At(kids, right) == At(kids[..n], right);
    } else {
      PartitionSwap(left, right, |kids|);
      SplitConserves(kids, right, left);
    }
  }

  lemma NoValues<V, K>()
    ensures ValuesOf<V, K>([]) == []
  {
  }

  lemma LastOf<V, K>(kids: seq<Tree<V, K>>)
    requires kids != []
    ensures ValuesOf(kids) == ValuesOf(kids[..|kids| - 1]) + Values(kids[|kids| - 1])
  {
    var n := |kids| - 1;
    assert kids == kids[..n] + [kids[n]];
    ValuesOfConcat(kids[..n], [kids[n]]);
    ValuesOfOne(kids[n]);
  }

  /** The two sides may be told the other way round. */
  lemma PartitionSwap(left: seq<int>, right: seq<int>, n: nat)
    requires Partition(left, right, n)
    ensures Partition(right, left, n)
  {
  }

  /** Every key on the way stands for every value below it. */
  ghost predicate Covered<V(!new), K>(t: Tree<V, K>, admits: (K, V) -> bool)
    decreases t
  {
    match t
    case Entry(_) => true
    case Page(key, kids) =>
      (forall v :: v in Values(t) ==> admits(key, v)) && forall kid :: kid in kids ==> Covered(kid, admits)
  }

  lemma {:induction false} FilterConcat<V>(a: seq<V>, b: seq<V>, p: V -> bool)
    ensures Filter(a + b, p) == Filter(a, p) + Filter(b, p)
  {
    if a == [] {
      assert a + b == b;
    } else {
      FilterConcat(a[1..], b, p);
      assert (a + b)[0] == a[0] && (a + b)[1..] == a[1..] + b;
      var head := if p(a[0]) then [a[0]] else [];
      assert head + (Filter(a[1..], p) + Filter(b, p)) == head + Filter(a[1..], p) + Filter(b, p);
    }
  }

  lemma {:induction false} FilterNone<V>(s: seq<V>, p: V -> bool)
    requires forall v :: v in s ==> !p(v)
    ensures Filter(s, p) == []
  {
    if s != [] { FilterNone(s[1..], p); }
  }

  lemma {:induction false} FilterKeeps<V>(s: seq<V>, p: V -> bool, v: V)
    requires v in s && p(v)
    ensures v in Filter(s, p)
  {
    if s[0] != v { FilterKeeps(s[1..], p, v); }
  }

  /** Filtering depends on the values, not on their order. */
  lemma {:induction false} FilterCount<V>(s: seq<V>, p: V -> bool, v: V)
    ensures multiset(Filter(s, p))[v] == if p(v) then multiset(s)[v] else 0
  {
    if s != [] {
      FilterCount(s[1..], p, v);
      assert s == [s[0]] + s[1..];
    }
  }

  lemma FilterPermutes<V(!new)>(s: seq<V>, t: seq<V>, p: V -> bool)
    requires multiset(s) == multiset(t)
    ensures multiset(Filter(s, p)) == multiset(Filter(t, p))
  {
    forall v ensures multiset(Filter(s, p))[v] == multiset(Filter(t, p))[v] {
      FilterCount(s, p, v);
      FilterCount(t, p, v);
    }
  }

  lemma {:induction false} FilterSame<V(!new)>(s: seq<V>, p: V -> bool, q: V -> bool)
    requires forall v :: p(v) == q(v)
    ensures Filter(s, p) == Filter(s, q)
  {
    if s != [] { FilterSame(s[1..], p, q); }
  }

  /** A value lies below a page exactly if it lies below one of its entries. */
  lemma {:induction false} ValuesBelow<V, K>(kids: seq<Tree<V, K>>, v: V)
    ensures v in ValuesOf(kids) <==> exists kid :: kid in kids && v in Values(kid)
  {
    if kids != [] {
      ValuesBelow(kids[1..], v);
      assert kids == [kids[0]] + kids[1..];
      assert ValuesOf(kids) == Values(kids[0]) + ValuesOf(kids[1..]);
      if kid :| kid in kids && v in Values(kid) {
        assert kid == kids[0] || kid in kids[1..];
      }
    }
  }

  /** An index whose keys stand for what lies below them, with a test that never turns away a key
      standing for a wanted value, answers every query as a scan of all values would. */
  lemma {:induction false} SearchIsScan<V(!new), K(!new)>(t: Tree<V, K>, admits: (K, V) -> bool,
                                                          wanted: V -> bool, nodeTest: K -> bool)
    requires Covered(t, admits)
    requires forall key, v :: admits(key, v) && wanted(v) ==> nodeTest(key)
    ensures Search(t, wanted, nodeTest) == Filter(Values(t), wanted)
    decreases t
  {
    match t
    case Entry(v) =>
      assert Filter([v], wanted) == (if wanted(v) then [v] else []) + Filter([], wanted);
    case Page(key, kids) =>
      if nodeTest(key) {
        SearchOfIsScan(kids, admits, wanted, nodeTest);
      } else {
        forall v | v in Values(t) ensures !wanted(v) {
          assert admits(key, v);
        }
        FilterNone(Values(t), wanted);
      }
  }

  lemma {:induction false} SearchOfIsScan<V(!new), K(!new)>(kids: seq<Tree<V, K>>, admits: (K, V) -> bool,
                                                            wanted: V -> bool, nodeTest: K -> bool)
    requires forall kid :: kid in kids ==> Covered(kid, admits)
    requires forall key, v :: admits(key, v) && wanted(v) ==> nodeTest(key)
    ensures SearchOf(kids, wanted, nodeTest) == Filter(ValuesOf(kids), wanted)
    decreases kids
  {
    if kids != [] {
      SearchIsScan(kids[0], admits, wanted, nodeTest);
      SearchOfIsScan(kids[1..], admits, wanted, nodeTest);
      FilterConcat(Values(kids[0]), ValuesOf(kids[1..]), wanted);
    }
  }

  /** A covered tree stays covered when what holds of all its values is asked of each key and value. */
  lemma {:induction false} CoveredAnd<V(!new), K>(t: Tree<V, K>, admits: (K, V) -> bool, p: V -> bool,
                                                  both: (K, V) -> bool)
    requires Covered(t, admits) && forall v :: v in Values(t) ==> p(v)
    requires forall key, v :: admits(key, v) && p(v) ==> both(key, v)
    ensures Covered(t, both)
    decreases t
  {
    match t
    case Entry(_) =>
    case Page(key, kids) =>
      forall kid | kid in kids ensures Covered(kid, both) {
        forall v | v in Values(kid) ensures p(v) {
          ValuesBelow(kids, v);
        }
        CoveredAnd(kid, admits, p, both);
      }
  }
}
