/** Trees of variable-length keys: what inserting and splitting keep, and what a search finds. */
module VarIndex {
  import opened Bytes
  import opened ByteOrder
  import opened VarKeys
  import opened Gist
  import opened Options

  type VarTree = Tree<Bytea, VarKey>

  function KeyOf(t: VarTree): VarKey {
    match t
    case Entry(v) => Leaf(v)
    case Page(key, _) => key
  }

  function KeysOf(kids: seq<VarTree>): seq<VarKey> {
    seq(|kids|, i requires 0 <= i < |kids| => KeyOf(kids[i]))
  }

  /** Every page key is an interval that admits all values below it. */
  ghost predicate Sound(t: VarTree)
    decreases t
  {
    match t
    case Entry(_) => true
    case Page(key, kids) =>
      && key.Ordered()
      && (forall v :: v in Values(t) ==> key.Admits(v))
      && forall kid :: kid in kids ==> Sound(kid)
  }

  // ---------------------------------------------------------------------------------------------
  // Searching
  // ---------------------------------------------------------------------------------------------

  function IndexScan(t: VarTree, query: Bytea, strategy: Strategy): seq<Bytea> {
    Search(t, (v: Bytea) => Consistent(Leaf(v), query, strategy, true),
           (key: VarKey) => Consistent(key, query, strategy, false))
  }

  function FullScan(t: VarTree, query: Bytea, strategy: Strategy): seq<Bytea> {
    Filter(Values(t), (v: Bytea) => Satisfies(v, query, strategy))
  }

  predicate Stands(key: VarKey, v: Bytea) {
    key.Ordered() && key.Admits(v)
  }

  lemma {:induction false} SoundIsCovered(t: VarTree)
    requires Sound(t)
    ensures Covered(t, Stands)
    decreases t
  {
    match t
    case Entry(_) =>
    case Page(key, kids) =>
      forall kid | kid in kids ensures Covered(kid, Stands) {
        SoundIsCovered(kid);
      }
  }

  /** The index answers every query, under every strategy, as a scan of all values would. */
  lemma IndexAgreesWithScan(t: VarTree, query: Bytea, strategy: Strategy)
    requires Sound(t)
    ensures IndexScan(t, query, strategy) == FullScan(t, query, strategy)
  {
    var wanted := (v: Bytea) => Consistent(Leaf(v), query, strategy, true);
    var satisfied := (v: Bytea) => Satisfies(v, query, strategy);
    var nodeTest := (key: VarKey) => Consistent(key, query, strategy, false);
    forall v ensures wanted(v) == satisfied(v) {
      LeafTestExact(v, query, strategy);
    }
    forall key, v | Stands(key, v) && wanted(v) ensures nodeTest(key) {
      assert satisfied(v);
      NodeTestSound(key, v, query, strategy);
    }
    SoundIsCovered(t);
    SearchIsScan(t, Stands, wanted, nodeTest);
    FilterSame(Values(t), wanted, satisfied);
  }

  // ---------------------------------------------------------------------------------------------
  // Building
  // ---------------------------------------------------------------------------------------------

  lemma SoundKey(t: VarTree)
    requires Sound(t)
    ensures KeyOf(t).Ordered() && forall v :: v in Values(t) ==> KeyOf(t).Admits(v)
  {
    if t.Entry? {
      LeafAdmits(t.value, t.value);
      CompareSign(t.value, t.value);
    }
  }

  /** A key that admits all that some keys admit is a sound key for a page of entries with those keys. */
  lemma PageWithKey(key: VarKey, keys: seq<VarKey>, kids: seq<VarTree>)
    requires key.Ordered() && forall kid :: kid in kids ==> Sound(kid) && KeyOf(kid) in keys
    requires forall e, k :: e in keys && e.Admits(k) ==> key.Admits(k)
    ensures Sound(Page(key, kids))
  {
    forall v | v in Values(Page(key, kids)) ensures key.Admits(v) {
      ValuesBelow(kids, v);
      var kid :| kid in kids && v in Values(kid);
      SoundKey(kid);
    }
  }

  lemma KeysOfKids(kids: seq<VarTree>)
    requires forall kid :: kid in kids ==> Sound(kid)
    ensures forall kid :: kid in kids ==> KeyOf(kid) in KeysOf(kids)
    ensures forall e :: e in KeysOf(kids) ==> e.Ordered()
  {
    forall kid | kid in kids ensures KeyOf(kid) in KeysOf(kids) {
      var i :| 0 <= i < |kids| && kids[i] == kid;
      assert KeysOf(kids)[i] == KeyOf(kid);
    }
    forall e | e in KeysOf(kids) ensures e.Ordered() {
      var i :| 0 <= i < |kids| && KeysOf(kids)[i] == e;
      SoundKey(kids[i]);
    }
  }

  lemma UnionAdmits(keys: seq<VarKey>)
    requires keys != [] && forall e :: e in keys ==> e.Ordered()
    ensures UnionKey(keys).Ordered()
    ensures forall e, k :: e in keys && e.Admits(k) ==> UnionKey(keys).Admits(k)
  {
    hide Compare;
    hide CommonPrefix;
    hide Hull;
    hide SafeCut;
    hide VarKey.Admits;
    UnionIsSafe(keys);
    CutHull(keys, CommonPrefix(Hull(keys).Lower(), Hull(keys).Upper()) + 2);
  }

  /** A page keyed by the union of its entries' keys, themselves possibly cut before, is sound. */
  lemma UnionPageSound(kids: seq<VarTree>)
    requires kids != [] && forall kid :: kid in kids ==> Sound(kid)
    ensures Sound(Page(UnionKey(KeysOf(kids)), kids))
  {
    KeysOfKids(kids);
    UnionAdmits(KeysOf(kids));
    PageWithKey(UnionKey(KeysOf(kids)), KeysOf(kids), kids);
  }

  /** Inserting or replacing an entry and widening the old page key by its key keeps a page sound. */
  lemma AdjustedPageSound(page: VarTree, kid: VarTree, kids: seq<VarTree>)
    requires page.Page? && Sound(page) && Sound(kid)
    requires forall x :: x in kids ==> x in page.kids || x == kid
    ensures Sound(Page(UnionKey([page.key, KeyOf(kid)]), kids))
  {
    var keys := [page.key, KeyOf(kid)];
    var key := UnionKey(keys);
    SoundKey(kid);
    UnionAdmits(keys);
    assert page.key in keys && KeyOf(kid) in keys;
    forall v | v in ValuesOf(kids) ensures key.Admits(v) {
      ValuesBelow(kids, v);
      var x :| x in kids && v in Values(x);
      if x != kid {
        ValuesBelow(page.kids, v);
        assert v in Values(page);
      }
    }
  }

  /** All page keys of a tree are unions of the keys one level down. */
  ghost predicate BuiltByUnion(t: VarTree)
    decreases t
  {
    t.Entry? || (t.kids != [] && t.key == UnionKey(KeysOf(t.kids)) && forall kid :: kid in t.kids ==> BuiltByUnion(kid))
  }

  lemma {:induction false} BuiltByUnionIsSound(t: VarTree)
    requires BuiltByUnion(t)
    ensures Sound(t)
    decreases t
  {
    if t.Page? {
      forall kid | kid in t.kids ensures Sound(kid) {
        BuiltByUnionIsSound(kid);
      }
      UnionPageSound(t.kids);
    }
  }

  // ---------------------------------------------------------------------------------------------
  // Splitting
  // ---------------------------------------------------------------------------------------------

  /** gbt_vsrt_cmp: by lower bound, then by upper bound. */
  function SortCompare(a: VarKey, b: VarKey): int {
    var res := Compare(a.Lower(), b.Lower());
    if res == 0 then Compare(a.Upper(), b.Upper()) else res
  }

  /** What qsort_arg may return: any arrangement of the offsets in ascending key order. */
  ghost predicate Sorted(entries: seq<VarKey>, order: seq<int>) {
    && IsPermutation(order, |entries|)
    && forall i, j :: 0 <= i < j < |order| ==> SortCompare(entries[order[i] - 1], entries[order[j] - 1]) <= 0
  }

  /** The width at which a split cuts the keys of both sides. */
  function SplitWidth(left: seq<VarKey>, right: seq<VarKey>): nat
    requires left != [] && right != []
  {
    var ll := CommonPrefix(Hull(left).Lower(), Hull(left).Upper());
    var lr := CommonPrefix(Hull(right).Lower(), Hull(right).Upper());
    (if ll < lr then lr else ll) + 2
  }

  /** gbt_var_picksplit on the arrangement that sorting produced. */
  method PickSplit(entries: seq<VarKey>, order: seq<int>)
    returns (left: seq<int>, right: seq<int>, leftKey: VarKey, rightKey: VarKey)
    requires 2 <= |entries| && Sorted(entries, order)
    ensures Partition(left, right, |entries|)
    ensures left == order[..|entries| / 2] && right == order[|entries| / 2..] && left != [] && right != []
    ensures forall i, j :: 0 <= i < |left| && 0 <= j < |right| ==>
              NotAfter(entries[left[i] - 1], entries[right[j] - 1])
    ensures AreCut(leftKey, rightKey, Hull(At(entries, left)), Hull(At(entries, right)))
    ensures leftKey == CutKey(Hull(At(entries, left)), SplitWidth(At(entries, left), At(entries, right)))
    ensures rightKey == CutKey(Hull(At(entries, right)), SplitWidth(At(entries, left), At(entries, right)))
  {
    hide Compare;
    hide CommonPrefix;
    hide Hull;
    hide CutKey;
    hide AreCut;
    hide NotAfter;
    hide SortCompare;
    var half := |entries| / 2;
    HalvesPartition(order, |entries|, half);
    var l, r;
    left, right, l, r := Deal(entries, order, half);
    SortedHalves(entries, order, half);
    var ll := NodeCpLen(l);
    var lr := NodeCpLen(r);
    if ll < lr { ll := lr; }
    leftKey := CutKey(l, ll + 2);
    rightKey := CutKey(r, ll + 2);
    SplitCuts(l, r);
  }

  /** Both keys are cut two bytes past the longer of their own common prefixes, and no further. */
  ghost predicate AreCut(leftKey: VarKey, rightKey: VarKey, left: VarKey, right: VarKey) {
    var l, r := CommonPrefix(leftKey.Lower(), leftKey.Upper()), CommonPrefix(rightKey.Lower(), rightKey.Upper());
    var w := (if l < r then r else l) + 2;
    IsCut(leftKey, left, w) && IsCut(rightKey, right, w)
  }

  lemma SplitCuts(l: VarKey, r: VarKey)
    ensures var ll, lr := CommonPrefix(l.Lower(), l.Upper()), CommonPrefix(r.Lower(), r.Upper());
            var w := (if ll < lr then lr else ll) + 2;
            AreCut(CutKey(l, w), CutKey(r, w), l, r)
  {
    hide CommonPrefix;
    hide IsCut;
    var ll, lr := CommonPrefix(l.Lower(), l.Upper()), CommonPrefix(r.Lower(), r.Upper());
    var w := (if ll < lr then lr else ll) + 2;
    CutKeyIff(l, w, CutKey(l, w));
    CutKeyIff(r, w, CutKey(r, w));
  }

  /** In key order: by lower bounds, and for equal ones by upper bounds. */
  predicate NotAfter(a: VarKey, b: VarKey) {
    Le(a.Lower(), b.Lower()) && (a.Lower() == b.Lower() ==> Le(a.Upper(), b.Upper()))
  }

  lemma SortedHalves(entries: seq<VarKey>, order: seq<int>, h: nat)
    requires Sorted(entries, order) && h <= |order|
    ensures InRange(order, |entries|)
    ensures forall i, j :: 0 <= i < h && 0 <= j < |order| - h ==>
              NotAfter(entries[order[..h][i] - 1], entries[order[h..][j] - 1])
  {
    forall i, j | 0 <= i < h && 0 <= j < |order| - h
      ensures NotAfter(entries[order[..h][i] - 1], entries[order[h..][j] - 1])
    {
      CompareSign(entries[order[i] - 1].Lower(), entries[order[i] - 1].Lower());
      assert order[..h][i] == order[i] && order[h..][j] == order[h + j];
      assert SortCompare(entries[order[i] - 1], entries[order[h + j] - 1]) <= 0;
    }
  }

  /** Deals the offsets in order, the first half to the left, and forms the hull of either side. */
  method Deal(entries: seq<VarKey>, order: seq<int>, half: nat)
    returns (left: seq<int>, right: seq<int>, leftHull: VarKey, rightHull: VarKey)
    requires |order| == |entries| && InRange(order, |entries|) && 0 < half < |order|
    ensures left == order[..half] && right == order[half..]
    ensures leftHull == Hull(At(entries, left)) && rightHull == Hull(At(entries, right))
  {
    hide Hull;
    hide BinUnion;
    var l, r: Option<VarKey> := None, None;
    left, right := [], [];
    for i := 1 to |order| + 1
      invariant left == order[..if i - 1 < half then i - 1 else half]
      invariant right == order[half..if i - 1 < half then half else i - 1]
      invariant l == if left == [] then None else Some(Hull(At(entries, left)))
      invariant r == if right == [] then None else Some(Hull(At(entries, right)))
    {
      var o := order[i - 1];
      if i <= half {
        HullOfMore(entries, left, o);
        l, left := Some(BinUnion(l, entries[o - 1])), left + [o];
      } else {
        HullOfMore(entries, right, o);
        r, right := Some(BinUnion(r, entries[o - 1])), right + [o];
      }
    }
    leftHull, rightHull := l.value, r.value;
  }

  lemma HullOfMore(entries: seq<VarKey>, offsets: seq<int>, o: int)
    requires 1 <= o <= |entries| && InRange(offsets, |entries|)
    ensures InRange(offsets + [o], |entries|)
    ensures Hull(At(entries, offsets + [o]))
         == BinUnion(if offsets == [] then None else Some(Hull(At(entries, offsets))), entries[o - 1])
  {
    assert At(entries, offsets + [o]) == At(entries, offsets) + [entries[o - 1]];
    assert (At(entries, offsets) + [entries[o - 1]])[..|offsets|] == At(entries, offsets);
  }

  /** Searches find every leaf below some keys through the given page key. */
  ghost predicate AllFoundThrough(key: VarKey, keys: seq<VarKey>) {
    forall e, k, query, strategy :: e in keys && e.Admits(k) && Satisfies(k, query, strategy) ==>
      Consistent(key, query, strategy, false)
  }

  /** After a split, searches find every leaf below either side exactly when each side's hull may be cut
      at the common width: no earlier cut is undone, or its lower bound is a prefix of its upper one. */
  lemma SplitSearchIff(left: seq<VarKey>, right: seq<VarKey>)
    requires left != [] && right != []
    requires (forall e :: e in left ==> e.Ordered()) && forall e :: e in right ==> e.Ordered()
    ensures var w := SplitWidth(left, right);
            && (AllFoundThrough(CutKey(Hull(left), w), left)
                <==> SafeCut(left, w) || Cut(Hull(left).Lower(), w) <= Cut(Hull(left).Upper(), w))
            && (AllFoundThrough(CutKey(Hull(right), w), right)
                <==> SafeCut(right, w) || Cut(Hull(right).Lower(), w) <= Cut(Hull(right).Upper(), w))
  {
    CutSearchIff(left, SplitWidth(left, right));
    CutSearchIff(right, SplitWidth(left, right));
  }

  /** A safely split page is sound on either side; its bounds coincide only if the whole bounds did. */
  lemma SplitSideSound(side: seq<VarTree>, other: seq<VarKey>, w: nat)
    requires side != [] && other != [] && forall kid :: kid in side ==> Sound(kid)
    requires w == SplitWidth(KeysOf(side), other) || w == SplitWidth(other, KeysOf(side))
    requires SafeCut(KeysOf(side), w)
    ensures var key := CutKey(Hull(KeysOf(side)), w);
            && Sound(Page(key, side))
            && (key.Lower() == key.Upper() ==> Hull(KeysOf(side)).Lower() == Hull(KeysOf(side)).Upper())
  {
    hide Compare;
    hide CommonPrefix;
    KeysOfKids(side);
    CutHull(KeysOf(side), w);
    PageWithKey(CutKey(Hull(KeysOf(side)), w), KeysOf(side), side);
  }

  /** Leaf pages may always be split. */
  lemma LeafSplitSound(side: seq<VarTree>, other: seq<VarKey>, w: nat)
    requires side != [] && other != [] && forall kid :: kid in side ==> kid.Entry?
    requires w == SplitWidth(KeysOf(side), other) || w == SplitWidth(other, KeysOf(side))
    ensures var key := CutKey(Hull(KeysOf(side)), w);
            && Sound(Page(key, side))
            && (key.Lower() == key.Upper() ==> Hull(KeysOf(side)).Lower() == Hull(KeysOf(side)).Upper())
  {
    LeafPageIsSafe(KeysOf(side), w);
    SplitSideSound(side, other, w);
  }

  lemma KeysAt(kids: seq<VarTree>, offsets: seq<int>)
    requires InRange(offsets, |kids|)
    ensures InRange(offsets, |KeysOf(kids)|) && At(KeysOf(kids), offsets) == KeysOf(At(kids, offsets))
    ensures forall kid :: kid in At(kids, offsets) ==> kid in kids
  {
  }

  /** Splitting a page by its keys: nothing is lost or repeated. If it is a leaf page, or the common width
      is a safe cut on both sides, both new pages are sound, so that searches through them find exactly
      what a scan of the old page would. */
  method SplitPage(kids: seq<VarTree>, order: seq<int>) returns (left: VarTree, right: VarTree)
    requires 2 <= |kids| && Sorted(KeysOf(kids), order) && forall kid :: kid in kids ==> Sound(kid)
    ensures left.Page? && right.Page? && left.kids != [] && right.kids != []
    ensures multiset(Values(left)) + multiset(Values(right)) == multiset(ValuesOf(kids))
    ensures var w := SplitWidth(KeysOf(left.kids), KeysOf(right.kids));
            || (forall kid :: kid in kids ==> kid.Entry?)
            || (SafeCut(KeysOf(left.kids), w) && SafeCut(KeysOf(right.kids), w))
            ==> Sound(left) && Sound(right)
  {
    hide CutKey;
    hide SplitWidth;
    hide Sorted;
    hide SafeCut;
    hide Sound;
    var l, r, leftKey, rightKey := PickSplit(KeysOf(kids), order);
    KeysAt(kids, l);
    KeysAt(kids, r);
    var ls, rs := At(kids, l), At(kids, r);
    left, right := Page(leftKey, ls), Page(rightKey, rs);
    SplitConserves(kids, l, r);
    ghost var w := SplitWidth(KeysOf(ls), KeysOf(rs));
    if forall kid :: kid in kids ==> kid.Entry? {
      LeafSplitSound(ls, KeysOf(rs), w);
      LeafSplitSound(rs, KeysOf(ls), w);
    } else if SafeCut(KeysOf(ls), w) && SafeCut(KeysOf(rs), w) {
      SplitSideSound(ls, KeysOf(rs), w);
      SplitSideSound(rs, KeysOf(ls), w);
    }
  }

  /** Searching both sides of a split that left them sound answers as a scan of the whole page would. */
  lemma SplitSearchesAgree(left: VarTree, right: VarTree, kids: seq<VarTree>, query: Bytea, strategy: Strategy)
    requires Sound(left) && Sound(right)
    requires multiset(Values(left)) + multiset(Values(right)) == multiset(ValuesOf(kids))
    ensures multiset(IndexScan(left, query, strategy)) + multiset(IndexScan(right, query, strategy))
         == multiset(Filter(ValuesOf(kids), (v: Bytea) => Satisfies(v, query, strategy)))
  {
    IndexAgreesWithScan(left, query, strategy);
    IndexAgreesWithScan(right, query, strategy);
    var wanted := (v: Bytea) => Satisfies(v, query, strategy);
    FilterConcat(Values(left), Values(right), wanted);
    FilterPermutes(Values(left) + Values(right), ValuesOf(kids), wanted);
  }

  // Four pages whose keys are all unions. Splitting the page above them between the second and the
  // third cuts both sides at width 7, because the right side has a common prefix of five bytes.
  const LOST: Bytea := [1, 2, 9, 9]
  const PAGE1 := Page(Node([1, 1, 1], [1, 2, 9]), [Entry([1, 1, 1]), Entry(LOST)])
  const PAGE2 := Page(Node([1, 2, 9, 3], [1, 2, 9, 3]), [Entry([1, 2, 9, 3])])
  const PAGE3 := Page(Node([7, 7, 7, 7, 7, 1], [7, 7, 7, 7, 7, 1]), [Entry([7, 7, 7, 7, 7, 1])])
  const PAGE4 := Page(Node([7, 7, 7, 7, 7, 2], [7, 7, 7, 7, 7, 2]), [Entry([7, 7, 7, 7, 7, 2])])

  const PAGES := [PAGE1, PAGE2, PAGE3, PAGE4]

  lemma SingletonUnion(v: Bytea)
    ensures UnionKey(KeysOf([Entry(v)])) == Node(v, v)
  {
    assert KeysOf([Entry(v)]) == [Leaf(v)];
    CommonPrefixUnique(v, v, |v|);
  }

  lemma PairUnion(a: Bytea, b: Bytea)
    requires Lt(a, b)
    ensures UnionKey(KeysOf([Entry(a), Entry(b)])) == CutKey(Node(a, b), CommonPrefix(a, b) + 2)
  {
    CompareSign(a, b);
    hide Compare;
    hide CommonPrefix;
    var keys := [Leaf(a), Leaf(b)];
    assert KeysOf([Entry(a), Entry(b)]) == keys && keys[..1] == [Leaf(a)];
    assert Hull([Leaf(a)]) == Node(a, a);
  }

  lemma ExamplePages()
    ensures BuiltByUnion(PAGE1) && BuiltByUnion(PAGE2) && BuiltByUnion(PAGE3) && BuiltByUnion(PAGE4)
  {
    hide KeysOf;
    hide UnionKey;
    CompareBehindPrefix([1], [1, 1, 1], LOST);
    CommonPrefixUnique([1, 1, 1], LOST, 1);
    PairUnion([1, 1, 1], LOST);
    SingletonUnion([1, 2, 9, 3]);
    SingletonUnion([7, 7, 7, 7, 7, 1]);
    SingletonUnion([7, 7, 7, 7, 7, 2]);
  }

  /** The byte order of the bounds of the example pages. */
  lemma ExampleOrder()
    ensures Compare([1, 1, 1], [1, 2, 9, 3]) < 0 && Compare([1, 2, 9], [1, 2, 9, 3]) < 0
    ensures Compare([7, 7, 7, 7, 7, 1], [7, 7, 7, 7, 7, 2]) < 0
    ensures Compare([1, 1, 1], [7, 7, 7, 7, 7, 1]) < 0 && Compare([1, 1, 1], [7, 7, 7, 7, 7, 2]) < 0
    ensures Compare([1, 2, 9, 3], [7, 7, 7, 7, 7, 1]) < 0 && Compare([1, 2, 9, 3], [7, 7, 7, 7, 7, 2]) < 0
  {
    CompareBehindPrefix([1], [1, 1, 1], [1, 2, 9, 3]);
    CompareBehindPrefix([1, 2, 9], [1, 2, 9], [1, 2, 9, 3]);
    CompareBehindPrefix([7, 7, 7, 7, 7], [7, 7, 7, 7, 7, 1], [7, 7, 7, 7, 7, 2]);
  }

  lemma HullOfTwo(a: VarKey, b: VarKey)
    ensures Hull([a, b]) == BinUnion(Some(BinUnion(None, a)), b)
  {
    assert [a, b][..1] == [a];
  }

  lemma ExampleHulls()
    ensures Hull(KeysOf([PAGE1, PAGE2])) == Node([1, 1, 1], [1, 2, 9, 3])
    ensures Hull(KeysOf([PAGE3, PAGE4])) == Node([7, 7, 7, 7, 7, 1], [7, 7, 7, 7, 7, 2])
  {
    ExampleOrder();
    hide Compare;
    hide Hull;
    HullOfTwo(PAGE1.key, PAGE2.key);
    HullOfTwo(PAGE3.key, PAGE4.key);
    assert KeysOf([PAGE1, PAGE2]) == [PAGE1.key, PAGE2.key];
    assert KeysOf([PAGE3, PAGE4]) == [PAGE3.key, PAGE4.key];
  }

  const LEFT_PAGE := Page(Node([1, 1, 1], [1, 2, 9, 3]), [PAGE1, PAGE2])

  /** They are in key order as they stand. */
  lemma ExampleSorted()
    ensures Sorted(KeysOf(PAGES), [1, 2, 3, 4])
  {
    hide SortCompare;
    hide KeyOf;
    FirstFour();
    var keys, order := KeysOf(PAGES), [1, 2, 3, 4];
    forall i, j | 0 <= i < j < 4 ensures SortCompare(keys[order[i] - 1], keys[order[j] - 1]) <= 0 {
      assert order[i] == i + 1 && order[j] == j + 1;
      ExampleAscends(i, j);
    }
  }

  lemma ExampleAscends(i: nat, j: nat)
    requires i < j < 4
    ensures SortCompare(KeyOf(PAGES[i]), KeyOf(PAGES[j])) <= 0
  {
    ExampleOrder();
    hide Compare;
    assert i == 0 || i == 1 || i == 2;
  }

  lemma FirstFour()
    ensures IsPermutation([1, 2, 3, 4], 4)
  {
    var order := [1, 2, 3, 4];
    forall o | 1 <= o <= 4 ensures o in order {
      assert order[o - 1] == o;
    }
  }

  lemma ExampleSides()
    ensures At(KeysOf(PAGES), [1, 2]) == KeysOf([PAGE1, PAGE2])
    ensures At(KeysOf(PAGES), [3, 4]) == KeysOf([PAGE3, PAGE4])
  {
    KeysAt(PAGES, [1, 2]);
    KeysAt(PAGES, [3, 4]);
    hide KeysOf;
    assert At(PAGES, [1, 2]) == [PAGE1, PAGE2] && At(PAGES, [3, 4]) == [PAGE3, PAGE4];
  }

  /** The key that splitting gives the left page. */
  lemma ExampleSplit()
    ensures var left, right := At(KeysOf(PAGES), [1, 2]), At(KeysOf(PAGES), [3, 4]);
            left == KeysOf(LEFT_PAGE.kids) && LEFT_PAGE.key == CutKey(Hull(left), SplitWidth(left, right))
  {
    hide KeysOf;
    hide Hull;
    hide At;
    ExampleSides();
    ExampleHulls();
    CommonPrefixUnique([1, 1, 1], [1, 2, 9, 3], 1);
    CommonPrefixUnique([7, 7, 7, 7, 7, 1], [7, 7, 7, 7, 7, 2], 5);
  }

  /** Splitting an inner page can lose a leaf: the left page is entered under a key that turns away a
      search for a value stored below it. */
  lemma InnerSplitLosesLeaf()
    ensures LOST in FullScan(LEFT_PAGE, LOST, Equal)
    ensures IndexScan(LEFT_PAGE, LOST, Equal) == []
  {
    CompareBehindPrefix([1, 2, 9], LOST, [1, 2, 9, 3]);
    assert !Consistent(LEFT_PAGE.key, LOST, Equal, false);
    assert PAGE1.kids[1] in PAGE1.kids && LOST in Values(PAGE1.kids[1]);
    ValuesBelow(PAGE1.kids, LOST);
    assert PAGE1 in LEFT_PAGE.kids && LOST in Values(PAGE1);
    ValuesBelow(LEFT_PAGE.kids, LOST);
    FilterKeeps(Values(LEFT_PAGE), (v: Bytea) => Satisfies(v, LOST, Equal), LOST);
  }
}
