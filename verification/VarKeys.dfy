/** Variable-length keys of btree_gist (btree_utils_var.cpp) in their bytea instance: byte order,
    truncation on, no conversion from leaf to node keys. */
module VarKeys {
  import opened Bytes
  import opened ByteOrder
  import opened Gist
  import opened Options

  /** A leaf key is one whole value; a node key is an interval with cut-off bounds. */
  datatype VarKey = Leaf(value: Bytea) | Node(lo: Bytea, hi: Bytea) {
    /** The readable form: a leaf key is its own lower and upper bound. */
    function Lower(): Bytea {
      if Leaf? then value else lo
    }
    function Upper(): Bytea {
      if Leaf? then value else hi
    }

    predicate Ordered() {
      Le(Lower(), Upper())
    }

    /** The upper bound was cut, so longer strings that start with it belong to the interval too. */
    predicate Open() {
      CommonPrefix(Lower(), Upper()) + 2 <= |Upper()|
    }

    /** The leaf values a key stands for. */
    predicate Admits(k: Bytea) {
      Le(Lower(), k) && (Le(k, Upper()) || (Open() && Upper() <= k))
    }
  }

  lemma LeafAdmits(v: Bytea, k: Bytea)
    ensures Leaf(v).Admits(k) <==> k == v
  {
    CompareSign(v, k);
    CommonPrefixUnique(v, v, |v|);
  }

  // ---------------------------------------------------------------------------------------------
  // Union
  // ---------------------------------------------------------------------------------------------

  /** gbt_var_bin_union: widens u, or starts it. */
  function BinUnion(u: Option<VarKey>, e: VarKey): VarKey {
    match u
    case None => Node(e.Lower(), e.Upper())
    case Some(r) =>
      Node(if Compare(r.Lower(), e.Lower()) > 0 then e.Lower() else r.Lower(),
           if Compare(r.Upper(), e.Upper()) < 0 then e.Upper() else r.Upper())
  }

  /** The union of all keys, before any truncation. */
  function Hull(keys: seq<VarKey>): VarKey
    requires keys != []
  {
    var n := |keys| - 1;
    if n == 0 then BinUnion(None, keys[0]) else BinUnion(Some(Hull(keys[..n])), keys[n])
  }

  /** The union of two keys encloses both and takes each bound from one of them. */
  lemma BinUnionBounds(r: VarKey, e: VarKey)
    ensures var g := BinUnion(Some(r), e);
            && Le(g.Lower(), r.Lower()) && Le(g.Lower(), e.Lower()) && g.Lower() in {r.Lower(), e.Lower()}
            && Le(r.Upper(), g.Upper()) && Le(e.Upper(), g.Upper()) && g.Upper() in {r.Upper(), e.Upper()}
  {
    hide Compare;
    CompareSign(r.Lower(), e.Lower());
    CompareSign(r.Upper(), e.Upper());
    CompareSign(r.Lower(), r.Lower());
    CompareSign(e.Lower(), e.Lower());
    CompareSign(r.Upper(), r.Upper());
    CompareSign(e.Upper(), e.Upper());
  }

  /** The hull is the tightest interval around the bounds of its keys. */
  lemma {:induction false} HullBounds(keys: seq<VarKey>)
    requires keys != []
    ensures forall e :: e in keys ==> Le(Hull(keys).Lower(), e.Lower()) && Le(e.Upper(), Hull(keys).Upper())
    ensures exists e :: e in keys && Hull(keys).Lower() == e.Lower()
    ensures exists e :: e in keys && Hull(keys).Upper() == e.Upper()
  {
    hide Compare;
    hide Le;
    var n := |keys| - 1;
    var last := keys[n];
    if n == 0 {
      BinUnionBounds(last, last);
      assert keys == [last];
    } else {
      var init := keys[..n];
      var h, g := Hull(init), Hull(keys);
      HullBounds(init);
      BinUnionBounds(h, last);
      assert keys == init + [last];
      forall e | e in keys ensures Le(g.Lower(), e.Lower()) && Le(e.Upper(), g.Upper()) {
        if e in init {
          LeTransitive(g.Lower(), h.Lower(), e.Lower());
          LeTransitive(e.Upper(), h.Upper(), g.Upper());
        }
      }
      var low :| low in init && h.Lower() == low.Lower();
      var high :| high in init && h.Upper() == high.Upper();
      assert low in keys && high in keys && last in keys;
    }
  }

  lemma HullOrdered(keys: seq<VarKey>)
    requires keys != [] && forall e :: e in keys ==> e.Ordered()
    ensures Hull(keys).Ordered()
  {
    HullBounds(keys);
    var e :| e in keys && Hull(keys).Lower() == e.Lower();
    LeTransitive(e.Lower(), e.Upper(), Hull(keys).Upper());
  }

  /** gbt_var_node_truncate: both bounds cut to the same width. */
  function CutKey(key: VarKey, w: nat): VarKey {
    Node(Cut(key.Lower(), w), Cut(key.Upper(), w))
  }

  /** gbt_var_union: the hull, cut two bytes past the common prefix of its bounds. */
  function UnionKey(keys: seq<VarKey>): VarKey
    requires keys != []
  {
    var h := Hull(keys);
    CutKey(h, CommonPrefix(h.Lower(), h.Upper()) + 2)
  }

  // ---------------------------------------------------------------------------------------------
  // What cutting a hull can lose
  // ---------------------------------------------------------------------------------------------

  /** The cut hull keeps something of everything that starts with e's upper bound: either that bound
      is no proper prefix of the new one, or the new one only adds bytes that cannot be exceeded. */
  predicate Keeps(e: VarKey, upper: Bytea) {
    e.Open() && e.Upper() < upper ==> forall i :: |e.Upper()| <= i < |upper| ==> upper[i] == 255
  }

  /** Whether a hull may be cut at width w without losing a leaf of any of its keys. */
  predicate SafeCut(keys: seq<VarKey>, w: nat)
    requires keys != []
  {
    forall e :: e in keys ==> Keeps(e, Cut(Hull(keys).Upper(), w))
  }

  lemma {:induction false} BelowAllOnes(a: Bytea, k: Bytea)
    requires forall i :: 0 <= i < |a| ==> a[i] == 255
    ensures Le(k, a) || a <= k
  {
    if a != [] && k != [] && k[0] == 255 {
      BelowAllOnes(a[1..], k[1..]);
      assert k == [k[0]] + k[1..] && a == [a[0]] + a[1..];
    }
  }

  lemma {:induction false} CompareBehindPrefix(p: Bytea, a: Bytea, b: Bytea)
    requires p <= a && p <= b
    ensures Compare(a, b) == Compare(a[|p|..], b[|p|..])
  {
    if p != [] { CompareBehindPrefix(p[1..], a[1..], b[1..]); }
  }

  /** A safe cut past the common prefix admits every leaf that one of the keys admitted. */
  lemma CutAdmits(keys: seq<VarKey>, w: nat, e: VarKey, k: Bytea)
    requires keys != [] && e in keys && e.Ordered() && e.Admits(k)
    requires CommonPrefix(Hull(keys).Lower(), Hull(keys).Upper()) + 2 <= w
    requires Keeps(e, Cut(Hull(keys).Upper(), w))
    ensures CutKey(Hull(keys), w).Admits(k)
  {
    hide Compare;
    hide CommonPrefix;
    var h := Hull(keys);
    var lower, upper := Cut(h.Lower(), w), Cut(h.Upper(), w);
    HullBounds(keys);
    PrefixBelow(lower, h.Lower());
    LeTransitive(lower, h.Lower(), e.Lower());
    LeTransitive(lower, e.Lower(), k);
    CommonPrefixOfCuts(h.Lower(), h.Upper(), w);
    CommonPrefixNested(h.Lower(), e.Lower(), e.Upper(), h.Upper());
    if !Le(k, upper) {
      CompareSign(k, upper);
      if Le(k, h.Upper()) {
        PrefixConvex(upper, k, h.Upper());
        CutWasNeeded(h.Upper(), k, w);
      } else {
        BeyondHull(h, e, k, upper);
        if upper <= e.Upper() && |upper| < w {
          PrefixBelow(upper, e.Upper());
          CompareSign(upper, e.Upper());
        }
      }
    }
  }

  lemma CutWasNeeded(a: Bytea, k: Bytea, w: nat)
    requires Le(k, a) && !Le(k, Cut(a, w))
    ensures |Cut(a, w)| == w
  {
  }

  /** A leaf above the hull can only be there because its key was already cut. */
  lemma BeyondHull(h: VarKey, e: VarKey, k: Bytea, upper: Bytea)
    requires Le(e.Upper(), h.Upper()) && !Le(k, h.Upper()) && e.Admits(k)
    requires upper <= h.Upper() && !Le(k, upper) && Keeps(e, upper)
    ensures e.Open() && upper <= k && (upper <= e.Upper() || e.Upper() < upper)
  {
    var u := e.Upper();
    if Le(k, u) {
      LeTransitive(k, u, h.Upper());
    }
    CompareSign(k, h.Upper());
    PrefixConvex(u, h.Upper(), k);
    if |u| < |upper| {
      assert u < upper;
      CompareBehindPrefix(u, k, upper);
      BelowAllOnes(upper[|u|..], k[|u|..]);
      assert upper == u + upper[|u|..] && k == u + k[|u|..];
    } else {
      assert upper <= u;
    }
  }

  /** Where a cut is not safe, some leaf that one of the keys admitted is lost. */
  lemma UnsafeCutLoses(keys: seq<VarKey>, w: nat, e: VarKey) returns (k: Bytea)
    requires keys != [] && e in keys && e.Ordered() && !Keeps(e, Cut(Hull(keys).Upper(), w))
    ensures e.Admits(k) && !CutKey(Hull(keys), w).Admits(k)
  {
    hide Hull;
    hide CommonPrefix;
    var u, upper := e.Upper(), Cut(Hull(keys).Upper(), w);
    var i :| |u| <= i < |upper| && upper[i] != 255;
    k := upper[..i] + [upper[i] + 1];
    assert u <= upper[..i] <= k;
    PrefixBelow(u, k);
    LeTransitive(e.Lower(), u, k);
    CompareBehindPrefix(upper[..i], k, upper);
    assert k[i] != upper[i];
  }

  /** Cutting the hull of some keys past its common prefix loses no leaf exactly when the cut is safe. */
  lemma CutLosesNothingIff(keys: seq<VarKey>, w: nat)
    requires keys != [] && forall e :: e in keys ==> e.Ordered()
    requires CommonPrefix(Hull(keys).Lower(), Hull(keys).Upper()) + 2 <= w
    ensures (forall e, k :: e in keys && e.Admits(k) ==> CutKey(Hull(keys), w).Admits(k)) <==> SafeCut(keys, w)
  {
    if SafeCut(keys, w) {
      forall e, k | e in keys && e.Admits(k) ensures CutKey(Hull(keys), w).Admits(k) {
        CutAdmits(keys, w, e, k);
      }
    } else {
      var e :| e in keys && !Keeps(e, Cut(Hull(keys).Upper(), w));
      var k := UnsafeCutLoses(keys, w, e);
      assert e in keys && e.Admits(k);
    }
  }

  /** Two bytes past the common prefix is always safe, however often the keys were cut before. */
  lemma UnionIsSafe(keys: seq<VarKey>)
    requires keys != [] && forall e :: e in keys ==> e.Ordered()
    ensures SafeCut(keys, CommonPrefix(Hull(keys).Lower(), Hull(keys).Upper()) + 2)
  {
    hide Compare;
    hide CommonPrefix;
    HullBounds(keys);
    var h := Hull(keys);
    var w := CommonPrefix(h.Lower(), h.Upper()) + 2;
    forall e | e in keys ensures Keeps(e, Cut(h.Upper(), w)) {
      CommonPrefixNested(h.Lower(), e.Lower(), e.Upper(), h.Upper());
    }
  }

  /** A page of whole keys may be cut anywhere past the common prefix. */
  lemma LeafPageIsSafe(keys: seq<VarKey>, w: nat)
    requires keys != [] && forall e :: e in keys ==> e.Leaf?
    ensures SafeCut(keys, w)
  {
    forall e | e in keys ensures !e.Open() {
      CommonPrefixUnique(e.value, e.value, |e.value|);
    }
  }

  /** A safely cut hull is ordered, admits every leaf that any of its keys admits, and its bounds
      coincide only if those of the hull do. */
  lemma CutHull(keys: seq<VarKey>, w: nat)
    requires keys != [] && forall e :: e in keys ==> e.Ordered()
    requires CommonPrefix(Hull(keys).Lower(), Hull(keys).Upper()) + 2 <= w && SafeCut(keys, w)
    ensures CutKey(Hull(keys), w).Ordered()
    ensures forall e, k :: e in keys && e.Admits(k) ==> CutKey(Hull(keys), w).Admits(k)
    ensures CutKey(Hull(keys), w).Lower() == CutKey(Hull(keys), w).Upper() ==> Hull(keys).Lower() == Hull(keys).Upper()
  {
    hide Compare;
    hide CommonPrefix;
    var h := Hull(keys);
    HullOrdered(keys);
    CutMonotone(h.Lower(), h.Upper(), w);
    CutLosesNothingIff(keys, w);
    CutsDiffer(h.Lower(), h.Upper(), w);
  }

  lemma CutsDiffer(a: Bytea, b: Bytea, w: nat)
    requires CommonPrefix(a, b) < w
    ensures Cut(a, w) == Cut(b, w) ==> a == b
  {
    if Cut(a, w) == Cut(b, w) {
      CommonPrefixOfCuts(a, b, w);
      CommonPrefixUnique(Cut(a, w), Cut(b, w), |Cut(a, w)|);
    }
  }

  /** key is what is left of h when both bounds are cut to n bytes past the common prefix: each bound starts
      the whole one, is no longer than that, and is shorter than the whole one only if it is as long as that. */
  ghost predicate IsCut(key: VarKey, h: VarKey, w: nat) {
    && key.Node?
    && key.lo <= h.Lower() && |key.lo| <= w && (|key.lo| < |h.Lower()| ==> |key.lo| == w)
    && key.hi <= h.Upper() && |key.hi| <= w && (|key.hi| < |h.Upper()| ==> |key.hi| == w)
  }

  /** Cutting past the common prefix leaves exactly such a key, with the same common prefix. */
  lemma CutKeyIff(h: VarKey, w: nat, key: VarKey)
    requires CommonPrefix(h.Lower(), h.Upper()) <= w
    ensures key == CutKey(h, w) <==> IsCut(key, h, w)
    ensures var cut := CutKey(h, w); CommonPrefix(cut.Lower(), cut.Upper()) == CommonPrefix(h.Lower(), h.Upper())
  {
    CommonPrefixOfCuts(h.Lower(), h.Upper(), w);
    hide CommonPrefix;
    if IsCut(key, h, w) {
      assert key.lo == h.Lower()[..|key.lo|] && key.hi == h.Upper()[..|key.hi|];
      assert Cut(h.Lower(), w) == h.Lower()[..|key.lo|] && Cut(h.Upper(), w) == h.Upper()[..|key.hi|];
    }
  }

  // ---------------------------------------------------------------------------------------------
  // The support functions that work in loops
  // ---------------------------------------------------------------------------------------------

  /** gbt_var_node_cp_len, single-byte path. */
  method NodeCpLen(node: VarKey) returns (n: nat)
    ensures n == CommonPrefix(node.Lower(), node.Upper())
  {
    var p1, p2 := node.Lower(), node.Upper();
    var ml := if |p1| < |p2| then |p1| else |p2|;
    if ml == 0 { return 0; }
    var i := 0;
    while i < ml
      invariant 0 <= i <= ml && p1[..i] == p2[..i]
    {
      if p1[i] != p2[i] {
        CommonPrefixUnique(p1, p2, i);
        return i;
      }
      assert p1[..i + 1] == p1[..i] + [p1[i]] && p2[..i + 1] == p2[..i] + [p2[i]];
      i := i + 1;
    }
    CommonPrefixUnique(p1, p2, ml);
    return ml;
  }

  /** gbt_var_union. */
  method Union(entries: seq<VarKey>) returns (out: VarKey)
    requires entries != [] && forall e :: e in entries ==> e.Ordered()
    ensures out == UnionKey(entries) && out.Ordered()
    ensures IsCut(out, Hull(entries), CommonPrefix(out.Lower(), out.Upper()) + 2)
    ensures forall e, k :: e in entries && e.Admits(k) ==> out.Admits(k)
  {
    hide Compare;
    hide CommonPrefix;
    hide SafeCut;
    hide VarKey.Ordered;
    hide VarKey.Admits;
    hide IsCut;
    out := Node(entries[0].Lower(), entries[0].Upper());
    assert entries[..1] == [entries[0]];
    for i := 1 to |entries|
      invariant out == Hull(entries[..i])
    {
      assert entries[..i + 1][..i] == entries[..i];
      out := BinUnion(Some(out), entries[i]);
    }
    assert entries[..|entries|] == entries;
    var plen := NodeCpLen(out);
    out := CutKey(out, plen + 2);
    UnionIsSafe(entries);
    CutHull(entries, plen + 2);
    CutKeyIff(Hull(entries), plen + 2, out);
  }

  // ---------------------------------------------------------------------------------------------
  // Searching
  // ---------------------------------------------------------------------------------------------

  /** The predicate a query asks of a stored value. */
  predicate Satisfies(k: Bytea, query: Bytea, strategy: Strategy) {
    match strategy
    case Less => Lt(k, query)
    case LessEqual => Le(k, query)
    case Equal => k == query
    case GreaterEqual => Le(query, k)
    case Greater => Lt(query, k)
    case NotEqual => k != query
    case Unknown => false
  }

  /** gbt_bytea_pf_match. */
  predicate PrefixMatch(pf: Bytea, query: Bytea) {
    |pf| <= |query| && query[..|pf|] == pf
  }

  predicate NodePrefixMatch(key: VarKey, query: Bytea) {
    PrefixMatch(key.Lower(), query) || PrefixMatch(key.Upper(), query)
  }

  /** gbt_var_consistent. */
  predicate Consistent(key: VarKey, query: Bytea, strategy: Strategy, isLeaf: bool) {
    match strategy
    case LessEqual =>
      if isLeaf then Compare(query, key.Lower()) >= 0
      else Compare(query, key.Lower()) >= 0 || NodePrefixMatch(key, query)
    case Less =>
      if isLeaf then Compare(query, key.Lower()) > 0
      else Compare(query, key.Lower()) >= 0 || NodePrefixMatch(key, query)
    case Equal =>
      if isLeaf then Compare(query, key.Lower()) == 0
      else (Compare(key.Lower(), query) <= 0 && Compare(query, key.Upper()) <= 0) || NodePrefixMatch(key, query)
    case Greater =>
      if isLeaf then Compare(query, key.Upper()) < 0
      else Compare(query, key.Upper()) <= 0 || NodePrefixMatch(key, query)
    case GreaterEqual =>
      if isLeaf then Compare(query, key.Upper()) <= 0
      else Compare(query, key.Upper()) <= 0 || NodePrefixMatch(key, query)
    case NotEqual =>
      !(Compare(query, key.Lower()) == 0 && Compare(query, key.Upper()) == 0)
    case Unknown => false
  }

  /** At a leaf the test is exact. */
  lemma LeafTestExact(k: Bytea, query: Bytea, strategy: Strategy)
    ensures Consistent(Leaf(k), query, strategy, true) <==> Satisfies(k, query, strategy)
  {
    CompareSign(k, query);
  }

  /** At a node the test never turns away a leaf that satisfies the query. */
  lemma NodeTestSound(key: VarKey, k: Bytea, query: Bytea, strategy: Strategy)
    requires key.Ordered() && key.Admits(k) && Satisfies(k, query, strategy)
    ensures Consistent(key, query, strategy, false)
  {
    hide Compare;
    hide CommonPrefix;
    var l, u := key.Lower(), key.Upper();
    CompareSign(query, l);
    CompareSign(query, u);
    CompareSign(query, k);
    match strategy
    case Less => LeTransitive(l, k, query);
    case LessEqual => LeTransitive(l, k, query);
    case Equal =>
    case GreaterEqual => QueryBelow(key, k, query);
    case Greater => QueryBelow(key, k, query);
    case NotEqual =>
      CompareSign(k, u);
      CommonPrefixUnique(u, u, |u|);
  }

  /** Exactly which nodes are entered. For the two lower strategies, those that do not begin above the query;
      for the two upper ones, those that do not end below it, or end in a prefix of it, or begin with one; for
      equality both; and for inequality all that admit another value. */
  lemma NodeTestIff(key: VarKey, query: Bytea, strategy: Strategy)
    requires key.Ordered()
    ensures var reaches := Le(query, key.Upper()) || key.Upper() <= query || key.Lower() <= query;
            Consistent(key, query, strategy, false) <==>
            match strategy
            case Less => Le(key.Lower(), query)
            case LessEqual => Le(key.Lower(), query)
            case Equal => Le(key.Lower(), query) && reaches
            case GreaterEqual => reaches
            case Greater => reaches
            case NotEqual => exists k :: key.Admits(k) && k != query
            case Unknown => false
  {
    hide CommonPrefix;
    var l, u := key.Lower(), key.Upper();
    CompareSign(query, l);
    CompareSign(query, u);
    PrefixTests(l, query);
    PrefixTests(u, query);
    hide Compare;
    if u <= query { LeTransitive(l, u, query); }
    if strategy == NotEqual {
      BoundsAdmitted(key);
      forall k | key.Admits(k) && k != query ensures Consistent(key, query, strategy, false) {
        NodeTestSound(key, k, query, strategy);
      }
    }
  }

  lemma PrefixTests(p: Bytea, query: Bytea)
    ensures PrefixMatch(p, query) <==> p <= query
    ensures p <= query ==> Le(p, query)
  {
    if p <= query { PrefixBelow(p, query); }
  }

  lemma BoundsAdmitted(key: VarKey)
    requires key.Ordered()
    ensures key.Admits(key.Lower()) && key.Admits(key.Upper())
  {
    hide CommonPrefix;
    CompareSign(key.Lower(), key.Lower());
    CompareSign(key.Upper(), key.Upper());
  }

  /** A query not above an admitted leaf is not above the upper bound, or starts with it. */
  lemma QueryBelow(key: VarKey, k: Bytea, query: Bytea)
    requires key.Admits(k) && Le(query, k)
    ensures Le(query, key.Upper()) || PrefixMatch(key.Upper(), query)
  {
    var u := key.Upper();
    if Le(k, u) {
      LeTransitive(query, k, u);
    } else if !Le(query, u) {
      CompareSign(query, u);
      PrefixConvex(u, query, k);
    }
  }

  // ---------------------------------------------------------------------------------------------
  // What cutting a hull means for searches
  // ---------------------------------------------------------------------------------------------

  /** Searches still reach a leaf that a cut key no longer admits if its lower bound is a prefix of its
      upper bound, because then every such leaf starts with the lower bound. */
  lemma LostLeafPrefix(keys: seq<VarKey>, w: nat, e: VarKey, k: Bytea)
    requires keys != [] && e in keys && e.Ordered() && e.Admits(k)
    requires CommonPrefix(Hull(keys).Lower(), Hull(keys).Upper()) + 2 <= w
    requires !CutKey(Hull(keys), w).Admits(k)
    ensures e.Open() && e.Upper() <= k && Le(CutKey(Hull(keys), w).Upper(), k)
    ensures |e.Upper()| >= CommonPrefix(CutKey(Hull(keys), w).Lower(), CutKey(Hull(keys), w).Upper()) + 2
    ensures Le(CutKey(Hull(keys), w).Lower(), k) && e.Upper() < CutKey(Hull(keys), w).Upper()
  {
    hide Compare;
    hide CommonPrefix;
    var h, cut := Hull(keys), CutKey(Hull(keys), w);
    if Keeps(e, cut.Upper()) { CutAdmits(keys, w, e, k); }
    HullBounds(keys);
    PrefixBelow(cut.Lower(), h.Lower());
    LeTransitive(cut.Lower(), h.Lower(), e.Lower());
    LeTransitive(cut.Lower(), e.Lower(), k);
    CompareSign(cut.Upper(), k);
    PrefixBelow(e.Upper(), cut.Upper());
    if Le(k, e.Upper()) { LeTransitive(k, e.Upper(), cut.Upper()); }
    CommonPrefixOfCuts(h.Lower(), h.Upper(), w);
    CommonPrefixNested(h.Lower(), e.Lower(), e.Upper(), h.Upper());
  }

  lemma LostLeafFound(keys: seq<VarKey>, w: nat, e: VarKey, k: Bytea, query: Bytea, strategy: Strategy)
    requires keys != [] && e in keys && e.Ordered() && e.Admits(k)
    requires CommonPrefix(Hull(keys).Lower(), Hull(keys).Upper()) + 2 <= w
    requires !CutKey(Hull(keys), w).Admits(k)
    requires CutKey(Hull(keys), w).Lower() <= CutKey(Hull(keys), w).Upper()
    requires Satisfies(k, query, strategy)
    ensures Consistent(CutKey(Hull(keys), w), query, strategy, false)
  {
    hide Compare;
    hide CommonPrefix;
    hide Hull;
    var cut := CutKey(Hull(keys), w);
    var l, u := cut.Lower(), cut.Upper();
    LostLeafPrefix(keys, w, e, k);
    CommonPrefixUnique(l, u, |l|);
    assert l <= e.Upper() <= k;
    CompareSign(query, k);
    CompareSign(query, l);
    CompareSign(query, u);
    if strategy == Greater || strategy == GreaterEqual {
      if !Le(query, u) {
        PrefixBelow(l, u);
        LeTransitive(l, u, query);
        PrefixConvex(l, query, k);
      }
    } else if strategy == Less || strategy == LessEqual {
      LeTransitive(l, k, query);
    }
  }

  /** A search for the lost leaf itself is turned away when the bounds differ before either ends. */
  lemma LostLeafMissed(keys: seq<VarKey>, w: nat, e: VarKey) returns (k: Bytea)
    requires keys != [] && e in keys && e.Ordered() && !Keeps(e, Cut(Hull(keys).Upper(), w))
    requires CommonPrefix(Hull(keys).Lower(), Hull(keys).Upper()) + 2 <= w
    requires !(CutKey(Hull(keys), w).Lower() <= CutKey(Hull(keys), w).Upper())
    ensures e.Admits(k) && !Consistent(CutKey(Hull(keys), w), k, Equal, false)
  {
    hide Compare;
    hide CommonPrefix;
    hide Hull;
    k := UnsafeCutLoses(keys, w, e);
    LostLeafPrefix(keys, w, e, k);
    var cut := CutKey(Hull(keys), w);
    var l, u := cut.Lower(), cut.Upper();
    var c := CommonPrefix(l, u);
    assert c < |l|;
    assert k[c] == e.Upper()[c] == u[c];
    CompareSign(k, u);
    CompareSign(k, l);
  }

  /** After cutting the hull of some keys past its common prefix, searches still find every leaf below
      them exactly when the cut is safe or the cut lower bound is a prefix of the cut upper bound. */
  lemma CutSearchIff(keys: seq<VarKey>, w: nat)
    requires keys != [] && forall e :: e in keys ==> e.Ordered()
    requires CommonPrefix(Hull(keys).Lower(), Hull(keys).Upper()) + 2 <= w
    ensures (forall e, k, query, strategy :: e in keys && e.Admits(k) && Satisfies(k, query, strategy) ==>
               Consistent(CutKey(Hull(keys), w), query, strategy, false))
       <==> SafeCut(keys, w) || CutKey(Hull(keys), w).Lower() <= CutKey(Hull(keys), w).Upper()
  {
    hide Compare;
    hide CommonPrefix;
    hide Hull;
    hide Consistent;
    var cut := CutKey(Hull(keys), w);
    if SafeCut(keys, w) || cut.Lower() <= cut.Upper() {
      HullOrdered(keys);
      CutMonotone(Hull(keys).Lower(), Hull(keys).Upper(), w);
      forall e, k, query, strategy | e in keys && e.Admits(k) && Satisfies(k, query, strategy)
        ensures Consistent(cut, query, strategy, false)
      {
        if cut.Admits(k) {
          NodeTestSound(cut, k, query, strategy);
        } else {
          if SafeCut(keys, w) { CutAdmits(keys, w, e, k); }
          LostLeafFound(keys, w, e, k, query, strategy);
        }
      }
    } else {
      var e :| e in keys && !Keeps(e, Cut(Hull(keys).Upper(), w));
      var k := LostLeafMissed(keys, w, e);
      assert Satisfies(k, k, Equal);
    }
  }
}
