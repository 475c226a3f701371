/** Boxes in a GiST: consistency tests and Guttman's split (cube.cpp). */
module CubeIndex {
  import opened Gist
  import opened Cube
  import opened CubeOrder

  /** The strategies of the cube operator class, the two old numbers merged with the new ones. */
  datatype BoxStrategy = Overlaps | Same | Holds | HeldBy | Other

  /** The predicate a query asks of a stored box; it is also the test at a leaf. */
  ghost predicate Satisfies(b: Box, query: Box, strategy: BoxStrategy) {
    match strategy
    case Overlaps => BoxOverlap(b, query)
    case Same => Compare(b, query) == 0
    case Holds => BoxContains(b, query)
    case HeldBy => BoxContains(query, b)
    case Other => false
  }

  /** The test at an inner entry. */
  ghost predicate Consistent(key: Box, query: Box, strategy: BoxStrategy) {
    match strategy
    case Overlaps => BoxOverlap(key, query)
    case Same => BoxContains(key, query)
    case Holds => BoxContains(key, query)
    case HeldBy => BoxOverlap(key, query)
    case Other => false
  }

  /** g_cube_leaf_consistent. */
  method LeafConsistent(key: Box, query: Box, strategy: BoxStrategy) returns (r: bool)
    ensures r <==> Satisfies(key, query, strategy)
  {
    match strategy
    case Overlaps => r := Overlap(key, query);
    case Same =>
      var c := CubeCmp(key, query);
      r := c == 0;
    case Holds => r := Contains(key, query);
    case HeldBy => r := Contains(query, key);
    case Other => r := false;
  }

  /** g_cube_internal_consistent. */
  method InternalConsistent(key: Box, query: Box, strategy: BoxStrategy) returns (r: bool)
    ensures r <==> Consistent(key, query, strategy)
  {
    match strategy
    case Overlaps => r := Overlap(key, query);
    case Same => r := Contains(key, query);
    case Holds => r := Contains(key, query);
    case HeldBy => r := Overlap(key, query);
    case Other => r := false;
  }

  /** A query box contains zero in every dimension that the stored box lacks. */
  ghost predicate ZeroBeyond(b: Box, query: Box) {
    forall i: nat :: b.dim <= i < query.dim ==> query.Lo(i) <= 0.0 <= query.Hi(i)
  }

  /** The inner test never turns away a key over a box that satisfies the query; for contained-by, as
      long as the query contains zero where the box has no dimension. */
  lemma InnerTestSound(key: Box, b: Box, query: Box, strategy: BoxStrategy)
    requires Within(b, key) && Satisfies(b, query, strategy)
    requires strategy == HeldBy ==> ZeroBeyond(b, query)
    ensures Consistent(key, query, strategy)
  {
    if strategy == Same { CompareZero(b, query); }
    forall i: nat
      ensures key.Lo(i) <= b.Lo(i) <= b.Hi(i) <= key.Hi(i)
      ensures query.Lo(i) <= query.Hi(i)
      ensures b.dim <= i ==> b.Lo(i) == 0.0 == b.Hi(i)
      ensures query.dim <= i ==> query.Lo(i) == 0.0 == query.Hi(i)
    {
    }
    match strategy
    case Overlaps =>
      forall i: nat | i < MaxDim(key, query) ensures key.Lo(i) <= query.Hi(i) && query.Lo(i) <= key.Hi(i) {
        if i < MaxDim(b, query) { assert b.Lo(i) <= query.Hi(i) && query.Lo(i) <= b.Hi(i); }
      }
    case Same =>
      forall i: nat | i < query.dim ensures key.Lo(i) <= query.Lo(i) && query.Hi(i) <= key.Hi(i) {
        assert b.Lo(i) == query.Lo(i);
      }
    case Holds =>
      forall i: nat | i < query.dim ensures key.Lo(i) <= query.Lo(i) && query.Hi(i) <= key.Hi(i) {
        assert b.Lo(i) <= query.Lo(i);
      }
    case HeldBy =>
      forall i: nat | i < MaxDim(key, query) ensures key.Lo(i) <= query.Hi(i) && query.Lo(i) <= key.Hi(i) {
        if i < b.dim { assert query.Lo(i) <= b.Lo(i) && b.Hi(i) <= query.Hi(i); }
      }
  }

  /** For contained-by the inner test passes every key over a contained box exactly if the query contains
      zero in the dimensions the box lacks; otherwise the key of that box alone is turned away. */
  lemma ContainedByIff(b: Box, query: Box)
    requires Satisfies(b, query, HeldBy)
    ensures (forall key: Box :: Within(b, key) ==> Consistent(key, query, HeldBy)) <==> ZeroBeyond(b, query)
  {
    if ZeroBeyond(b, query) {
      forall key: Box | Within(b, key) ensures Consistent(key, query, HeldBy) {
        InnerTestSound(key, b, query, HeldBy);
      }
    } else {
      var i: nat :| b.dim <= i < query.dim && !(query.Lo(i) <= 0.0 <= query.Hi(i));
      UnionWithin(b, b, b);
      assert Within(b, b) && !Consistent(b, query, HeldBy) by {
        assert i < MaxDim(b, query) && b.Lo(i) == 0.0 == b.Hi(i);
      }
    }
  }

  /** Exactly which keys are entered: those that may stand for a box satisfying the query, or for sameness,
      for a box containing it. For contained-by it has to be a box for which the query contains zero in the
      dimensions it lacks. */
  lemma InnerTestIff(key: Box, query: Box, strategy: BoxStrategy)
    ensures Consistent(key, query, strategy) <==>
            exists b: Box :: Within(b, key) && Satisfies(b, query, if strategy == Same then Holds else strategy)
                             && (strategy == HeldBy ==> ZeroBeyond(b, query))
  {
    var s := if strategy == Same then Holds else strategy;
    if b: Box :| Within(b, key) && Satisfies(b, query, s) && (strategy == HeldBy ==> ZeroBeyond(b, query)) {
      InnerTestSound(key, b, query, s);
    }
    if Consistent(key, query, strategy) {
      assert Within(key, key);
      if strategy == HeldBy {
        var b := HeldPart(key, query);
        assert Within(b, key) && Satisfies(b, query, HeldBy) && ZeroBeyond(b, query);
      }
    }
  }

  /** For sameness, among keys with just the dimensions of the query, those that may stand for an equal box. */
  lemma SameTestIff(key: Box, query: Box)
    requires query.dim == key.dim
    ensures Consistent(key, query, Same) <==> exists b: Box :: Within(b, key) && Satisfies(b, query, Same)
  {
    if b: Box :| Within(b, key) && Satisfies(b, query, Same) { InnerTestSound(key, b, query, Same); }
    if Consistent(key, query, Same) {
      CompareZero(query, query);
      assert Within(query, key) && Satisfies(query, query, Same);
    }
  }

  /** The part of a key that a query overlapping it holds. */
  lemma HeldPart(key: Box, query: Box) returns (b: Box)
    requires BoxOverlap(key, query)
    ensures Within(b, key) && BoxContains(query, b) && ZeroBeyond(b, query)
  {
    var d := key.dim;
    var lo, hi := (i: nat) => RMax(key.Lo(i), query.Lo(i)), (i: nat) => RMin(key.Hi(i), query.Hi(i));
    b := Cornered(d, lo, hi);
    forall i: nat
      ensures key.Lo(i) <= b.Lo(i) && b.Hi(i) <= key.Hi(i)
      ensures i < d ==> query.Lo(i) <= b.Lo(i) && b.Hi(i) <= query.Hi(i)
      ensures d <= i < query.dim ==> query.Lo(i) <= 0.0 <= query.Hi(i)
    {
      CorneredEnds(d, lo, hi, i);
      assert key.Lo(i) <= key.Hi(i) && query.Lo(i) <= query.Hi(i);
      if i < MaxDim(key, query) { assert key.Lo(i) <= query.Hi(i) && query.Lo(i) <= key.Hi(i); }
    }
  }

  type BoxTree = Tree<Box, Box>

  ghost predicate Stands(key: Box, b: Box) {
    Within(b, key)
  }

  ghost predicate BuiltByUnion(t: BoxTree)
    decreases t
  {
    match t
    case Entry(_) => true
    case Page(key, kids) =>
      IsJoin(key, set kid | kid in kids :: KeyOf(kid)) && forall kid :: kid in kids ==> BuiltByUnion(kid)
  }

  function KeyOf(t: BoxTree): Box {
    match t
    case Entry(b) => b
    case Page(key, _) => key
  }

  /** In a tree of unions every key covers all boxes below it. */
  lemma {:induction false} BuiltByUnionIsCovered(t: BoxTree)
    requires BuiltByUnion(t)
    ensures Covered(t, Stands) && forall b: Box :: b in Values(t) ==> Within(b, KeyOf(t))
    decreases t
  {
    match t
    case Entry(_) =>
    case Page(key, kids) =>
      forall kid | kid in kids ensures Covered(kid, Stands) {
        BuiltByUnionIsCovered(kid);
      }
      UnionPageCovered(key, kids);
  }

  /** A page keyed by the union of the keys of covered entries is covered. */
  lemma UnionPageCovered(key: Box, kids: seq<BoxTree>)
    requires IsJoin(key, set kid | kid in kids :: KeyOf(kid))
    requires forall kid :: kid in kids ==> Covered(kid, Stands)
    ensures Covered(Page(key, kids), Stands)
  {
    forall b: Box | b in ValuesOf(kids) ensures Stands(key, b) {
      ValuesBelow(kids, b);
      var kid: BoxTree :| kid in kids && b in Values(kid);
      assert KeyOf(kid) in (set kid | kid in kids :: KeyOf(kid));
      assert Within(b, KeyOf(kid)) by {
        if kid.Page? { assert Stands(kid.key, b); }
      }
      WithinTransitive(b, KeyOf(kid), key);
    }
  }

  ghost function IndexScan(t: BoxTree, query: Box, strategy: BoxStrategy): seq<Box> {
    Search(t, (b: Box) => Satisfies(b, query, strategy), (key: Box) => Consistent(key, query, strategy))
  }

  ghost function FullScan(t: BoxTree, query: Box, strategy: BoxStrategy): seq<Box> {
    Filter(Values(t), (b: Box) => Satisfies(b, query, strategy))
  }

  /** An index scan returns what a full scan would: for overlap, same and contains at any mix of
      dimensions, for contained-by where the query contains zero in the dimensions that a box it holds lacks. */
  lemma IndexAgreesWithScan(t: BoxTree, query: Box, strategy: BoxStrategy)
    requires Covered(t, Stands)
    requires strategy == HeldBy ==>
               forall b: Box :: b in Values(t) && Satisfies(b, query, HeldBy) ==> ZeroBeyond(b, query)
    ensures IndexScan(t, query, strategy) == FullScan(t, query, strategy)
  {
    var safe := (b: Box) => strategy == HeldBy && Satisfies(b, query, HeldBy) ==> ZeroBeyond(b, query);
    var stands := (key: Box, b: Box) =>
      Within(b, key) && (strategy == HeldBy && Satisfies(b, query, HeldBy) ==> ZeroBeyond(b, query));
    var wanted := (b: Box) => Satisfies(b, query, strategy);
    var nodeTest := (key: Box) => Consistent(key, query, strategy);
    CoveredAnd(t, Stands, safe, stands);
    forall key, b | stands(key, b) && wanted(b) ensures nodeTest(key) {
      InnerTestSound(key, b, query, strategy);
    }
    SearchIsScan(t, stands, wanted, nodeTest);
  }

  /** A page with two entries for the same box. */
  function Twins(b: Box): BoxTree {
    Page(BoxUnion(b, b), [Entry(b), Entry(b)])
  }

  /** Below such a page a search finds nothing, although its key is the union of its entries. */
  lemma ContainedByMisses(b: Box, query: Box)
    requires Satisfies(b, query, HeldBy) && !ZeroBeyond(b, query)
    ensures BuiltByUnion(Twins(b)) && b in FullScan(Twins(b), query, HeldBy)
    ensures IndexScan(Twins(b), query, HeldBy) == []
  {
    var t := Twins(b);
    var key, kids := t.key, t.kids;
    JoinOfOne(b);
    assert (set kid | kid in kids :: KeyOf(kid)) == {b} by { assert kids[0] in kids; }
    UnionEnds(b, b);
    var i: nat :| b.dim <= i < query.dim && !(query.Lo(i) <= 0.0 <= query.Hi(i));
    assert !Consistent(key, query, HeldBy) by {
      assert i < MaxDim(key, query) && key.Lo(i) == 0.0 == key.Hi(i);
    }
    ValuesBelow(kids, b);
    assert kids[0] in kids && b in Values(kids[0]);
    FilterKeeps(Values(t), (v: Box) => Satisfies(v, query, HeldBy), b);
  }

  /** Such boxes exist: the point zero in one dimension is contained in a query that begins at 1 in the
      second dimension. */
  lemma ContainedByExample()
    ensures BuiltByUnion(Twins(ZERO_POINT)) && ZERO_POINT in FullScan(Twins(ZERO_POINT), HIGH_QUERY, HeldBy)
    ensures IndexScan(Twins(ZERO_POINT), HIGH_QUERY, HeldBy) == []
  {
    assert HIGH_QUERY.Lo(1) == 1.0;
    ContainedByMisses(ZERO_POINT, HIGH_QUERY);
  }

  const ZERO_POINT: Box := NDBox(1, [0.0, 0.0])
  const HIGH_QUERY: Box := NDBox(2, [-1.0, 1.0, 1.0, 2.0])

  // ---------------------------------------------------------------------------------------------
  // Guttman's split
  // ---------------------------------------------------------------------------------------------

  /** Space wasted by putting two boxes together. */
  ghost function Waste(a: Box, b: Box): real {
    Volume(BoxUnion(a, b), BoxUnion(a, b).dim) - Volume(BoxInter(a, b), BoxInter(a, b).dim)
  }

  /** For boxes that overlap that is the size of the least box around both without that of the greatest box
      inside both. */
  lemma WasteOfOverlapping(a: Box, b: Box, join: Box, meet: Box)
    requires BoxOverlap(a, b) && IsJoin(join, {a, b}) && IsMeet(meet, a, b) && meet.dim == MaxDim(a, b)
    ensures Waste(a, b) == Volume(join, join.dim) - Volume(meet, meet.dim)
  {
    JoinOfTwo(a, b);
    JoinUnique(join, BoxUnion(a, b), {a, b});
    InterIsMeetIff(a, b);
    MeetUnique(meet, BoxInter(a, b), a, b);
  }

  lemma MeetUnique(d: Box, e: Box, a: Box, b: Box)
    requires IsMeet(d, a, b) && IsMeet(e, a, b) && d.dim == e.dim
    ensures d == e
  {
    assert Inside(d, d) && Inside(e, e);
    WithinAntisymmetric(d, e);
  }

  ghost predicate IsPoint(b: Box) {
    forall i: nat :: b.Lo(i) == b.Hi(i)
  }

  /** Two points waste nothing, however far apart: the corners of their intersection come out crossed, and
      its size is taken for that of their union. */
  lemma PointsWasteNothing(a: Box, b: Box)
    requires IsPoint(a) && IsPoint(b)
    ensures Waste(a, b) == 0.0
  {
    var u, n := BoxUnion(a, b), BoxInter(a, b);
    UnionEnds(a, b);
    forall i: nat | i < u.dim ensures u.Hi(i) - u.Lo(i) == n.Hi(i) - n.Lo(i) {
      InterEndsAt(a, b, i);
      assert a.Lo(i) == a.Hi(i) && b.Lo(i) == b.Hi(i);
    }
    VolumeBySides(u, n, u.dim);
  }

  ghost function WasteAt(entries: seq<Box>, i: int, j: int): real
    requires 1 <= i <= |entries| && 1 <= j <= |entries|
  {
    Waste(entries[i - 1], entries[j - 1])
  }

  method WasteOf(a: Box, b: Box) returns (w: real)
    ensures w == Waste(a, b)
  {
    var u := Union(a, b);
    var su := Size(u);
    var n := Intersection(a, b);
    var sn := Size(n);
    w := su - sn;
  }

  predicate Earlier(i: int, j: int, p: int, q: int) {
    i < p || (i == p && j < q)
  }

  /** The first pair of greatest waste among all entries but the last. */
  method PickSeeds(entries: seq<Box>) returns (seed1: int, seed2: int)
    requires 2 <= |entries|
    ensures 1 <= seed1 < seed2 <= |entries|
    ensures 3 <= |entries| ==> seed2 < |entries| && forall i, j :: 1 <= i < j < |entries| ==>
              WasteAt(entries, i, j) <= WasteAt(entries, seed1, seed2)
    ensures forall i, j :: 1 <= i < j < |entries| && Earlier(i, j, seed1, seed2) ==>
              WasteAt(entries, i, j) < WasteAt(entries, seed1, seed2)
  {
    hide Waste;
    seed1, seed2 := 1, 2;
    var maxoff := |entries| - 1;
    var firsttime, waste := true, 0.0;
    var i := 1;
    while i < maxoff
      invariant 1 <= i && (1 < i ==> !firsttime)
      invariant 1 <= seed1 < seed2 <= |entries| && (!firsttime ==> seed2 <= maxoff)
      invariant !firsttime ==> waste == WasteAt(entries, seed1, seed2)
      invariant forall p, q :: 1 <= p < i && p < q <= maxoff ==> WasteAt(entries, p, q) <= waste
      invariant if firsttime then seed1 == 1 && seed2 == 2 else seed1 < i
      invariant forall p, q :: 1 <= p && p < q <= maxoff && Earlier(p, q, seed1, seed2) ==> WasteAt(entries, p, q) < waste
      decreases maxoff - i
    {
      var j := i + 1;
      while j <= maxoff
        invariant i < j <= maxoff + 1 && (i + 1 < j ==> !firsttime)
        invariant 1 <= seed1 < seed2 <= |entries| && (!firsttime ==> seed2 <= maxoff)
        invariant firsttime ==> i == 1
        invariant !firsttime ==> waste == WasteAt(entries, seed1, seed2)
        invariant forall p, q :: 1 <= p < i && p < q <= maxoff ==> WasteAt(entries, p, q) <= waste
        invariant forall q :: i < q < j ==> WasteAt(entries, i, q) <= waste
        invariant firsttime ==> seed1 == 1 && seed2 == 2
        invariant seed1 < i || (seed1 == i && seed2 < j) || firsttime
        invariant forall p, q :: 1 <= p && p < q <= maxoff && Earlier(p, q, seed1, seed2) ==> WasteAt(entries, p, q) < waste
      {
        var w := WasteOf(entries[i - 1], entries[j - 1]);
        if w > waste || firsttime {
          waste, seed1, seed2, firsttime := w, i, j, false;
        }
        j := j + 1;
      }
      i := i + 1;
    }
  }

  /** So on a page of points the seeds are the first two entries, wherever they lie. */
  lemma PointSeeds(entries: seq<Box>, seed1: int, seed2: int)
    requires 1 <= seed1 < seed2 <= |entries| && forall e :: e in entries ==> IsPoint(e)
    requires 3 <= |entries| ==> seed2 < |entries|
    requires forall i, j :: 1 <= i < j < |entries| && Earlier(i, j, seed1, seed2) ==>
               WasteAt(entries, i, j) < WasteAt(entries, seed1, seed2)
    ensures seed1 == 1 && seed2 == 2
  {
    hide Waste;
    hide IsPoint;
    assert entries[0] in entries && entries[1] in entries;
    PointsWasteNothing(entries[0], entries[1]);
    PointsWasteNothing(entries[seed1 - 1], entries[seed2 - 1]);
    assert WasteAt(entries, 1, 2) == WasteAt(entries, seed1, seed2);
  }

  ghost predicate Increasing(offsets: seq<int>) {
    forall i, j :: 0 <= i < j < |offsets| ==> offsets[i] < offsets[j]
  }

  /** The offsets below bound go to exactly one side each, in order. */
  ghost predicate Dealt(left: seq<int>, right: seq<int>, bound: int, n: nat) {
    && 1 <= bound <= n + 1 && Increasing(left) && Increasing(right)
    && InRange(left, bound - 1) && InRange(right, bound - 1)
    && (forall o :: 1 <= o < bound ==> (o in left) != (o in right))
    && |left| + |right| == bound - 1
  }

  lemma DealMore(left: seq<int>, right: seq<int>, bound: int, n: nat)
    requires Dealt(left, right, bound, n) && 1 <= bound <= n
    ensures Dealt(left + [bound], right, bound + 1, n)
    ensures Dealt(left, right + [bound], bound + 1, n)
  {
  }

  /** The key of a side: its seed, enlarged by each of its boxes in turn. */
  ghost function SideKey(entries: seq<Box>, seed: Box, offsets: seq<int>): Box
    requires InRange(offsets, |entries|)
  {
    if offsets == [] then BoxUnion(seed, seed)
    else BoxUnion(SideKey(entries, seed, offsets[..|offsets| - 1]), entries[offsets[|offsets| - 1] - 1])
  }

  /** That key is the union of exactly the boxes of the side and the seed. */
  lemma {:induction false} SideKeyIsJoin(entries: seq<Box>, seed: Box, offsets: seq<int>)
    requires InRange(offsets, |entries|)
    ensures IsJoin(SideKey(entries, seed, offsets), Members(At(entries, offsets)) + {seed})
  {
    hide IsJoin;
    hide BoxUnion;
    if offsets == [] {
      JoinOfOne(seed);
      assert Members(At(entries, offsets)) + {seed} == {seed};
    } else {
      var init, o := offsets[..|offsets| - 1], offsets[|offsets| - 1];
      var e := entries[o - 1];
      SideKeyIsJoin(entries, seed, init);
      JoinOfMore(SideKey(entries, seed, init), Members(At(entries, init)) + {seed}, e);
      assert At(entries, offsets) == At(entries, init) + [e];
      assert Members(At(entries, init) + [e]) + {seed} == Members(At(entries, init)) + {seed} + {e};
    }
  }

  lemma SideKeyGrows(entries: seq<Box>, seed: Box, offsets: seq<int>, o: int)
    requires InRange(offsets, |entries|) && 1 <= o <= |entries|
    ensures InRange(offsets + [o], |entries|)
    ensures SideKey(entries, seed, offsets + [o]) == BoxUnion(SideKey(entries, seed, offsets), entries[o - 1])
    ensures seed == entries[o - 1] ==> SideKey(entries, seed, offsets + [o]) == SideKey(entries, seed, offsets)
  {
    assert (offsets + [o])[..|offsets|] == offsets;
    if seed == entries[o - 1] {
      SideKeyIsJoin(entries, seed, offsets);
      UnionAbsorbs(SideKey(entries, seed, offsets), seed);
    }
  }

  lemma UnionAbsorbs(d: Box, e: Box)
    requires d.Normal() && Within(e, d)
    ensures BoxUnion(d, e) == d
  {
    UnionEnds(d, e);
    UnionWithin(d, e, d);
    WithinAntisymmetric(BoxUnion(d, e), d);
  }

  /** The members of an increasing list that are below o. */
  ghost function Below(offsets: seq<int>, o: int): seq<int> {
    if offsets == [] || offsets[|offsets| - 1] < o then offsets else Below(offsets[..|offsets| - 1], o)
  }

  lemma {:induction false} BelowInRange(offsets: seq<int>, o: int, n: nat)
    requires InRange(offsets, n)
    ensures InRange(Below(offsets, o), n)
  {
    if offsets != [] { BelowInRange(offsets[..|offsets| - 1], o, n); }
  }

  /** How much a side's key must grow, from the boxes dealt before o, to take box o. */
  ghost function Enlargement(entries: seq<Box>, seed: Box, offsets: seq<int>, o: int): real
    requires InRange(offsets, |entries|) && 1 <= o <= |entries|
  {
    BelowInRange(offsets, o, |entries|);
    var key := SideKey(entries, seed, Below(offsets, o));
    var grown := BoxUnion(key, entries[o - 1]);
    Volume(grown, grown.dim) - Volume(key, key.dim)
  }

  /** In a list that increases, those are just the boxes with smaller offsets. */
  lemma {:induction false} BelowMembers(offsets: seq<int>, o: int)
    requires Increasing(offsets)
    ensures forall p :: p in Below(offsets, o) <==> p in offsets && p < o
  {
    if offsets != [] && offsets[|offsets| - 1] >= o {
      var init := offsets[..|offsets| - 1];
      BelowMembers(init, o);
      assert offsets == init + [offsets[|offsets| - 1]];
    }
  }

  /** The boxes of a side with offsets below o, and its seed. */
  ghost function BoxesBefore(entries: seq<Box>, seed: Box, offsets: seq<int>, o: int): set<Box>
    requires InRange(offsets, |entries|)
  {
    (set p | p in offsets && p < o :: entries[p - 1]) + {seed}
  }

  /** Enlargement is the difference in size between the least boxes around those, with and without box o. */
  lemma EnlargementIs(entries: seq<Box>, seed: Box, offsets: seq<int>, o: int, key: Box, grown: Box)
    requires InRange(offsets, |entries|) && Increasing(offsets) && 1 <= o <= |entries|
    requires IsJoin(key, BoxesBefore(entries, seed, offsets, o))
    requires IsJoin(grown, BoxesBefore(entries, seed, offsets, o) + {entries[o - 1]})
    ensures Enlargement(entries, seed, offsets, o) == Volume(grown, grown.dim) - Volume(key, key.dim)
  {
    hide IsJoin;
    BelowInRange(offsets, o, |entries|);
    var before := Below(offsets, o);
    var side, all := SideKey(entries, seed, before), BoxesBefore(entries, seed, offsets, o);
    SideKeyIsJoin(entries, seed, before);
    BelowMembers(offsets, o);
    assert Members(At(entries, before)) + {seed} == all by { MembersBefore(entries, offsets, o); }
    JoinUnique(key, side, all);
    JoinOfMore(side, all, entries[o - 1]);
    JoinUnique(grown, BoxUnion(side, entries[o - 1]), all + {entries[o - 1]});
  }

  lemma MembersBefore(entries: seq<Box>, offsets: seq<int>, o: int)
    requires InRange(offsets, |entries|) && InRange(Below(offsets, o), |entries|)
    requires forall p :: p in Below(offsets, o) <==> p in offsets && p < o
    ensures Members(At(entries, Below(offsets, o))) == (set p | p in offsets && p < o :: entries[p - 1])
  {
    var before := Below(offsets, o);
    hide Below;
    var boxes := At(entries, before);
    var some := set p | p in offsets && p < o :: entries[p - 1];
    forall b | b in boxes ensures b in some {
      var k :| 0 <= k < |boxes| && boxes[k] == b;
      assert before[k] in before;
    }
    forall b | b in some ensures b in boxes {
      var p :| p in offsets && p < o && entries[p - 1] == b;
      var k :| 0 <= k < |before| && before[k] == p;
      assert boxes[k] == b;
    }
  }

  /** Each box that is not a seed went left exactly if that side had to grow less. */
  ghost predicate LeastEnlargement(entries: seq<Box>, left: seq<int>, right: seq<int>, seed1: int, seed2: int, bound: int)
    requires InRange(left, |entries|) && InRange(right, |entries|) && bound <= |entries| + 1
    requires 1 <= seed1 <= |entries| && 1 <= seed2 <= |entries|
  {
    forall o :: 1 <= o < bound && o != seed1 && o != seed2 ==>
      (o in left <==> Enlargement(entries, entries[seed1 - 1], left, o)
                      < Enlargement(entries, entries[seed2 - 1], right, o))
  }

  /** Boxes dealt later do not change what was compared before. */
  lemma EnlargementKept(entries: seq<Box>, seed: Box, offsets: seq<int>, o: int, i: int)
    requires InRange(offsets, |entries|) && 1 <= o <= i <= |entries|
    ensures InRange(offsets + [i], |entries|)
    ensures Enlargement(entries, seed, offsets + [i], o) == Enlargement(entries, seed, offsets, o)
  {
    assert (offsets + [i])[..|offsets|] == offsets;
  }

  lemma BelowAll(offsets: seq<int>, i: int)
    requires 1 <= i && InRange(offsets, i - 1)
    ensures Below(offsets, i) == offsets
  {
  }

  lemma LeastEnlargementMore(entries: seq<Box>, left: seq<int>, right: seq<int>, seed1: int, seed2: int, i: int)
    requires Dealt(left, right, i, |entries|) && i <= |entries|
    requires InRange(left, |entries|) && InRange(right, |entries|)
    requires 1 <= seed1 <= |entries| && 1 <= seed2 <= |entries|
    requires LeastEnlargement(entries, left, right, seed1, seed2, i)
    ensures InRange(left + [i], |entries|) && InRange(right + [i], |entries|)
    ensures i == seed1 || i == seed2 || Enlargement(entries, entries[seed1 - 1], left, i)
                                        < Enlargement(entries, entries[seed2 - 1], right, i)
            ==> LeastEnlargement(entries, left + [i], right, seed1, seed2, i + 1)
    ensures i == seed1 || i == seed2 || Enlargement(entries, entries[seed1 - 1], left, i)
                                        >= Enlargement(entries, entries[seed2 - 1], right, i)
            ==> LeastEnlargement(entries, left, right + [i], seed1, seed2, i + 1)
  {
    hide Enlargement;
    forall o | 1 <= o <= i
      ensures Enlargement(entries, entries[seed1 - 1], left + [i], o) == Enlargement(entries, entries[seed1 - 1], left, o)
      ensures Enlargement(entries, entries[seed2 - 1], right + [i], o) == Enlargement(entries, entries[seed2 - 1], right, o)
      ensures o < i ==> (o in left + [i] <==> o in left)
    {
      EnlargementKept(entries, entries[seed1 - 1], left, o, i);
      EnlargementKept(entries, entries[seed2 - 1], right, o, i);
    }
    assert i !in left && i in left + [i];
  }

  /** g_cube_picksplit. */
  method PickSplit(entries: seq<Box>)
    returns (left: seq<int>, right: seq<int>, leftKey: Box, rightKey: Box, ghost seed1: int, ghost seed2: int)
    requires 2 <= |entries|
    ensures Partition(left, right, |entries|) && Increasing(left) && Increasing(right)
    ensures seed1 in left && seed2 in right
    ensures IsJoin(leftKey, Members(At(entries, left))) && IsJoin(rightKey, Members(At(entries, right)))
    ensures 3 <= |entries| ==> seed2 < |entries| && forall i, j :: 1 <= i < j < |entries| ==>
              WasteAt(entries, i, j) <= WasteAt(entries, seed1, seed2)
    ensures forall i, j :: 1 <= i < j < |entries| && Earlier(i, j, seed1, seed2) ==>
              WasteAt(entries, i, j) < WasteAt(entries, seed1, seed2)
    ensures (forall e :: e in entries ==> IsPoint(e)) ==> seed1 == 1 && seed2 == 2
    ensures LeastEnlargement(entries, left, right, seed1, seed2, |entries| + 1)
  {
    hide IsJoin;
    hide WasteAt;
    hide Waste;
    hide IsPoint;
    hide LeastEnlargement;
    var s1, s2 := PickSeeds(entries);
    seed1, seed2 := s1, s2;
    if forall e :: e in entries ==> IsPoint(e) { PointSeeds(entries, s1, s2); }
    left, right, leftKey, rightKey := Distribute(entries, s1, s2);
    SideKeyIsJoin(entries, entries[s1 - 1], left);
    SideKeyIsJoin(entries, entries[s2 - 1], right);
    SeedIsMember(entries, left, s1);
    SeedIsMember(entries, right, s2);
  }

  /** Splitting any page of covered entries leaves two covered pages that together hold exactly its boxes. */
  method SplitPage(kids: seq<BoxTree>) returns (left: BoxTree, right: BoxTree)
    requires 2 <= |kids| && forall kid :: kid in kids ==> Covered(kid, Stands)
    ensures Covered(left, Stands) && Covered(right, Stands)
    ensures multiset(Values(left)) + multiset(Values(right)) == multiset(ValuesOf(kids))
  {
    hide IsJoin;
    hide WasteAt;
    hide LeastEnlargement;
    var keys := seq(|kids|, i requires 0 <= i < |kids| => KeyOf(kids[i]));
    var l, r, leftKey, rightKey, _, _ := PickSplit(keys);
    var ls, rs := At(kids, l), At(kids, r);
    left, right := Page(leftKey, ls), Page(rightKey, rs);
    MembersAt(kids, keys, l);
    MembersAt(kids, keys, r);
    UnionPageCovered(leftKey, ls);
    UnionPageCovered(rightKey, rs);
    SplitConserves(kids, l, r);
  }

  lemma MembersAt(kids: seq<BoxTree>, keys: seq<Box>, offsets: seq<int>)
    requires |keys| == |kids| && InRange(offsets, |kids|) && forall i :: 0 <= i < |kids| ==> keys[i] == KeyOf(kids[i])
    ensures Members(At(keys, offsets)) == (set kid | kid in At(kids, offsets) :: KeyOf(kid))
    ensures forall kid :: kid in At(kids, offsets) ==> kid in kids
  {
    var ks, ts := At(keys, offsets), At(kids, offsets);
    assert forall i :: 0 <= i < |offsets| ==> ks[i] == KeyOf(ts[i]) && ts[i] in ts && ks[i] in ks;
  }

  /** The second loop: every box but the seeds goes where it enlarges the key least. */
  method Distribute(entries: seq<Box>, seed1: int, seed2: int)
    returns (left: seq<int>, right: seq<int>, leftKey: Box, rightKey: Box)
    requires 1 <= seed1 < seed2 <= |entries|
    ensures Partition(left, right, |entries|) && Increasing(left) && Increasing(right)
    ensures seed1 in left && seed2 in right
    ensures leftKey == SideKey(entries, entries[seed1 - 1], left)
    ensures rightKey == SideKey(entries, entries[seed2 - 1], right)
    ensures LeastEnlargement(entries, left, right, seed1, seed2, |entries| + 1)
  {
    hide IsJoin;
    hide BoxUnion;
    hide SideKey;
    hide Dealt;
    hide LeastEnlargement;
    var n := |entries|;
    ghost var b1, b2 := entries[seed1 - 1], entries[seed2 - 1];
    left, right := [], [];
    Undealt(entries, seed1, seed2);
    leftKey := Union(entries[seed1 - 1], entries[seed1 - 1]);
    var sizeL := Size(leftKey);
    rightKey := Union(entries[seed2 - 1], entries[seed2 - 1]);
    var sizeR := Size(rightKey);
    var i := 1;
    while i <= n
      invariant 1 <= i <= n + 1 && Dealt(left, right, i, n)
      invariant InRange(left, n) && InRange(right, n)
      invariant (seed1 < i ==> seed1 in left) && (seed2 < i ==> seed2 in right)
      invariant leftKey == SideKey(entries, b1, left) && sizeL == Volume(leftKey, leftKey.dim)
      invariant rightKey == SideKey(entries, b2, right) && sizeR == Volume(rightKey, rightKey.dim)
      invariant LeastEnlargement(entries, left, right, seed1, seed2, i)
      decreases n + 1 - i
    {
      DealMore(left, right, i, n);
      LeastEnlargementMore(entries, left, right, seed1, seed2, i);
      SideKeyGrows(entries, b1, left, i);
      SideKeyGrows(entries, b2, right, i);
      if i == seed1 {
        left := left + [i];
      } else if i == seed2 {
        right := right + [i];
      } else {
        var unionL := Union(leftKey, entries[i - 1]);
        var unionR := Union(rightKey, entries[i - 1]);
        var sizeAlpha := Size(unionL);
        var sizeBeta := Size(unionR);
        Compared(entries, left, right, b1, b2, i);
        if sizeAlpha - sizeL < sizeBeta - sizeR {
          leftKey, sizeL, left := unionL, sizeAlpha, left + [i];
        } else {
          rightKey, sizeR, right := unionR, sizeBeta, right + [i];
        }
      }
      i := i + 1;
    }
    DealtAll(left, right, n);
  }

  lemma Compared(entries: seq<Box>, left: seq<int>, right: seq<int>, b1: Box, b2: Box, i: int)
    requires Dealt(left, right, i, |entries|) && i <= |entries|
    requires InRange(left, |entries|) && InRange(right, |entries|)
    ensures var l, r := SideKey(entries, b1, left), SideKey(entries, b2, right);
            var gl, gr := BoxUnion(l, entries[i - 1]), BoxUnion(r, entries[i - 1]);
            && Enlargement(entries, b1, left, i) == Volume(gl, gl.dim) - Volume(l, l.dim)
            && Enlargement(entries, b2, right, i) == Volume(gr, gr.dim) - Volume(r, r.dim)
  {
    BelowAll(left, i);
    BelowAll(right, i);
  }

  lemma Undealt(entries: seq<Box>, seed1: int, seed2: int)
    requires 1 <= seed1 <= |entries| && 1 <= seed2 <= |entries|
    ensures Dealt([], [], 1, |entries|)
    ensures LeastEnlargement(entries, [], [], seed1, seed2, 1)
    ensures forall b: Box :: SideKey(entries, b, []) == BoxUnion(b, b)
  {
  }

  lemma DealtAll(left: seq<int>, right: seq<int>, n: nat)
    requires Dealt(left, right, n + 1, n)
    ensures Partition(left, right, n) && Increasing(left) && Increasing(right)
  {
  }

  lemma SeedIsMember(entries: seq<Box>, offsets: seq<int>, seed: int)
    requires InRange(offsets, |entries|) && seed in offsets
    ensures 1 <= seed <= |entries|
    ensures Members(At(entries, offsets)) + {entries[seed - 1]} == Members(At(entries, offsets))
  {
    var i :| 0 <= i < |offsets| && offsets[i] == seed;
    assert At(entries, offsets)[i] == entries[seed - 1];
  }
}
