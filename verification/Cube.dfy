/** N-dimensional boxes (cube.cpp). Doubles are taken as ideal reals. */
module Cube {
  import opened Options

  function RMin(a: real, b: real): real { if a < b then a else b }
  function RMax(a: real, b: real): real { if a > b then a else b }

  /** Two opposite corners, one after the other, in no particular order per coordinate. */
  datatype NDBox = NDBox(dim: nat, x: seq<real>) {
    predicate Valid() {
      |x| == 2 * dim
    }

    /** The interval in coordinate i; a box is flat at zero in the dimensions it does not have. */
    function Lo(i: nat): real
      requires Valid()
    {
      if i < dim then RMin(x[i], x[dim + i]) else 0.0
    }
    function Hi(i: nat): real
      requires Valid()
    {
      if i < dim then RMax(x[i], x[dim + i]) else 0.0
    }
    function End(upper: bool, i: nat): real
      requires Valid()
    {
      if upper then Hi(i) else Lo(i)
    }

    /** The first corner is the lower one in every coordinate. */
    predicate Normal()
      requires Valid()
    {
      forall i :: 0 <= i < dim ==> x[i] == Lo(i) && x[dim + i] == Hi(i)
    }
  }

  type Box = b: NDBox | b.Valid() witness NDBox(0, [])

  /** Every point of a, padded with zeroes, lies in b. */
  ghost predicate Inside(a: Box, b: Box) {
    forall i: nat :: b.Lo(i) <= a.Lo(i) && a.Hi(i) <= b.Hi(i)
  }

  /** The same, and a has no dimension that b lacks. */
  ghost predicate Within(a: Box, b: Box) {
    a.dim <= b.dim && forall i: nat :: b.Lo(i) <= a.Lo(i) && a.Hi(i) <= b.Hi(i)
  }

  lemma WithinTransitive(a: Box, b: Box, c: Box)
    requires Within(a, b) && Within(b, c)
    ensures Within(a, c)
  {
    forall i: nat ensures c.Lo(i) <= a.Lo(i) && a.Hi(i) <= c.Hi(i) {
      assert b.Lo(i) <= a.Lo(i) && c.Lo(i) <= b.Lo(i);
    }
  }

  /** Two normal boxes that lie within each other are the same. */
  lemma WithinAntisymmetric(a: Box, b: Box)
    requires Within(a, b) && Within(b, a) && a.Normal() && b.Normal()
    ensures a == b
  {
    forall k | 0 <= k < |a.x| ensures a.x[k] == b.x[k] {
      var i := if k < a.dim then k else k - a.dim;
      assert a.Lo(i) == b.Lo(i) && a.Hi(i) == b.Hi(i);
    }
  }

  // ---------------------------------------------------------------------------------------------
  // Union
  // ---------------------------------------------------------------------------------------------

  function MaxDim(a: Box, b: Box): nat {
    if a.dim >= b.dim then a.dim else b.dim
  }

  function BoxUnion(a: Box, b: Box): Box {
    NDBox(MaxDim(a, b), seq(2 * MaxDim(a, b), k requires 0 <= k < 2 * MaxDim(a, b) => UnionCorner(a, b, k)))
  }

  lemma UnionEnds(a: Box, b: Box)
    ensures BoxUnion(a, b).Normal()
    ensures forall i: nat :: BoxUnion(a, b).Lo(i) == RMin(a.Lo(i), b.Lo(i))
    ensures forall i: nat :: BoxUnion(a, b).Hi(i) == RMax(a.Hi(i), b.Hi(i))
  {
    hide BoxUnion;
    hide NDBox.Lo;
    hide NDBox.Hi;
    hide RMin;
    hide RMax;
    var r := BoxUnion(a, b);
    forall i: nat ensures r.Lo(i) == RMin(a.Lo(i), b.Lo(i)) && r.Hi(i) == RMax(a.Hi(i), b.Hi(i)) {
      UnionEndsAt(a, b, i);
    }
    forall i | 0 <= i < r.dim ensures r.x[i] == r.Lo(i) && r.x[r.dim + i] == r.Hi(i) {
      UnionEndsAt(a, b, i);
    }
  }

  lemma UnionEndsAt(a: Box, b: Box, i: nat)
    ensures var r := BoxUnion(a, b);
            && r.Lo(i) == RMin(a.Lo(i), b.Lo(i)) && r.Hi(i) == RMax(a.Hi(i), b.Hi(i))
            && (i < r.dim ==> r.x[i] == r.Lo(i) && r.x[r.dim + i] == r.Hi(i))
  {
    var r := BoxUnion(a, b);
    if i < r.dim {
      assert r.x[i] == UnionCorner(a, b, i) && r.x[r.dim + i] == UnionCorner(a, b, r.dim + i);
      assert a.Lo(i) <= a.Hi(i) && b.Lo(i) <= b.Hi(i);
    }
  }

  /** d is normal and the least box within which all the given boxes lie. */
  ghost predicate IsJoin(d: Box, boxes: set<Box>) {
    && d.Normal()
    && (forall e :: e in boxes ==> Within(e, d))
    && (forall u: Box :: (forall e :: e in boxes ==> Within(e, u)) ==> Within(d, u))
  }

  lemma JoinUnique(d: Box, e: Box, boxes: set<Box>)
    requires IsJoin(d, boxes) && IsJoin(e, boxes)
    ensures d == e
  {
    WithinAntisymmetric(d, e);
  }

  lemma UnionWithin(a: Box, b: Box, u: Box)
    ensures Within(a, BoxUnion(a, b)) && Within(b, BoxUnion(a, b))
    ensures Within(a, u) && Within(b, u) ==> Within(BoxUnion(a, b), u)
  {
    UnionEnds(a, b);
    if Within(a, u) && Within(b, u) {
      forall i: nat ensures u.Lo(i) <= BoxUnion(a, b).Lo(i) && BoxUnion(a, b).Hi(i) <= u.Hi(i) {
        assert u.Lo(i) <= a.Lo(i) && u.Lo(i) <= b.Lo(i);
      }
    }
  }

  /** Adding one more box to a join. */
  lemma JoinOfMore(d: Box, boxes: set<Box>, e: Box)
    requires IsJoin(d, boxes)
    ensures IsJoin(BoxUnion(d, e), boxes + {e})
  {
    var j := BoxUnion(d, e);
    UnionEnds(d, e);
    UnionWithin(d, e, d);
    forall b | b in boxes + {e} ensures Within(b, j) {
      if b in boxes { WithinTransitive(b, d, j); }
    }
    forall u: Box | forall b :: b in boxes + {e} ==> Within(b, u) ensures Within(j, u) {
      assert forall b :: b in boxes ==> b in boxes + {e};
      UnionWithin(d, e, u);
    }
  }

  lemma JoinOfOne(b: Box)
    ensures IsJoin(BoxUnion(b, b), {b})
  {
    UnionEnds(b, b);
    UnionWithin(b, b, b);
    forall u: Box | forall e :: e in {b} ==> Within(e, u) ensures Within(BoxUnion(b, b), u) {
      UnionWithin(b, b, u);
    }
  }

  lemma JoinOfTwo(a: Box, b: Box)
    ensures IsJoin(BoxUnion(a, b), {a, b})
  {
    UnionEnds(a, b);
    UnionWithin(a, b, a);
    forall u: Box | forall e :: e in {a, b} ==> Within(e, u) ensures Within(BoxUnion(a, b), u) {
      assert a in {a, b} && b in {a, b};
      UnionWithin(a, b, u);
    }
  }

  /** At any mix of dimensions the union is commutative and associative. */
  lemma UnionLattice(a: Box, b: Box, c: Box)
    ensures BoxUnion(a, b) == BoxUnion(b, a)
    ensures BoxUnion(BoxUnion(a, b), c) == BoxUnion(a, BoxUnion(b, c))
  {
    JoinOfTwo(a, b);
    JoinOfTwo(b, a);
    assert {a, b} == {b, a};
    JoinUnique(BoxUnion(a, b), BoxUnion(b, a), {a, b});
    JoinOfTwo(b, c);
    JoinOfMore(BoxUnion(a, b), {a, b}, c);
    JoinOfMore(BoxUnion(b, c), {b, c}, a);
    JoinOfTwo(a, BoxUnion(b, c));
    JoinOfTwo(BoxUnion(b, c), a);
    assert {a, BoxUnion(b, c)} == {BoxUnion(b, c), a};
    JoinUnique(BoxUnion(a, BoxUnion(b, c)), BoxUnion(BoxUnion(b, c), a), {a, BoxUnion(b, c)});
    assert {a, b} + {c} == {b, c} + {a};
    JoinUnique(BoxUnion(BoxUnion(a, b), c), BoxUnion(BoxUnion(b, c), a), {a, b, c});
  }

  /** cube_union_v0. */
  method Union(a0: Box, b0: Box) returns (r: Box)
    ensures r == BoxUnion(a0, b0) && IsJoin(r, {a0, b0})
  {
    var a, b := a0, b0;
    if a.dim < b.dim { a, b := b, a; }
    hide UnionCorner;
    hide Corner;
    hide RMin;
    hide RMax;
    var result := Padded(b, a.dim);
    for i := 0 to a.dim
      invariant forall k :: 0 <= k < 2 * a.dim ==>
                  result[k] == if Axis(a.dim, k) < i then UnionCorner(a, b, k) else Corner(b, a.dim, k)
    {
      UnionCornerAt(a, b, i);
      result[i] := RMin(RMin(a.x[i], a.x[a.dim + i]), result[i]);
      result[a.dim + i] := RMax(RMax(a.x[i], a.x[a.dim + i]), result[a.dim + i]);
    }
    r := NDBox(a.dim, result[..]);
    UnionCorners(a, b, r);
    UnionLattice(a, b, a);
    JoinOfTwo(a0, b0);
  }

  /** d is the greatest box inside both a and b. */
  ghost predicate IsMeet(d: Box, a: Box, b: Box) {
    d.Normal() && forall c: Box :: Inside(c, d) <==> Inside(c, a) && Inside(c, b)
  }

  lemma InterEndsAt(a: Box, b: Box, i: nat)
    ensures var r := BoxInter(a, b);
            var lo, hi := RMax(a.Lo(i), b.Lo(i)), RMin(a.Hi(i), b.Hi(i));
            && r.Lo(i) == RMin(lo, hi) && r.Hi(i) == RMax(lo, hi)
            && (i < r.dim ==> r.x[i] == lo && r.x[r.dim + i] == hi)
  {
    var r := BoxInter(a, b);
    if i < r.dim {
      assert r.x[i] == InterCorner(a, b, i) && r.x[r.dim + i] == InterCorner(a, b, r.dim + i);
    }
  }

  /** The corners computed are those of the greatest common box exactly if the boxes overlap; otherwise they
      come out crossed, and the box between them is not even inside both. */
  lemma InterIsMeetIff(a: Box, b: Box)
    ensures IsMeet(BoxInter(a, b), a, b) <==> BoxOverlap(a, b)
    ensures Inside(BoxInter(a, b), a) && Inside(BoxInter(a, b), b) <==> BoxOverlap(a, b)
  {
    var r := BoxInter(a, b);
    if BoxOverlap(a, b) {
      forall i: nat
        ensures r.Lo(i) == RMax(a.Lo(i), b.Lo(i)) && r.Hi(i) == RMin(a.Hi(i), b.Hi(i))
        ensures i < r.dim ==> r.x[i] == r.Lo(i) && r.x[r.dim + i] == r.Hi(i)
      {
        InterEndsAt(a, b, i);
      }
      MeetByEnds(r, a, b);
    } else {
      var i: nat :| i < MaxDim(a, b) && !(a.Lo(i) <= b.Hi(i) && b.Lo(i) <= a.Hi(i));
      InterEndsAt(a, b, i);
      assert !(a.Lo(i) <= r.Lo(i)) || !(b.Lo(i) <= r.Lo(i));
      assert Inside(r, r);
    }
  }

  lemma MeetByEnds(r: Box, a: Box, b: Box)
    requires r.Normal()
    requires forall i: nat :: r.Lo(i) == RMax(a.Lo(i), b.Lo(i)) && r.Hi(i) == RMin(a.Hi(i), b.Hi(i))
    ensures IsMeet(r, a, b) && Inside(r, a) && Inside(r, b)
  {
    forall c: Box ensures Inside(c, r) <==> Inside(c, a) && Inside(c, b) {
      if Inside(c, a) && Inside(c, b) {
        forall i: nat ensures r.Lo(i) <= c.Lo(i) && c.Hi(i) <= r.Hi(i) {
          assert a.Lo(i) <= c.Lo(i) && b.Lo(i) <= c.Lo(i);
        }
      }
      if Inside(c, r) {
        forall i: nat
          ensures a.Lo(i) <= c.Lo(i) && c.Hi(i) <= a.Hi(i) && b.Lo(i) <= c.Lo(i) && c.Hi(i) <= b.Hi(i)
        {
          assert r.Lo(i) <= c.Lo(i) && c.Hi(i) <= r.Hi(i);
        }
      }
    }
  }

  /** cube_inter, without its null checks. */
  method Intersection(a0: Box, b0: Box) returns (r: Box)
    ensures r == BoxInter(a0, b0) && (IsMeet(r, a0, b0) <==> BoxOverlap(a0, b0))
  {
    InterIsMeetIff(a0, b0);
    hide IsMeet;
    hide BoxOverlap;
    var a, b := a0, b0;
    if a.dim < b.dim { a, b := b, a; }
    hide InterCorner;
    hide Corner;
    hide RMin;
    hide RMax;
    var result := Padded(b, a.dim);
    for i := 0 to a.dim
      invariant forall k :: 0 <= k < 2 * a.dim ==>
                  result[k] == if Axis(a.dim, k) < i then InterCorner(a, b, k) else Corner(b, a.dim, k)
    {
      InterCornerAt(a, b, i);
      result[i] := RMax(RMin(a.x[i], a.x[a.dim + i]), result[i]);
      result[a.dim + i] := RMin(RMax(a.x[i], a.x[a.dim + i]), result[a.dim + i]);
    }
    r := NDBox(a.dim, result[..]);
    InterCorners(a, b, r);
  }

  /** Entry k of the corner lists of a union and of an intersection. */
  function UnionCorner(a: Box, b: Box, k: nat): real {
    var d := MaxDim(a, b);
    if k < d then RMin(a.Lo(k), b.Lo(k)) else RMax(a.Hi(k - d), b.Hi(k - d))
  }

  function InterCorner(a: Box, b: Box, k: nat): real {
    var d := MaxDim(a, b);
    if k < d then RMax(a.Lo(k), b.Lo(k)) else RMin(a.Hi(k - d), b.Hi(k - d))
  }

  function BoxInter(a: Box, b: Box): Box {
    NDBox(MaxDim(a, b), seq(2 * MaxDim(a, b), k requires 0 <= k < 2 * MaxDim(a, b) => InterCorner(a, b, k)))
  }

  lemma UnionCornerAt(a: Box, b: Box, i: nat)
    requires b.dim <= a.dim && i < a.dim
    ensures UnionCorner(a, b, i) == RMin(RMin(a.x[i], a.x[a.dim + i]), Corner(b, a.dim, i))
    ensures UnionCorner(a, b, a.dim + i) == RMax(RMax(a.x[i], a.x[a.dim + i]), Corner(b, a.dim, a.dim + i))
  {
  }

  lemma InterCornerAt(a: Box, b: Box, i: nat)
    requires b.dim <= a.dim && i < a.dim
    ensures InterCorner(a, b, i) == RMax(RMin(a.x[i], a.x[a.dim + i]), Corner(b, a.dim, i))
    ensures InterCorner(a, b, a.dim + i) == RMin(RMax(a.x[i], a.x[a.dim + i]), Corner(b, a.dim, a.dim + i))
  {
  }

  lemma UnionCorners(a: Box, b: Box, r: Box)
    requires r.dim == MaxDim(a, b) && forall k :: 0 <= k < |r.x| ==> r.x[k] == UnionCorner(a, b, k)
    ensures r == BoxUnion(a, b)
  {
    assert r.x == BoxUnion(a, b).x;
  }

  lemma InterCorners(a: Box, b: Box, r: Box)
    requires r.dim == MaxDim(a, b) && forall k :: 0 <= k < |r.x| ==> r.x[k] == InterCorner(a, b, k)
    ensures r == BoxInter(a, b) == BoxInter(b, a)
  {
    assert r.x == BoxInter(a, b).x && r.x == BoxInter(b, a).x;
  }

  function Axis(dim: nat, k: nat): int {
    if k < dim then k else k - dim
  }

  /** Entry k of the corner list of b padded to the given dimension. */
  function Corner(b: Box, dim: nat, k: nat): real
    requires k < 2 * dim
  {
    if k < dim then b.Lo(k) else b.Hi(k - dim)
  }

  /** The corners of the smaller box in order, padded with zeroes to the larger dimension. */
  method Padded(b: Box, dim: nat) returns (result: array<real>)
    requires b.dim <= dim
    ensures fresh(result) && result.Length == 2 * dim
    ensures forall k :: 0 <= k < 2 * dim ==> result[k] == Corner(b, dim, k)
  {
    result := new real[2 * dim](_ => 0.0);
    for i := 0 to b.dim
      invariant forall k :: 0 <= k < 2 * dim && Axis(dim, k) < i ==> result[k] == Corner(b, dim, k)
    {
      result[i] := RMin(b.x[i], b.x[b.dim + i]);
      result[dim + i] := RMax(b.x[i], b.x[b.dim + i]);
    }
    for i := b.dim to dim
      invariant forall k :: 0 <= k < 2 * dim && Axis(dim, k) < i ==> result[k] == Corner(b, dim, k)
    {
      result[i] := 0.0;
      result[dim + i] := 0.0;
    }
  }

  ghost function Members(boxes: seq<Box>): set<Box> {
    set e | e in boxes
  }

  /** g_cube_union; with a single entry the source hands back a null pointer. */
  method UnionAll(entries: seq<Box>) returns (out: Option<Box>)
    requires entries != []
    ensures |entries| == 1 ==> out == None
    ensures 2 <= |entries| ==> out.Some? && IsJoin(out.value, Members(entries))
  {
    out := None;
    var tmp := entries[0];
    for i := 1 to |entries|
      invariant if i == 1 then out == None && tmp == entries[0]
                else out == Some(tmp) && IsJoin(tmp, Members(entries[..i]))
    {
      var u := Union(tmp, entries[i]);
      assert entries[..i + 1] == entries[..i] + [entries[i]];
      if i == 1 {
        assert Members(entries[..2]) == {entries[0], entries[1]};
      } else {
        assert Members(entries[..i] + [entries[i]]) == Members(entries[..i]) + {entries[i]};
        JoinOfMore(tmp, Members(entries[..i]), entries[i]);
      }
      out := Some(u);
      tmp := u;
    }
    assert entries[..|entries|] == entries;
  }

  // ---------------------------------------------------------------------------------------------
  // Size
  // ---------------------------------------------------------------------------------------------

  /** Product of the side lengths of the first n dimensions. */
  ghost function Volume(b: Box, n: nat): real
    requires n <= b.dim
  {
    if n == 0 then 1.0 else Volume(b, n - 1) * (b.Hi(n - 1) - b.Lo(n - 1))
  }

  /** A box whose sides all have length one has size one. */
  lemma {:induction false} VolumeUnit(b: Box, n: nat)
    requires n <= b.dim && forall i: nat :: i < n ==> b.Hi(i) - b.Lo(i) == 1.0
    ensures Volume(b, n) == 1.0
  {
    if 0 < n { VolumeUnit(b, n - 1); }
  }

  /** Sizes add up where a box is cut across one of its dimensions. */
  lemma {:induction false} VolumeAdds(a: Box, b: Box, whole: Box, k: nat, n: nat)
    requires k < a.dim == b.dim == whole.dim && n <= a.dim
    requires forall i: nat :: i < a.dim && i != k ==>
               whole.Hi(i) - whole.Lo(i) == a.Hi(i) - a.Lo(i) == b.Hi(i) - b.Lo(i)
    requires whole.Hi(k) - whole.Lo(k) == (a.Hi(k) - a.Lo(k)) + (b.Hi(k) - b.Lo(k))
    ensures n <= k ==> Volume(whole, n) == Volume(a, n) == Volume(b, n)
    ensures k < n ==> Volume(whole, n) == Volume(a, n) + Volume(b, n)
  {
    hide Volume;
    hide NDBox.Lo;
    hide NDBox.Hi;
    VolumeStep(a, n);
    VolumeStep(b, n);
    VolumeStep(whole, n);
    if 0 < n {
      VolumeAdds(a, b, whole, k, n - 1);
      var i := n - 1;
      CutStep(i < k, i == k, Volume(a, i), Volume(b, i), Volume(whole, i),
              a.Hi(i) - a.Lo(i), b.Hi(i) - b.Lo(i), whole.Hi(i) - whole.Lo(i));
    }
  }

  lemma VolumeStep(b: Box, n: nat)
    requires n <= b.dim
    ensures Volume(b, n) == if n == 0 then 1.0 else Volume(b, n - 1) * (b.Hi(n - 1) - b.Lo(n - 1))
  {
  }

  lemma CutStep(before: bool, at: bool, x: real, y: real, z: real, s: real, t: real, u: real)
    requires if before || at then z == x == y else z == x + y
    requires if at then u == s + t else u == s == t
    ensures if before && !at then z * u == x * s == y * t else z * u == x * s + y * t
  {
    assert x * (s + t) == x * s + x * t;
    assert (x + y) * s == x * s + y * s;
  }

  /** The size depends on the side lengths alone. */
  lemma {:induction false} VolumeBySides(a: Box, b: Box, n: nat)
    requires n <= a.dim && n <= b.dim && forall i: nat :: i < n ==> a.Hi(i) - a.Lo(i) == b.Hi(i) - b.Lo(i)
    ensures Volume(a, n) == Volume(b, n)
  {
    if 0 < n { VolumeBySides(a, b, n - 1); }
  }

  /** rt_cube_size. */
  method Size(b: Box) returns (size: real)
    ensures size == Volume(b, b.dim)
  {
    size := 1.0;
    for i := 0 to b.dim
      invariant size == Volume(b, i)
    {
      var side := b.x[b.dim + i] - b.x[i];
      assert (if side < 0.0 then -side else side) == b.Hi(i) - b.Lo(i);
      size := size * (if side < 0.0 then -side else side);
    }
  }

  // ---------------------------------------------------------------------------------------------
  // Containment and overlap
  // ---------------------------------------------------------------------------------------------

  /** In every dimension of b the interval of b lies inside that of a, absent dimensions being flat at
      zero; dimensions that only a has do not count. */
  ghost predicate BoxContains(a: Box, b: Box) {
    forall i: nat :: i < b.dim ==> a.Lo(i) <= b.Lo(i) && b.Hi(i) <= a.Hi(i)
  }

  /** The intervals meet in every dimension that either box has. */
  ghost predicate BoxOverlap(a: Box, b: Box) {
    forall i: nat :: i < MaxDim(a, b) ==> a.Lo(i) <= b.Hi(i) && b.Lo(i) <= a.Hi(i)
  }

  /** a contains b exactly if some box inside a agrees with b in all dimensions of b; so, where a has no
      dimension that b lacks, exactly if b lies inside a. */
  lemma ContainsIff(a: Box, b: Box)
    ensures BoxContains(a, b) <==>
            exists c: Box :: Inside(c, a) && forall i: nat :: i < b.dim ==> c.Lo(i) == b.Lo(i) && c.Hi(i) == b.Hi(i)
    ensures a.dim <= b.dim ==> (BoxContains(a, b) <==> Inside(b, a))
  {
    if BoxContains(a, b) { var c := ContainedPart(a, b); }
    if c' :| Inside(c', a) && forall i: nat :: i < b.dim ==> c'.Lo(i) == b.Lo(i) && c'.Hi(i) == b.Hi(i) {
      forall i: nat | i < b.dim ensures a.Lo(i) <= b.Lo(i) && b.Hi(i) <= a.Hi(i) {
        assert c'.Lo(i) == b.Lo(i);
      }
    }
  }

  lemma ContainedPart(a: Box, b: Box) returns (c: Box)
    requires BoxContains(a, b)
    ensures Inside(c, a) && forall i: nat :: i < b.dim ==> c.Lo(i) == b.Lo(i) && c.Hi(i) == b.Hi(i)
  {
    var lo := (i: nat) => if i < b.dim then b.Lo(i) else a.Lo(i);
    var hi := (i: nat) => if i < b.dim then b.Hi(i) else a.Hi(i);
    c := Cornered(MaxDim(a, b), lo, hi);
    forall i: nat
      ensures a.Lo(i) <= c.Lo(i) && c.Hi(i) <= a.Hi(i)
      ensures i < b.dim ==> c.Lo(i) == b.Lo(i) && c.Hi(i) == b.Hi(i)
    {
      CorneredEnds(MaxDim(a, b), lo, hi, i);
      assert a.Lo(i) <= a.Hi(i) && b.Lo(i) <= b.Hi(i);
    }
  }

  /** The box with the given corners. */
  function Cornered(d: nat, lo: nat -> real, hi: nat -> real): Box {
    NDBox(d, seq(2 * d, k requires 0 <= k < 2 * d => if k < d then lo(k) else hi(k - d)))
  }

  lemma CorneredEnds(d: nat, lo: nat -> real, hi: nat -> real, i: nat)
    ensures var b := Cornered(d, lo, hi);
            && (i < d && lo(i) <= hi(i) ==> b.Lo(i) == lo(i) && b.Hi(i) == hi(i))
            && (d <= i ==> b.Lo(i) == b.Hi(i) == 0.0)
  {
    var b := Cornered(d, lo, hi);
    if i < d { assert b.x[i] == lo(i) && b.x[d + i] == hi(i); }
  }

  /** Two boxes overlap exactly if some box lies inside both. */
  lemma OverlapIff(a: Box, b: Box)
    ensures BoxOverlap(a, b) <==> exists c: Box :: Inside(c, a) && Inside(c, b)
  {
    InterIsMeetIff(a, b);
    if c :| Inside(c, a) && Inside(c, b) {
      forall i: nat | i < MaxDim(a, b) ensures a.Lo(i) <= b.Hi(i) && b.Lo(i) <= a.Hi(i) {
        assert a.Lo(i) <= c.Lo(i) && c.Hi(i) <= b.Hi(i) && c.Lo(i) <= c.Hi(i);
      }
    }
  }

  /** cube_contains_v0 on boxes that are not null. */
  method Contains(a: Box, b: Box) returns (r: bool)
    ensures r <==> BoxContains(a, b)
  {
    if a.dim < b.dim {
      for i := a.dim to b.dim
        invariant forall k: nat :: a.dim <= k < i ==> b.Lo(k) == b.Hi(k) == 0.0
      {
        if b.x[i] != 0.0 || b.x[i + b.dim] != 0.0 {
          assert b.Lo(i) != 0.0 || b.Hi(i) != 0.0;
          return false;
        }
      }
    }
    var common := if a.dim < b.dim then a.dim else b.dim;
    for i := 0 to common
      invariant forall k: nat :: k < i ==> a.Lo(k) <= b.Lo(k) && b.Hi(k) <= a.Hi(k)
    {
      if a.Lo(i) > b.Lo(i) { return false; }
      if a.Hi(i) < b.Hi(i) { return false; }
    }
    return true;
  }

  /** cube_overlap_v0 on boxes that are not null. */
  method Overlap(a0: Box, b0: Box) returns (r: bool)
    ensures r <==> BoxOverlap(a0, b0)
  {
    var a, b := a0, b0;
    if a.dim < b.dim { a, b := b, a; }
    for i := 0 to b.dim
      invariant forall k: nat :: k < i ==> a.Lo(k) <= b.Hi(k) && b.Lo(k) <= a.Hi(k)
    {
      if a.Lo(i) > b.Hi(i) { return false; }
      if a.Hi(i) < b.Lo(i) { return false; }
    }
    for i := b.dim to a.dim
      invariant forall k: nat :: k < i ==> a.Lo(k) <= b.Hi(k) && b.Lo(k) <= a.Hi(k)
    {
      if a.Lo(i) > 0.0 { return false; }
      if a.Hi(i) < 0.0 { return false; }
    }
    return true;
  }
}
