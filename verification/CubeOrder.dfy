/** cube_cmp_v0: lower corners of the common dimensions first, then upper corners, then the dimensions
    that only one box has, then the number of dimensions. */
module CubeOrder {
  import opened Cube

  function Sign(x: real): int {
    if x < 0.0 then -1 else if x > 0.0 then 1 else 0
  }

  /** The first difference between the chosen ends in dimensions [start, stop). */
  function CompareEnds(a: Box, b: Box, upper: bool, start: nat, stop: nat): int
    decreases stop - start
  {
    if start >= stop then 0
    else if a.End(upper, start) != b.End(upper, start) then Sign(a.End(upper, start) - b.End(upper, start))
    else CompareEnds(a, b, upper, start + 1, stop)
  }

  function First(c1: int, c2: int): int {
    if c1 != 0 then c1 else c2
  }

  function MinDim(a: Box, b: Box): nat {
    if a.dim < b.dim then a.dim else b.dim
  }

  function Compare(a: Box, b: Box): int {
    var d, e := MinDim(a, b), MaxDim(a, b);
    First(First(CompareEnds(a, b, false, 0, d), CompareEnds(a, b, true, 0, d)),
          First(First(CompareEnds(a, b, false, d, e), CompareEnds(a, b, true, d, e)),
                if a.dim > b.dim then 1 else if a.dim < b.dim then -1 else 0))
  }

  /** One of the loops of cube_cmp_v0; a dimension that a box lacks compares as zero. */
  method CompareLoop(a: Box, b: Box, upper: bool, start: nat, stop: nat) returns (r: int)
    requires start <= stop
    ensures r == CompareEnds(a, b, upper, start, stop)
  {
    for i := start to stop
      invariant CompareEnds(a, b, upper, i, stop) == CompareEnds(a, b, upper, start, stop)
    {
      if a.End(upper, i) > b.End(upper, i) { return 1; }
      if a.End(upper, i) < b.End(upper, i) { return -1; }
    }
    return 0;
  }

  /** cube_cmp_v0. */
  method CubeCmp(a: Box, b: Box) returns (r: int)
    ensures r == Compare(a, b)
    ensures r == 0 <==> a.dim == b.dim && forall i: nat :: a.Lo(i) == b.Lo(i) && a.Hi(i) == b.Hi(i)
    ensures (r == -1 <==> Before(a, b)) && (r == 1 <==> Before(b, a)) && r in {-1, 0, 1}
  {
    CompareZero(a, b);
    BeforeIff(a, b);
    BeforeIff(b, a);
    CompareAntisymmetric(a, b);
    hide Before;
    var dim := MinDim(a, b);
    r := CompareLoop(a, b, false, 0, dim);
    if r != 0 { return; }
    r := CompareLoop(a, b, true, 0, dim);
    if r != 0 { return; }
    var far := MaxDim(a, b);
    if a.dim != b.dim {
      r := CompareLoop(a, b, false, dim, far);
      if r != 0 { return; }
      r := CompareLoop(a, b, true, dim, far);
      if r != 0 { return; }
      return if a.dim > b.dim then 1 else -1;
    }
    return 0;
  }

  // ---------------------------------------------------------------------------------------------
  // Laws
  // ---------------------------------------------------------------------------------------------

  lemma {:induction false} EndsLaws(a: Box, b: Box, upper: bool, start: nat, stop: nat)
    ensures CompareEnds(a, b, upper, start, stop) == -CompareEnds(b, a, upper, start, stop)
    ensures CompareEnds(a, b, upper, start, stop) == 0 <==>
            (forall i: nat :: start <= i < stop ==> a.End(upper, i) == b.End(upper, i))
    decreases stop - start
  {
    if start < stop { EndsLaws(a, b, upper, start + 1, stop); }
  }

  lemma {:induction false} EndsTransitive(a: Box, b: Box, c: Box, upper: bool, start: nat, stop: nat)
    requires CompareEnds(a, b, upper, start, stop) <= 0 && CompareEnds(b, c, upper, start, stop) <= 0
    ensures CompareEnds(a, c, upper, start, stop) <= 0
    ensures CompareEnds(a, c, upper, start, stop) == 0 ==>
              CompareEnds(a, b, upper, start, stop) == 0 && CompareEnds(b, c, upper, start, stop) == 0
    decreases stop - start
  {
    if start < stop && a.End(upper, start) == b.End(upper, start) == c.End(upper, start) {
      EndsTransitive(a, b, c, upper, start + 1, stop);
    }
  }

  /** Swapping the boxes swaps the sign, whatever their dimensions. */
  lemma CompareAntisymmetric(a: Box, b: Box)
    ensures Compare(a, b) == -Compare(b, a)
  {
    var d, e := MinDim(a, b), MaxDim(a, b);
    EndsLaws(a, b, false, 0, d);
    EndsLaws(a, b, true, 0, d);
    EndsLaws(a, b, false, d, e);
    EndsLaws(a, b, true, d, e);
  }

  /** Zero means the same dimension and the same intervals. */
  lemma CompareZero(a: Box, b: Box)
    ensures Compare(a, b) == 0
       <==> a.dim == b.dim && forall i: nat :: a.Lo(i) == b.Lo(i) && a.Hi(i) == b.Hi(i)
  {
    var d, e := MinDim(a, b), MaxDim(a, b);
    EndsLaws(a, b, false, 0, d);
    EndsLaws(a, b, true, 0, d);
    if a.dim == b.dim && (forall i: nat :: a.Lo(i) == b.Lo(i) && a.Hi(i) == b.Hi(i)) {
      assert forall i: nat :: a.End(false, i) == b.End(false, i) && a.End(true, i) == b.End(true, i);
    }
    if Compare(a, b) == 0 {
      forall i: nat ensures a.Lo(i) == b.Lo(i) && a.Hi(i) == b.Hi(i) {
        if i < d {
          assert a.End(false, i) == b.End(false, i) && a.End(true, i) == b.End(true, i);
        }
      }
    }
  }

  ghost predicate SameLower(a: Box, b: Box, start: nat, stop: nat) {
    forall k: nat :: start <= k < stop ==> a.Lo(k) == b.Lo(k)
  }

  ghost predicate SameUpper(a: Box, b: Box, start: nat, stop: nat) {
    forall k: nat :: start <= k < stop ==> a.Hi(k) == b.Hi(k)
  }

  /** a comes before b: its lower end is lower in the first dimension of start to stop in which lower ends
      differ, or none does and its upper end is lower in the first in which upper ends differ. */
  ghost predicate EndsBefore(a: Box, b: Box, start: nat, stop: nat) {
    || (exists i: nat :: start <= i < stop && a.Lo(i) < b.Lo(i) && SameLower(a, b, start, i))
    || (SameLower(a, b, start, stop) &&
        exists i: nat :: start <= i < stop && a.Hi(i) < b.Hi(i) && SameUpper(a, b, start, i))
  }

  /** The order in terms of intervals: dimensions that both boxes have come first, then those that only one
      has, against zero, and last the number of dimensions. */
  ghost predicate Before(a: Box, b: Box) {
    var d, e := MinDim(a, b), MaxDim(a, b);
    || EndsBefore(a, b, 0, d)
    || (SameLower(a, b, 0, d) && SameUpper(a, b, 0, d) &&
        (EndsBefore(a, b, d, e) || (SameLower(a, b, d, e) && SameUpper(a, b, d, e) && a.dim < b.dim)))
  }

  /** The first difference of one kind of ends decides, and the lower end comes first. */
  lemma {:induction false} LowerEnds(a: Box, b: Box, start: nat, stop: nat)
    ensures var c := CompareEnds(a, b, false, start, stop);
            && (c == -1 <==> exists i: nat :: start <= i < stop && a.Lo(i) < b.Lo(i) && SameLower(a, b, start, i))
            && (c == 0 <==> SameLower(a, b, start, stop)) && c in {-1, 0, 1}
    decreases stop - start
  {
    if start < stop {
      LowerEnds(a, b, start + 1, stop);
      if a.Lo(start) == b.Lo(start) {
        forall i: nat | start < i <= stop ensures SameLower(a, b, start, i) <==> SameLower(a, b, start + 1, i) {
        }
      } else {
        assert SameLower(a, b, start, start);
      }
    }
  }

  lemma {:induction false} UpperEnds(a: Box, b: Box, start: nat, stop: nat)
    ensures var c := CompareEnds(a, b, true, start, stop);
            && (c == -1 <==> exists i: nat :: start <= i < stop && a.Hi(i) < b.Hi(i) && SameUpper(a, b, start, i))
            && (c == 0 <==> SameUpper(a, b, start, stop)) && c in {-1, 0, 1}
    decreases stop - start
  {
    if start < stop {
      UpperEnds(a, b, start + 1, stop);
      if a.Hi(start) == b.Hi(start) {
        forall i: nat | start < i <= stop ensures SameUpper(a, b, start, i) <==> SameUpper(a, b, start + 1, i) {
        }
      } else {
        assert SameUpper(a, b, start, start);
      }
    }
  }

  /** The comparison is that order. */
  lemma BeforeIff(a: Box, b: Box)
    ensures (Compare(a, b) == -1 <==> Before(a, b)) && Compare(a, b) in {-1, 0, 1}
  {
    var d, e := MinDim(a, b), MaxDim(a, b);
    LowerEnds(a, b, 0, d);
    UpperEnds(a, b, 0, d);
    LowerEnds(a, b, d, e);
    UpperEnds(a, b, d, e);
    hide CompareEnds;
    hide SameLower;
    hide SameUpper;
  }

  /** Zero on corner-normalised boxes means equality. */
  lemma CompareZeroNormal(a: Box, b: Box)
    requires a.Normal() && b.Normal()
    ensures Compare(a, b) == 0 <==> a == b
  {
    CompareZero(a, b);
    if Compare(a, b) == 0 { WithinAntisymmetric(a, b); }
  }

  /** Among boxes of dimension d, and those of dimension zero, the order is lexicographic. */
  lemma CompareLexicographic(a: Box, b: Box, d: nat)
    requires a.dim in {0, d} && b.dim in {0, d}
    ensures Compare(a, b)
         == First(First(CompareEnds(a, b, false, 0, d), CompareEnds(a, b, true, 0, d)),
                  if a.dim > b.dim then 1 else if a.dim < b.dim then -1 else 0)
  {
    if a.dim == b.dim == 0 {
      EndsLaws(a, b, false, 0, d);
      EndsLaws(a, b, true, 0, d);
    }
  }

  lemma CompareTransitive(a: Box, b: Box, c: Box, d: nat)
    requires a.dim in {0, d} && b.dim in {0, d} && c.dim in {0, d}
    requires Compare(a, b) <= 0 && Compare(b, c) <= 0
    ensures Compare(a, c) <= 0
  {
    CompareLexicographic(a, b, d);
    CompareLexicographic(b, c, d);
    CompareLexicographic(a, c, d);
    EndsTransitive(a, b, c, false, 0, d);
    if CompareEnds(a, c, false, 0, d) == 0 {
      EndsTransitive(a, b, c, true, 0, d);
    }
  }

  // ---------------------------------------------------------------------------------------------
  // Mixed dimensions
  // ---------------------------------------------------------------------------------------------

  /** The normal box of dimension d with upper corner h in dimension 0, and with its interval in
      dimension k flat at v; all else is zero. */
  function Probe(d: nat, h: real, k: nat, v: real): Box
    requires 0 < d && 0 < k && 0.0 <= h
  {
    NDBox(d, seq(2 * d, i requires 0 <= i < 2 * d => if i == d then h else if i == k < d || i == d + k then v else 0.0))
  }

  lemma ProbeEnds(d: nat, h: real, k: nat, v: real, i: nat)
    requires 0 < d && 0 < k && 0.0 <= h
    ensures Probe(d, h, k, v).Lo(i) == if i == k < d then v else 0.0
    ensures Probe(d, h, k, v).Hi(i) == if i == 0 then h else if i == k < d then v else 0.0
  {
  }

  lemma {:induction false} FirstEndsDifference(a: Box, b: Box, upper: bool, start: nat, k: nat, stop: nat)
    requires start <= k < stop && forall i: nat :: start <= i < k ==> a.End(upper, i) == b.End(upper, i)
    requires a.End(upper, k) != b.End(upper, k)
    ensures CompareEnds(a, b, upper, start, stop) == Sign(a.End(upper, k) - b.End(upper, k))
    decreases k - start
  {
    if start < k { FirstEndsDifference(a, b, upper, start + 1, k, stop); }
  }

  /** Whenever two different positive dimensions meet, three boxes go round in a circle. */
  lemma CompareCycle(d1: nat, d2: nat) returns (a: Box, b: Box, c: Box)
    requires 0 < d1 < d2
    ensures a.dim == d2 && b.dim == d1 && c.dim == d2
    ensures Compare(a, b) < 0 && Compare(b, c) < 0 && Compare(c, a) < 0
  {
    a, b, c := Probe(d2, 1.0, d1, 5.0), Probe(d1, 2.0, d1, 0.0), Probe(d2, 3.0, d1, 0.0);
    forall i: nat
      ensures a.Lo(i) == (if i == d1 then 5.0 else 0.0) && b.Lo(i) == c.Lo(i) == 0.0
    {
      ProbeEnds(d2, 1.0, d1, 5.0, i);
      ProbeEnds(d1, 2.0, d1, 0.0, i);
      ProbeEnds(d2, 3.0, d1, 0.0, i);
    }
    ProbeEnds(d2, 1.0, d1, 5.0, 0);
    ProbeEnds(d1, 2.0, d1, 0.0, 0);
    ProbeEnds(d2, 3.0, d1, 0.0, 0);
    EndsLaws(a, b, false, 0, d1);
    EndsLaws(b, c, false, 0, d1);
    FirstEndsDifference(a, b, true, 0, 0, d1);
    FirstEndsDifference(b, c, true, 0, 0, d1);
    FirstEndsDifference(c, a, false, 0, d1, d2);
  }

  ghost predicate TransitiveOn(dims: set<nat>) {
    forall a: Box, b: Box, c: Box | a.dim in dims && b.dim in dims && c.dim in dims ::
      Compare(a, b) <= 0 && Compare(b, c) <= 0 ==> Compare(a, c) <= 0
  }

  /** The order is transitive on the boxes of some dimensions exactly if at most one of them is positive. */
  lemma TransitiveIff(dims: set<nat>)
    ensures TransitiveOn(dims) <==> forall d1, d2 :: d1 in dims && d2 in dims ==> d1 == d2 || d1 == 0 || d2 == 0
  {
    if forall d1, d2 :: d1 in dims && d2 in dims ==> d1 == d2 || d1 == 0 || d2 == 0 {
      forall a: Box, b: Box, c: Box | a.dim in dims && b.dim in dims && c.dim in dims
        && Compare(a, b) <= 0 && Compare(b, c) <= 0 ensures Compare(a, c) <= 0
      {
        var d := if a.dim != 0 then a.dim else if b.dim != 0 then b.dim else c.dim;
        CompareTransitive(a, b, c, d);
      }
    } else {
      var d1, d2 :| d1 in dims && d2 in dims && d1 != d2 && d1 != 0 && d2 != 0;
      var a, b, c := CompareCycle(if d1 < d2 then d1 else d2, if d1 < d2 then d2 else d1);
      CompareAntisymmetric(c, a);
    }
  }
}
