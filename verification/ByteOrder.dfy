/** Byte strings in the order of byteacmp, and what cutting them short does to that order. */
module ByteOrder {
  import opened Bytes

  type Bytea = seq<Byte>

  /** First difference decides; otherwise the shorter string comes first. */
  function Compare(a: Bytea, b: Bytea): int {
    if a == [] || b == [] then (if a == b then 0 else if a == [] then -1 else 1)
    else if a[0] != b[0] then (if a[0] < b[0] then -1 else 1)
    else Compare(a[1..], b[1..])
  }

  predicate Le(a: Bytea, b: Bytea) {
    Compare(a, b) <= 0
  }

  predicate Lt(a: Bytea, b: Bytea) {
    Compare(a, b) < 0
  }

  lemma {:induction false} CompareSign(a: Bytea, b: Bytea)
    ensures Compare(a, b) == -Compare(b, a)
    ensures Compare(a, b) == 0 <==> a == b
  {
    if a != [] && b != [] && a[0] == b[0] {
      CompareSign(a[1..], b[1..]);
      assert a == [a[0]] + a[1..] && b == [b[0]] + b[1..];
    }
  }

  lemma {:induction false} LeTransitive(a: Bytea, b: Bytea, c: Bytea)
    requires Le(a, b) && Le(b, c)
    ensures Le(a, c)
  {
    if a != [] && b != [] && c != [] && a[0] == b[0] == c[0] {
      LeTransitive(a[1..], b[1..], c[1..]);
    }
  }

  /** A prefix is never above the whole. */
  lemma {:induction false} PrefixBelow(u: Bytea, k: Bytea)
    requires u <= k
    ensures Le(u, k)
  {
    if u != [] { PrefixBelow(u[1..], k[1..]); }
  }

  /** Everything between a prefix of k and k has that prefix as well. */
  lemma {:induction false} PrefixConvex(u: Bytea, q: Bytea, k: Bytea)
    requires u <= k && Le(u, q) && Le(q, k)
    ensures u <= q
  {
    if u != [] {
      PrefixConvex(u[1..], q[1..], k[1..]);
      assert q == [q[0]] + q[1..] && u == [u[0]] + u[1..];
    }
  }

  /** Length of the longest common prefix. */
  function CommonPrefix(a: Bytea, b: Bytea): (n: nat)
    ensures n <= |a| && n <= |b| && a[..n] == b[..n]
    ensures n < |a| && n < |b| ==> a[n] != b[n]
  {
    if a == [] || b == [] || a[0] != b[0] then 0 else
      var n := 1 + CommonPrefix(a[1..], b[1..]);
      assert a[..n] == [a[0]] + a[1..][..n - 1] && b[..n] == [b[0]] + b[1..][..n - 1];
      n
  }

  lemma CommonPrefixUnique(a: Bytea, b: Bytea, n: nat)
    requires n <= |a| && n <= |b| && a[..n] == b[..n]
    requires n < |a| && n < |b| ==> a[n] != b[n]
    ensures CommonPrefix(a, b) == n
  {
  }

  /** A wider interval has a shorter common prefix. */
  lemma {:induction false} CommonPrefixNested(lo: Bytea, l: Bytea, u: Bytea, hi: Bytea)
    requires Le(lo, l) && Le(l, u) && Le(u, hi)
    ensures CommonPrefix(lo, hi) <= CommonPrefix(l, u)
  {
    if lo != [] && hi != [] && lo[0] == hi[0] {
      CommonPrefixNested(lo[1..], l[1..], u[1..], hi[1..]);
    }
  }

  /** a comes before b if it is a proper prefix of b, or has the smaller byte where they first differ. */
  lemma {:induction false} LtIff(a: Bytea, b: Bytea)
    ensures var n := CommonPrefix(a, b);
            && (Lt(a, b) <==> n < |b| && (n == |a| || a[n] < b[n]))
            && (Le(a, b) <==> Lt(a, b) || a == b) && Compare(a, b) in {-1, 0, 1}
  {
    CompareSign(a, b);
    if a != [] && b != [] && a[0] == b[0] {
      LtIff(a[1..], b[1..]);
      assert a == [a[0]] + a[1..] && b == [b[0]] + b[1..];
    }
  }

  function Cut(a: Bytea, w: nat): (r: Bytea)
    ensures r <= a && |r| == (if |a| < w then |a| else w)
  {
    if |a| < w then a else a[..w]
  }

  lemma {:induction false} CutMonotone(a: Bytea, b: Bytea, w: nat)
    requires Le(a, b)
    ensures Le(Cut(a, w), Cut(b, w))
    decreases w
  {
    if a != [] && b != [] && a[0] == b[0] && 0 < w {
      CutMonotone(a[1..], b[1..], w - 1);
      CutTail(a, w);
      CutTail(b, w);
    }
  }

  lemma CutTail(a: Bytea, w: nat)
    requires a != [] && 0 < w
    ensures Cut(a, w) != [] && Cut(a, w)[0] == a[0] && Cut(a, w)[1..] == Cut(a[1..], w - 1)
  {
  }

  /** Cutting beyond the common prefix keeps it. */
  lemma CommonPrefixOfCuts(a: Bytea, b: Bytea, w: nat)
    requires CommonPrefix(a, b) <= w
    ensures CommonPrefix(Cut(a, w), Cut(b, w)) == CommonPrefix(a, b)
  {
    var n := CommonPrefix(a, b);
    assert Cut(a, w)[..n] == a[..n] && Cut(b, w)[..n] == b[..n];
    CommonPrefixUnique(Cut(a, w), Cut(b, w), n);
  }
}
