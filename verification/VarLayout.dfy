/** How variable-length keys lie in memory (gbt_var_key_copy and gbt_var_key_readable): one varlena inside
    another for a leaf key, two with alignment between them for a node key. Header words hold plain sizes. */
module VarLayout {
  import opened Bytes
  import opened Words
  import opened ByteOrder
  import opened VarKeys

  const VARHDRSZ := 4

  /** Varlena sizes stay below a gigabyte. */
  const MAX_SIZE := 0x4000_0000

  function IntAlign(n: nat): (r: nat)
    ensures n <= r < n + 4 && r % 4 == 0
  {
    (n + 3) / 4 * 4
  }

  function Varlena(d: Bytea): (v: Data)
    requires |d| + VARHDRSZ < MAX_SIZE
    ensures |v| == |d| + VARHDRSZ
  {
    WordBytes(|d| + VARHDRSZ) + d
  }

  predicate Fits(key: VarKey) {
    |key.Lower()| + |key.Upper()| + 16 < MAX_SIZE
  }

  function Pad(n: nat): Data {
    seq(IntAlign(n) - n, _ => 0)
  }

  /** gbt_var_key_copy; forceNode makes a node key even of a leaf. */
  function KeyCopy(key: VarKey, forceNode: bool): Data
    requires Fits(key)
  {
    if key.Leaf? && !forceNode then
      WordBytes(|key.value| + 2 * VARHDRSZ) + Varlena(key.value)
    else
      var l, u := key.Lower(), key.Upper();
      WordBytes(VARHDRSZ + IntAlign(|l| + VARHDRSZ) + |u| + VARHDRSZ)
      + Varlena(l) + Pad(|l| + VARHDRSZ) + Varlena(u)
  }

  /** The varlena at offset o, if it lies within the image. */
  predicate VarlenaAt(image: Data, o: nat, d: Bytea) {
    o + VARHDRSZ + |d| <= |image| && U32(image, o) == |d| + VARHDRSZ && image[o + VARHDRSZ..o + VARHDRSZ + |d|] == d
  }

  /** gbt_var_key_readable: the key that an image spells, where it spells one. */
  predicate Reads(image: Data, key: VarKey) {
    && VARHDRSZ <= |image| && VarlenaAt(image, VARHDRSZ, key.Lower())
    && var lowerSize := U32(image, VARHDRSZ);
       if U32(image, 0) > VARHDRSZ + lowerSize
       then key.Node? && VarlenaAt(image, VARHDRSZ + IntAlign(lowerSize), key.Upper())
       else key.Leaf?
  }

  lemma VarlenaInside(a: Data, d: Bytea, b: Data)
    requires |d| + VARHDRSZ < MAX_SIZE
    ensures VarlenaAt(a + Varlena(d) + b, |a|, d)
  {
    var m := a + Varlena(d) + b;
    var w := WordBytes(|d| + VARHDRSZ);
    assert m[|a| + VARHDRSZ..|a| + VARHDRSZ + |d|] == d;
    SameWordAt(m, |a|, w);
  }

  lemma SameWordAt(m: Data, o: nat, w: Data)
    requires |w| == 4 && o + 4 <= |m| && forall k :: 0 <= k < 4 ==> m[o + k] == w[k]
    ensures U32(m, o) == U32(w, 0)
  {
  }

  /** A copied key reads back as itself; a leaf forced to be a node reads as the node with equal bounds. */
  lemma CopyReadsBack(key: VarKey, forceNode: bool)
    requires Fits(key)
    ensures Reads(KeyCopy(key, forceNode), if forceNode then Node(key.Lower(), key.Upper()) else key)
  {
    hide WordBytes;
    hide Varlena;
    hide Reads;
    if key.Leaf? && !forceNode {
      LeafReadsBack(WordBytes(|key.value| + 2 * VARHDRSZ), key.value);
    } else {
      var l, u := key.Lower(), key.Upper();
      NodeReadsBack(WordBytes(VARHDRSZ + IntAlign(|l| + VARHDRSZ) + |u| + VARHDRSZ), l, u);
    }
  }

  lemma LeafReadsBack(head: Data, v: Bytea)
    requires |v| + VARHDRSZ < MAX_SIZE && |head| == 4 && U32(head, 0) == |v| + 2 * VARHDRSZ
    ensures Reads(head + Varlena(v), Leaf(v))
  {
    hide Varlena;
    hide U32;
    var image := head + Varlena(v);
    VarlenaInside(head, v, []);
    assert image == head + Varlena(v) + [];
    SameWordAt(image, 0, head);
  }

  lemma NodeReadsBack(head: Data, l: Bytea, u: Bytea)
    requires |l| + VARHDRSZ < MAX_SIZE && |u| + VARHDRSZ < MAX_SIZE
    requires |head| == 4 && U32(head, 0) == VARHDRSZ + IntAlign(|l| + VARHDRSZ) + |u| + VARHDRSZ
    ensures Reads(head + Varlena(l) + Pad(|l| + VARHDRSZ) + Varlena(u), Node(l, u))
  {
    hide Varlena;
    hide U32;
    hide IntAlign;
    hide VarlenaAt;
    var pad := Pad(|l| + VARHDRSZ);
    var image := head + Varlena(l) + pad + Varlena(u);
    VarlenaInside(head, l, pad + Varlena(u));
    assert image == head + Varlena(l) + (pad + Varlena(u));
    VarlenaInside(head + Varlena(l) + pad, u, []);
    assert image == (head + Varlena(l) + pad) + Varlena(u) + [];
    SameWordAt(image, 0, head);
    SizeAt(image, VARHDRSZ, l);
  }

  lemma SizeAt(image: Data, o: nat, d: Bytea)
    requires VarlenaAt(image, o, d)
    ensures o + VARHDRSZ <= |image| && U32(image, o) == |d| + VARHDRSZ
  {
  }

  /** No image reads as two keys, so leaf and node keys are never confused. */
  lemma ReadsOneKey(image: Data, a: VarKey, b: VarKey)
    requires Reads(image, a) && Reads(image, b)
    ensures a == b
  {
    assert |a.Lower()| == |b.Lower()|;
    if a.Node? { assert |a.Upper()| == |b.Upper()|; }
  }
}
