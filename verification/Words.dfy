/** Little-endian words in memory. */
module Words {
  import opened Bytes

  type Data = seq<Byte>

  function Word(b0: int, b1: int, b2: int, b3: int): int {
    b0 + 0x100 * b1 + 0x1_0000 * b2 + 0x100_0000 * b3
  }

  lemma WordOf(v: nat)
    requires v < 0x1_0000_0000
    ensures Word(v % 0x100, v / 0x100 % 0x100, v / 0x1_0000 % 0x100, v / 0x100_0000) == v
    ensures v / 0x100_0000 < 0x100
  {
    assert v / 0x1_0000 == v / 0x100 / 0x100 && v / 0x100_0000 == v / 0x1_0000 / 0x100;
  }

  function U32(m: Data, o: nat): nat
    requires o + 4 <= |m|
  {
    Word(m[o], m[o + 1], m[o + 2], m[o + 3])
  }

  lemma SameWord(m: Data, m': Data, o: nat)
    requires o + 4 <= |m| && o + 4 <= |m'| && forall k :: o <= k < o + 4 ==> m[k] == m'[k]
    ensures U32(m, o) == U32(m', o)
  {
  }

  /** The four bytes of a word. */
  function WordBytes(v: nat): (d: Data)
    requires v < 0x1_0000_0000
    ensures |d| == 4 && U32(d, 0) == v
  {
    WordOf(v);
    [v % 0x100, v / 0x100 % 0x100, v / 0x1_0000 % 0x100, v / 0x100_0000]
  }
}
