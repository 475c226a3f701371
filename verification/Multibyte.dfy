/** Strings of a multibyte encoding, as the fuzzystrmatch code walks over them. */
module Multibyte {
  import opened Bytes
  import opened EditDistance

  /** pg_mblen: the length of the character at the head of the given bytes. */
  type CharLength = seq<Byte> -> nat

  predicate WellEncoded(mblen: CharLength, b: seq<Byte>) {
    b == [] || (0 < mblen(b) <= |b| && WellEncoded(mblen, b[mblen(b)..]))
  }

  function Chars(mblen: CharLength, b: seq<Byte>): seq<Char>
    requires WellEncoded(mblen, b)
  {
    if b == [] then [] else [b[..mblen(b)]] + Chars(mblen, b[mblen(b)..])
  }

  /** Byte offset of character k. */
  ghost function Offset(chars: seq<Char>, k: nat): nat
    requires k <= |chars|
  {
    if k == 0 then 0 else Offset(chars, k - 1) + |chars[k - 1]|
  }

  lemma {:induction false} OffsetOfTail(chars: seq<Char>, k: nat)
    requires 0 < k <= |chars|
    ensures Offset(chars, k) == |chars[0]| + Offset(chars[1..], k - 1)
  {
    if 1 < k { OffsetOfTail(chars, k - 1); }
  }

  /** At the offset of character k lie its bytes, and there pg_mblen reports its length. */
  lemma {:induction false} CharAt(mblen: CharLength, b: seq<Byte>, k: nat)
    requires WellEncoded(mblen, b) && k < |Chars(mblen, b)|
    ensures var chars := Chars(mblen, b); var o := Offset(chars, k);
            && o + |chars[k]| <= |b| && b[o..o + |chars[k]|] == chars[k]
            && mblen(b[o..]) == |chars[k]| && 0 < |chars[k]|
    decreases |b|
  {
    if 0 < k {
      var tail := b[mblen(b)..];
      CharAt(mblen, tail, k - 1);
      OffsetOfTail(Chars(mblen, b), k);
      var o := Offset(Chars(mblen, tail), k - 1);
      assert tail[o..] == b[mblen(b) + o..];
    }
  }

  lemma {:induction false} CharCount(mblen: CharLength, b: seq<Byte>)
    requires WellEncoded(mblen, b)
    ensures |Chars(mblen, b)| <= |b|
    decreases |b|
  {
    if b != [] { CharCount(mblen, b[mblen(b)..]); }
  }

  /** As many characters as bytes: every character is the one byte at its own index. */
  lemma {:induction false} SingleBytes(mblen: CharLength, b: seq<Byte>, k: nat)
    requires WellEncoded(mblen, b) && |Chars(mblen, b)| == |b| && k <= |b|
    ensures Offset(Chars(mblen, b), k) == k
    ensures k < |b| ==> Chars(mblen, b)[k] == [b[k]]
    decreases |b|
  {
    if b != [] {
      var tail := b[mblen(b)..];
      CharCount(mblen, tail);
      if 0 < k {
        SingleBytes(mblen, tail, k - 1);
        OffsetOfTail(Chars(mblen, b), k);
      }
    }
  }

  /** Compares two characters of equal length from the last byte down. */
  method RestOfCharSame(s1: seq<Byte>, x: nat, s2: seq<Byte>, y: nat, length: nat) returns (same: bool)
    requires x + length <= |s1| && y + length <= |s2|
    ensures same <==> s1[x..x + length] == s2[y..y + length]
  {
    var len := length;
    while 0 < len
      invariant 0 <= len <= length
      invariant s1[x + len..x + length] == s2[y + len..y + length]
    {
      len := len - 1;
      if s1[x + len] != s2[y + len] {
        assert s1[x..x + length][len] != s2[y..y + length][len];
        return false;
      }
      assert s1[x + len..x + length] == [s1[x + len]] + s1[x + len + 1..x + length];
      assert s2[y + len..y + length] == [s2[y + len]] + s2[y + len + 1..y + length];
    }
    return true;
  }

  /** The cache of character lengths, closed by a zero. */
  method CacheLengths(mblen: CharLength, b: seq<Byte>) returns (lengths: seq<nat>)
    requires WellEncoded(mblen, b)
    ensures var chars := Chars(mblen, b);
            && |lengths| == |chars| + 1 && lengths[|chars|] == 0
            && forall k :: 0 <= k < |chars| ==> lengths[k] == |chars[k]|
  {
    ghost var chars := Chars(mblen, b);
    lengths := [];
    var i, cp := 0, 0;
    while i < |Chars(mblen, b)|
      invariant 0 <= i <= |chars| && |lengths| == i && cp == Offset(chars, i)
      invariant forall k :: 0 <= k < i ==> lengths[k] == |chars[k]|
    {
      CharAt(mblen, b, i);
      lengths := lengths + [mblen(b[cp..])];
      cp := cp + lengths[i];
      i := i + 1;
    }
    lengths := lengths + [0];
  }
}
