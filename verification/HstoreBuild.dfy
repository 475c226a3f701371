/** Building an hstore value pair by pair (the macros of hstore.h). */
module HstoreBuild {
  import opened Bytes
  import opened Words
  import opened Options
  import opened Hstore

  // ---------------------------------------------------------------------------------------------
  // What a write leaves alone
  // ---------------------------------------------------------------------------------------------

  /** Two memories agree on bytes [lo, hi). */
  ghost predicate Agree(m: Data, m': Data, lo: nat, hi: nat) {
    |m| == |m'| && forall k :: lo <= k < hi && k < |m| ==> m[k] == m'[k]
  }

  lemma SameEntries(m: Data, m': Data, ps: seq<Pair>, finished: bool)
    requires EntriesFit(m, ps, finished) && Agree(m, m', HSHRDSIZE, CalcDataSize(|ps|, 0))
    ensures EntriesFit(m', ps, finished)
  {
    forall k | 0 <= k < |ps| ensures PairFits(m', ps, k, finished) {
      assert PairFits(m, ps, k, finished);
      SameWord(m, m', HSHRDSIZE + 4 * (2 * k));
      SameWord(m, m', HSHRDSIZE + 4 * (2 * k + 1));
    }
  }

  lemma SameText(m: Data, m': Data, base: nat, ps: seq<Pair>)
    requires TextFits(m, base, ps) && Agree(m, m', base, base + Total(ps))
    ensures TextFits(m', base, ps)
  {
    assert m'[base..base + Total(ps)] == m[base..base + Total(ps)];
  }

  lemma MoreEntries(m: Data, ps: seq<Pair>, p: Pair)
    requires EntriesFit(m, ps, false) && CalcDataSize(|ps| + 1, 0) <= |m|
    requires Entry(m, 2 * |ps|) == Pack(Total(ps) + |p.key|, false, false)
    requires Entry(m, 2 * |ps| + 1) == Pack(Total(ps) + p.Size(), false, p.value.None?)
    ensures EntriesFit(m, ps + [p], false)
  {
    var qs := ps + [p];
    assert qs[..|ps|] == ps;
    StartOfPrefix(qs, |ps|, |ps|);
    forall k | 0 <= k < |qs| ensures PairFits(m, qs, k, false) {
      if k < |ps| {
        assert PairFits(m, ps, k, false);
        StartOfPrefix(qs, |ps|, k);
        StartOfPrefix(qs, |ps|, k + 1);
      }
    }
  }

  lemma TotalOfMore(ps: seq<Pair>, p: Pair)
    ensures Total(ps + [p]) == Total(ps) + p.Size() && Blob(ps + [p]) == Blob(ps) + p.Flat()
  {
    assert (ps + [p])[..|ps|] == ps;
    StartOfPrefix(ps + [p], |ps|, |ps|);
  }

  lemma MoreText(m: Data, base: nat, ps: seq<Pair>, p: Pair)
    requires TextFits(m, base, ps) && base + Total(ps) + p.Size() <= |m|
    requires m[base + Total(ps)..base + Total(ps) + p.Size()] == p.Flat()
    ensures TextFits(m, base, ps + [p])
  {
    TotalOfMore(ps, p);
    var a, b := base + Total(ps), base + Total(ps) + p.Size();
    assert m[base..b] == m[base..a] + m[a..b];
  }

  // ---------------------------------------------------------------------------------------------
  // The macros
  // ---------------------------------------------------------------------------------------------

  method CopyBytes(mem: array<Byte>, o: nat, src: Data)
    requires o + |src| <= mem.Length
    modifies mem
    ensures mem[o..o + |src|] == src
    ensures forall k :: 0 <= k < mem.Length && !(o <= k < o + |src|) ==> mem[k] == old(mem[k])
  {
    for i := 0 to |src|
      invariant mem[o..o + i] == src[..i]
      invariant forall k :: 0 <= k < mem.Length && !(o <= k < o + |src|) ==> mem[k] == old(mem[k])
    {
      mem[o + i] := src[i];
    }
  }

  /** The state between two additions: entries and text so far, the text starting at base. */
  ghost predicate Building(m: Data, base: nat, ptr: nat, ps: seq<Pair>) {
    && CalcDataSize(|ps|, 0) <= base && ptr == base + Total(ps) <= |m|
    && EntriesFit(m, ps, false) && TextFits(m, base, ps)
  }

  /** HS_ADDITEM: dent counts the entries written so far, ptr is where text goes next. */
  method AddItem(mem: array<Byte>, dent: nat, base: nat, ptr: nat, pair: Pair, ghost ps: seq<Pair>)
    returns (newDent: nat, newPtr: nat)
    requires dent == 2 * |ps| && Building(mem[..], base, ptr, ps)
    requires CalcDataSize(|ps| + 1, 0) <= base && ptr + pair.Size() <= mem.Length
    requires Total(ps) + pair.Size() <= HENTRY_POSMASK
    modifies mem
    ensures newDent == 2 * |ps + [pair]| && Building(mem[..], base, newPtr, ps + [pair])
    ensures forall k :: 0 <= k < HSHRDSIZE ==> mem[k] == old(mem[k])
  {
    hide Entry;
    hide Pack;
    hide EntriesFit;
    hide TextFits;
    ghost var before := mem[..];
    newPtr := PutText(mem, dent, base, ptr, pair.key, false);
    ghost var keyed := mem[..];
    if pair.value.None? {
      newPtr := PutText(mem, dent + 1, base, newPtr, [], true);
    } else {
      newPtr := PutText(mem, dent + 1, base, newPtr, pair.value.value, false);
    }
    newDent := dent + 2;
    ItemAdded(before, keyed, mem[..], base, ptr, pair, ps);
  }

  /** HS_COPYITEM: key and value come in one piece, as they lie in another hstore. */
  method CopyItem(mem: array<Byte>, dent: nat, base: nat, ptr: nat, src: Data, klen: nat, vlen: nat, vnull: bool,
                  ghost ps: seq<Pair>)
    returns (newDent: nat, newPtr: nat)
    requires dent == 2 * |ps| && Building(mem[..], base, ptr, ps)
    requires |src| == klen + vlen && (vnull ==> vlen == 0)
    requires CalcDataSize(|ps| + 1, 0) <= base && ptr + |src| <= mem.Length && Total(ps) + |src| <= HENTRY_POSMASK
    modifies mem
    ensures var pair := Pair(src[..klen], if vnull then None else Some(src[klen..]));
            newDent == 2 * |ps + [pair]| && Building(mem[..], base, newPtr, ps + [pair])
    ensures forall k :: 0 <= k < HSHRDSIZE ==> mem[k] == old(mem[k])
  {
    hide Word;
    hide Entry;
    hide EndPos;
    hide Pack;
    hide EntriesFit;
    hide TextFits;
    ghost var before, pair := mem[..], Pair(src[..klen], if vnull then None else Some(src[klen..]));
    CopyBytes(mem, ptr, src);
    newPtr := ptr + klen + vlen;
    ghost var copied := mem[..];
    PutEntryBelow(mem, dent, base, newPtr - base - vlen, false);
    ghost var keyed := mem[..];
    PutEntryBelow(mem, dent + 1, base, newPtr - base, vnull);
    newDent := dent + 2;
    CopiedParts(copied, keyed, mem[..], src, ptr, klen);
    ItemAdded(before, keyed, mem[..], base, ptr, pair, ps);
  }

  /** The two parts of a piece of text, where later entries left it alone. */
  lemma CopiedParts(copied: Data, keyed: Data, m: Data, src: Data, ptr: nat, klen: nat)
    requires klen <= |src| && ptr + |src| <= |copied| && copied[ptr..ptr + |src|] == src
    requires Agree(copied, keyed, ptr, |copied|) && Agree(keyed, m, ptr, |copied|)
    ensures keyed[ptr..ptr + klen] == src[..klen] && m[ptr + klen..ptr + |src|] == src[klen..]
  {
    TwoParts(copied, src, ptr, klen);
    SameSlice(copied, keyed, ptr, ptr + klen);
    SameSlice(copied, m, ptr + klen, ptr + |src|);
  }

  /** Writes an entry that lies in front of the text. */
  method PutEntryBelow(mem: array<Byte>, k: nat, base: nat, pos: nat, isNull: bool)
    requires HSHRDSIZE + 4 * k + 4 <= base <= mem.Length && pos <= HENTRY_POSMASK
    modifies mem
    ensures Entry(mem[..], k) == Pack(pos, false, isNull)
    ensures forall i | 0 <= i < mem.Length ::
              (HSHRDSIZE + 4 * k <= i < HSHRDSIZE + 4 * k + 4) || mem[i] == old(mem[i])
  {
    PlainEntry(pos);
    PutEntry(mem, k, EndPos(pos) + if isNull then HENTRY_ISNULL else 0);
  }

  lemma SameSlice(m: Data, m': Data, a: nat, b: nat)
    requires Agree(m, m', a, b) && a <= b <= |m|
    ensures m[a..b] == m'[a..b]
  {
  }

  lemma TwoParts(m: Data, src: Data, o: nat, n: nat)
    requires n <= |src| && o + |src| <= |m| && m[o..o + |src|] == src
    ensures m[o..o + n] == src[..n] && m[o + n..o + |src|] == src[n..]
  {
    assert m[o..o + n] == m[o..o + |src|][..n] && m[o + n..o + |src|] == m[o..o + |src|][n..];
  }

  /** Copies a string to ptr and writes its entry. */
  method PutText(mem: array<Byte>, dent: nat, base: nat, ptr: nat, text: Data, isNull: bool) returns (newPtr: nat)
    requires HSHRDSIZE + 4 * dent + 4 <= base <= ptr && ptr + |text| <= mem.Length
    requires ptr + |text| - base <= HENTRY_POSMASK
    modifies mem
    ensures newPtr == ptr + |text| && mem[ptr..newPtr] == text
    ensures Entry(mem[..], dent) == Pack(newPtr - base, false, isNull)
    ensures forall k | 0 <= k < mem.Length ::
              (HSHRDSIZE + 4 * dent <= k < HSHRDSIZE + 4 * dent + 4) || (ptr <= k < ptr + |text|) || mem[k] == old(mem[k])
  {
    CopyBytes(mem, ptr, text);
    newPtr := ptr + |text|;
    ghost var copied := mem[..];
    PutEntryBelow(mem, dent, base, newPtr - base, isNull);
    SameSlice(copied, mem[..], ptr, newPtr);
  }

  lemma ItemAdded(before: Data, keyed: Data, m: Data, base: nat, ptr: nat, p: Pair, ps: seq<Pair>)
    requires Building(before, base, ptr, ps) && CalcDataSize(|ps| + 1, 0) <= base
    requires ptr + p.Size() <= |before| == |keyed| == |m|
    requires Agree(before, keyed, HSHRDSIZE, CalcDataSize(|ps|, 0)) && Agree(keyed, m, HSHRDSIZE, CalcDataSize(|ps|, 0))
    requires Agree(before, keyed, base, ptr) && Agree(keyed, m, base, ptr + |p.key|)
    requires keyed[ptr..ptr + |p.key|] == p.key
    requires p.value.Some? ==> m[ptr + |p.key|..ptr + p.Size()] == p.value.value
    requires Entry(keyed, 2 * |ps|) == Pack(Total(ps) + |p.key|, false, false)
    requires Agree(keyed, m, HSHRDSIZE + 8 * |ps|, HSHRDSIZE + 8 * |ps| + 4)
    requires Entry(m, 2 * |ps| + 1) == Pack(Total(ps) + p.Size(), false, p.value.None?)
    ensures Building(m, base, ptr + p.Size(), ps + [p])
  {
    SameEntries(before, keyed, ps, false);
    SameEntries(keyed, m, ps, false);
    SameWord(keyed, m, HSHRDSIZE + 4 * (2 * |ps|));
    MoreEntries(m, ps, p);
    SameText(before, keyed, base, ps);
    SameText(keyed, m, base, ps);
    var a, b := ptr, ptr + |p.key|;
    assert m[a..b] == keyed[a..b];
    assert m[a..ptr + p.Size()] == m[a..b] + m[b..ptr + p.Size()];
    MoreText(m, base, ps, p);
    TotalOfMore(ps, p);
  }

  /** memmove to a lower address. */
  method MoveDown(mem: array<Byte>, dst: nat, src: nat, n: nat)
    requires dst <= src && src + n <= mem.Length
    modifies mem
    ensures mem[dst..dst + n] == old(mem[src..src + n])
    ensures forall k :: 0 <= k < dst ==> mem[k] == old(mem[k])
  {
    for i := 0 to n
      invariant mem[dst..dst + i] == old(mem[src..src + i])
      invariant forall k :: src + i <= k < mem.Length ==> mem[k] == old(mem[k])
      invariant forall k :: 0 <= k < dst ==> mem[k] == old(mem[k])
    {
      mem[dst + i] := mem[src + i];
    }
  }

  class HStore {
    var varsize: nat
    var mem: array<Byte>

    constructor (size: nat)
      requires HSHRDSIZE <= size
      ensures fresh(mem) && mem.Length == size && varsize == size
    {
      mem := new Byte[size];
      varsize := size;
    }

    /** The copy that detoasting makes. */
    method CopyFrom(other: HStore)
      requires other.mem != mem && other.mem.Length == mem.Length
      modifies this`varsize, mem
      ensures mem[..] == other.mem[..] && varsize == other.varsize
    {
      for i := 0 to mem.Length
        invariant mem[..i] == other.mem[..i]
      {
        mem[i] := other.mem[i];
      }
      varsize := other.varsize;
    }

    /** HS_SETCOUNT. */
    method SetCount(c: nat)
      requires HSHRDSIZE <= mem.Length && c < 0x1000_0000
      modifies mem
      ensures U32(mem[..], 4) == c + HS_FLAG_NEWVERSION && Count(mem[..]) == c
      ensures forall k :: 0 <= k < mem.Length && !(4 <= k < 8) ==> mem[k] == old(mem[k])
    {
      PutU32(mem, 4, c + HS_FLAG_NEWVERSION);
    }

    /** HS_FINALIZE: marks the first entry, moves the text down behind the entries actually used, and sets
        the exact length. */
    method Finalize(count: nat, base: nat, ptr: nat, ghost ps: seq<Pair>)
      requires count == |ps| < 0x1000_0000 && Building(mem[..], base, ptr, ps) && Total(ps) <= HENTRY_POSMASK
      requires HSHRDSIZE <= mem.Length && base == StrPtr(mem[..])
      requires U32(mem[..], 4) == Count(mem[..]) + HS_FLAG_NEWVERSION
      modifies this`varsize, mem
      ensures Encodes(mem[..], ps) && U32(mem[..], 4) == count + HS_FLAG_NEWVERSION
      ensures varsize == CalcDataSize(count, Total(ps))
    {
      hide U32;
      hide Entry;
      hide Pack;
      hide EntriesFit;
      hide TextFits;
      ghost var before := mem[..];
      if count != 0 {
        MarkFirst(ps);
        PutEntry(mem, 0, Entry(mem[..], 0) + HENTRY_ISFIRST);
      }
      FirstMarked(before, mem[..], base, ps);
      SameWord(before, mem[..], 4);
      ghost var marked := mem[..];
      if count != Count(mem[..]) {
        SetCount(count);
        ghost var counted := mem[..];
        MoveDown(mem, CalcDataSize(count, 0), base, ptr - base);
        SameWord(counted, mem[..], 4);
        Moved(marked, mem[..], base, ps);
      }
      varsize := CalcDataSize(count, ptr - base);
    }

    /** HS_FIXSIZE. */
    method FixSize(count: nat)
      requires CalcDataSize(count, 0) <= mem.Length
      modifies this`varsize
      ensures varsize == CalcDataSize(count, if count == 0 then 0 else EndPos(Entry(mem[..], 2 * count - 1)))
    {
      var bl := if count != 0 then EndPos(Entry(mem[..], 2 * count - 1)) else 0;
      varsize := CalcDataSize(count, bl);
    }

    ghost method MarkFirst(ps: seq<Pair>)
      requires ps != [] && EntriesFit(mem[..], ps, false) && Total(ps) <= HENTRY_POSMASK
      ensures Entry(mem[..], 0) == Pack(|ps[0].key|, false, false) && Entry(mem[..], 0) <= HENTRY_POSMASK
    {
      assert PairFits(mem[..], ps, 0, false);
      StartMonotone(ps, 1, |ps|);
      assert Start(ps, 1) == Start(ps, 0) + ps[0].Size();
    }
  }

  lemma FirstMarked(before: Data, m: Data, base: nat, ps: seq<Pair>)
    requires HSHRDSIZE <= |before| == |m| && CalcDataSize(|ps|, 0) <= base
    requires EntriesFit(before, ps, false) && TextFits(before, base, ps)
    requires ps == [] ==> m == before
    requires ps != [] ==> Agree(before, m, 12, |m|) && Entry(m, 0) == Entry(before, 0) + HENTRY_ISFIRST
    ensures EntriesFit(m, ps, true) && TextFits(m, base, ps)
  {
    hide U32;
    hide Start;
    hide TextFits;
    forall k | 0 <= k < |ps| ensures PairFits(m, ps, k, true) {
      assert PairFits(before, ps, k, false);
      if 0 < k { SameWord(before, m, HSHRDSIZE + 4 * (2 * k)); }
      SameWord(before, m, HSHRDSIZE + 4 * (2 * k + 1));
    }
    if ps != [] { SameText(before, m, base, ps); }
  }

  lemma Moved(before: Data, m: Data, base: nat, ps: seq<Pair>)
    requires |before| == |m| && HSHRDSIZE <= |m| && EntriesFit(before, ps, true) && TextFits(before, base, ps)
    requires Agree(before, m, HSHRDSIZE, CalcDataSize(|ps|, 0)) && CalcDataSize(|ps|, 0) <= base
    requires m[CalcDataSize(|ps|, 0)..CalcDataSize(|ps|, 0) + Total(ps)] == before[base..base + Total(ps)]
    ensures EntriesFit(m, ps, true) && TextFits(m, CalcDataSize(|ps|, 0), ps)
  {
    SameEntries(before, m, ps, true);
  }

  /** A value built with room for reserved pairs, of which only these were added. */
  method Build(pairs: seq<Pair>, reserved: nat) returns (out: HStore)
    requires |pairs| <= reserved < 0x1000_0000 && Total(pairs) <= HENTRY_POSMASK
    ensures fresh(out) && fresh(out.mem)
    ensures HSHRDSIZE <= out.mem.Length && Encodes(out.mem[..], pairs)
    ensures U32(out.mem[..], 4) == |pairs| + HS_FLAG_NEWVERSION
    ensures out.varsize == CalcDataSize(|pairs|, Total(pairs)) <= out.mem.Length
    ensures forall i :: 0 <= i < |pairs| ==> ReadsBack(out.mem[..], i, pairs[i])
  {
    hide EntriesFit;
    hide TextFits;
    hide ReadsBack;
    var buflen := SizeOf(pairs);
    out := new HStore(CalcDataSize(reserved, buflen));
    out.SetCount(reserved);
    var base := StrPtr(out.mem[..]);
    var dent, ptr := 0, base;
    ghost var header := out.mem[..HSHRDSIZE];
    NothingBuilt(out.mem[..], base);
    for i := 0 to |pairs|
      invariant fresh(out) && fresh(out.mem) && out.mem.Length == CalcDataSize(reserved, buflen)
      invariant dent == 2 * i && Building(out.mem[..], base, ptr, pairs[..i])
      invariant out.mem[..HSHRDSIZE] == header
    {
      Remaining(pairs, i);
      assert pairs[..i + 1] == pairs[..i] + [pairs[i]];
      ghost var before := out.mem[..];
      dent, ptr := AddItem(out.mem, dent, base, ptr, pairs[i], pairs[..i]);
    }
    assert pairs[..|pairs|] == pairs;
    SameHeader(header, out.mem[..]);
    out.Finalize(|pairs|, base, ptr, pairs);
    forall i | 0 <= i < |pairs| ensures ReadsBack(out.mem[..], i, pairs[i]) {
      EncodedReadsBack(out.mem[..], pairs, i);
    }
  }

  lemma NothingBuilt(m: Data, base: nat)
    requires HSHRDSIZE <= base <= |m|
    ensures Building(m, base, base, [])
  {
  }

  method SizeOf(pairs: seq<Pair>) returns (n: nat)
    ensures n == Total(pairs)
  {
    n := 0;
    for i := 0 to |pairs|
      invariant n == Start(pairs, i)
    {
      n := n + pairs[i].Size();
    }
  }

  lemma Remaining(ps: seq<Pair>, i: nat)
    requires i < |ps|
    ensures Total(ps[..i]) + ps[i].Size() <= Total(ps)
  {
    StartOfPrefix(ps, i, i);
    StartMonotone(ps, i + 1, |ps|);
  }

  lemma SameHeader(header: Data, m: Data)
    requires |header| == HSHRDSIZE <= |m| && m[..HSHRDSIZE] == header
    ensures U32(m, 4) == U32(header, 4)
  {
    forall k | 4 <= k < 8 ensures m[k] == header[k] {
      assert m[..HSHRDSIZE][k] == m[k];
    }
  }
}
