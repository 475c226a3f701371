/** Reading hstore values of the old format (hstore_compat.cpp): validity checks for both formats, and the
    rewrite of an old value over its own bytes. */
module HstoreUpgrade {
  import opened Bytes
  import opened Words
  import opened Options
  import opened Hstore
  import opened HstoreBuild

  // ---------------------------------------------------------------------------------------------
  // The old format
  // ---------------------------------------------------------------------------------------------

  // An old entry fills the same two words as the two new ones: key and value length, then the null bit
  // below the position.

  function OldKeyLen(m: Data, i: nat): nat
    requires CalcDataSize(i + 1, 0) <= |m|
  {
    Entry(m, 2 * i) % 0x1_0000
  }
  function OldValLen(m: Data, i: nat): nat
    requires CalcDataSize(i + 1, 0) <= |m|
  {
    Entry(m, 2 * i) / 0x1_0000
  }
  predicate OldIsNull(m: Data, i: nat)
    requires CalcDataSize(i + 1, 0) <= |m|
  {
    Entry(m, 2 * i + 1) % 2 == 1
  }
  function OldPos(m: Data, i: nat): nat
    requires CalcDataSize(i + 1, 0) <= |m|
  {
    Entry(m, 2 * i + 1) / 2
  }

  /** Bytes that pair i takes; the value length of a null does not count. */
  function OldSize(m: Data, i: nat): nat
    requires CalcDataSize(i + 1, 0) <= |m|
  {
    OldKeyLen(m, i) + if OldIsNull(m, i) then 0 else OldValLen(m, i)
  }

  function OldStart(m: Data, n: nat): nat
    requires CalcDataSize(n, 0) <= |m|
  {
    if n == 0 then 0 else OldStart(m, n - 1) + OldSize(m, n - 1)
  }

  /** Keys do not get shorter, and all pairs are contiguous. */
  ghost predicate OldLayout(m: Data, n: nat)
    requires CalcDataSize(n, 0) <= |m|
  {
    && (forall i :: 1 <= i < n ==> OldKeyLen(m, i - 1) <= OldKeyLen(m, i))
    && (forall i :: 0 <= i < n ==> OldPos(m, i) == OldStart(m, i))
  }

  ghost predicate OldOk(m: Data, varsize: nat)
    requires HSHRDSIZE <= |m| && varsize <= |m|
  {
    var n := U32(m, 4);
    && n <= 0xFFF_FFFF && CalcDataSize(n, 0) <= varsize
    && OldLayout(m, n) && CalcDataSize(n, OldStart(m, n)) <= varsize
  }

  /** The pairs an old value holds. */
  ghost function OldPair(m: Data, base: nat, i: nat): Pair
    requires CalcDataSize(i + 1, 0) <= |m| && base + OldPos(m, i) + OldSize(m, i) <= |m|
  {
    var key := base + OldPos(m, i);
    var value := key + OldKeyLen(m, i);
    Pair(m[key..value], if OldIsNull(m, i) then None else Some(m[value..value + OldValLen(m, i)]))
  }

  ghost function OldPairs(m: Data, base: nat, n: nat): (ps: seq<Pair>)
    requires CalcDataSize(n, 0) <= |m| && OldLayout(m, n) && base + OldStart(m, n) <= |m|
    ensures |ps| == n
  {
    if n == 0 then [] else OldPairs(m, base, n - 1) + [OldPair(m, base, n - 1)]
  }

  lemma {:induction false} OldPairsAt(m: Data, base: nat, n: nat, i: nat)
    requires CalcDataSize(n, 0) <= |m| && OldLayout(m, n) && base + OldStart(m, n) <= |m| && i < n
    ensures OldStart(m, i + 1) <= OldStart(m, n)
    ensures OldPairs(m, base, n)[i] == OldPair(m, base, i)
  {
    hide OldKeyLen;
    hide OldValLen;
    hide OldIsNull;
    hide OldPos;
    if i < n - 1 { OldPairsAt(m, base, n - 1, i); }
  }

  /** Their starts and their text are those of the old value. */
  lemma {:induction false} OldPairsText(m: Data, base: nat, n: nat)
    requires CalcDataSize(n, 0) <= |m| && OldLayout(m, n) && base + OldStart(m, n) <= |m|
    ensures Total(OldPairs(m, base, n)) == OldStart(m, n)
    ensures TextFits(m, base, OldPairs(m, base, n))
  {
    hide OldKeyLen;
    hide OldValLen;
    hide OldIsNull;
    hide OldPos;
    hide OldSize;
    hide OldPair;
    hide TextFits;
    if n == 0 {
      NoText(m, base);
    } else {
      OldPairsText(m, base, n - 1);
      var init, p := OldPairs(m, base, n - 1), OldPair(m, base, n - 1);
      OldPairFlat(m, base, n - 1);
      MoreText(m, base, init, p);
      TotalOfMore(init, p);
    }
  }

  lemma NoText(m: Data, base: nat)
    requires base <= |m|
    ensures Total([]) == 0 && TextFits(m, base, [])
  {
  }

  lemma OldPairFlat(m: Data, base: nat, i: nat)
    requires CalcDataSize(i + 1, 0) <= |m| && base + OldPos(m, i) + OldSize(m, i) <= |m|
    ensures var p, a := OldPair(m, base, i), base + OldPos(m, i);
            p.Size() == OldSize(m, i) && m[a..a + OldSize(m, i)] == p.Flat()
  {
    hide OldKeyLen;
    hide OldValLen;
    hide OldIsNull;
    hide OldPos;
  }

  lemma {:induction false} OldPairsStart(m: Data, base: nat, n: nat, k: nat)
    requires CalcDataSize(n, 0) <= |m| && OldLayout(m, n) && base + OldStart(m, n) <= |m| && k <= n
    ensures OldStart(m, k) <= OldStart(m, n)
    ensures Start(OldPairs(m, base, n), k) == OldStart(m, k)
  {
    hide OldKeyLen;
    hide OldValLen;
    hide OldIsNull;
    hide OldPos;
    if 0 < k {
      OldPairsAt(m, base, n, k - 1);
      OldPairsStart(m, base, n, k - 1);
    }
  }

  // ---------------------------------------------------------------------------------------------
  // Validity checks
  // ---------------------------------------------------------------------------------------------

  /** hstoreValidOldFormat: 0 not valid, 1 valid with slop behind, 2 exactly valid. */
  method ValidOldFormat(mem: array<Byte>, varsize: nat) returns (r: int)
    requires HSHRDSIZE <= varsize <= mem.Length
    ensures 0 <= r <= 2
    ensures HS_FLAG_NEWVERSION <= U32(mem[..], 4) ==> r == 0
    ensures U32(mem[..], 4) < HS_FLAG_NEWVERSION ==> (r != 0 <==> OldOk(mem[..], varsize))
    ensures r == 2 ==> U32(mem[..], 4) == 0
                       || varsize == CalcDataSize(U32(mem[..], 4), OldStart(mem[..], U32(mem[..], 4)))
    ensures r == 1 ==> CalcDataSize(U32(mem[..], 4), OldStart(mem[..], U32(mem[..], 4))) < varsize
  {
    hide OldKeyLen;
    hide OldValLen;
    hide OldIsNull;
    hide OldPos;
    var m := mem[..];
    var count := U32(m, 4);
    if count >= HS_FLAG_NEWVERSION { return 0; }
    if count == 0 { return 2; }
    if count > 0xFFF_FFFF { return 0; }
    if CalcDataSize(count, 0) > varsize { return 0; }
    assert OldPos(m, 0) != 0 ==> OldPos(m, 0) != OldStart(m, 0);
    if OldPos(m, 0) != 0 { return 0; }
    var ok := KeysGrow(m, count);
    if !ok { return 0; }
    var lastpos;
    ok, lastpos := Contiguous(m, count);
    if !ok { return 0; }
    var vsize := CalcDataSize(count, lastpos);
    if vsize > varsize { return 0; }
    if vsize != varsize { return 1; }
    return 2;
  }

  method KeysGrow(m: Data, count: nat) returns (ok: bool)
    requires CalcDataSize(count, 0) <= |m|
    ensures ok <==> forall i :: 1 <= i < count ==> OldKeyLen(m, i - 1) <= OldKeyLen(m, i)
  {
    hide OldKeyLen;
    if count == 0 { return true; }
    for i := 1 to count
      invariant forall k :: 1 <= k < i ==> OldKeyLen(m, k - 1) <= OldKeyLen(m, k)
    {
      if OldKeyLen(m, i) < OldKeyLen(m, i - 1) { return false; }
    }
    return true;
  }

  method Contiguous(m: Data, count: nat) returns (ok: bool, lastpos: nat)
    requires CalcDataSize(count, 0) <= |m|
    ensures ok <==> forall i :: 0 <= i < count ==> OldPos(m, i) == OldStart(m, i)
    ensures ok ==> lastpos == OldStart(m, count)
  {
    hide OldKeyLen;
    hide OldValLen;
    hide OldIsNull;
    hide OldPos;
    lastpos := 0;
    for i := 0 to count
      invariant lastpos == OldStart(m, i)
      invariant forall k :: 0 <= k < i ==> OldPos(m, k) == OldStart(m, k)
    {
      if OldPos(m, i) != lastpos { return false, lastpos; }
      lastpos := lastpos + OldKeyLen(m, i) + if OldIsNull(m, i) then 0 else OldValLen(m, i);
    }
    return true, lastpos;
  }

  /** The entries of a value in the new format, flag or no flag. */
  ghost predicate NewLayout(m: Data)
    requires HSHRDSIZE <= |m| && CalcDataSize(Count(m), 0) <= |m|
  {
    && (0 < Count(m) ==> IsFirst(Entry(m, 0)))
    && (forall k :: 1 <= k < 2 * Count(m) ==> EntryFollows(m, k))
    && (forall i :: 1 <= i < Count(m) ==> KeyFollows(m, i))
  }

  function NewSize(m: Data): nat
    requires HSHRDSIZE <= |m| && CalcDataSize(Count(m), 0) <= |m|
  {
    CalcDataSize(Count(m), if Count(m) == 0 then 0 else EndPos(Entry(m, 2 * Count(m) - 1)))
  }

  ghost predicate NewOk(m: Data, varsize: nat)
    requires HSHRDSIZE <= |m| && CalcDataSize(Count(m), 0) <= |m|
  {
    Count(m) == 0 || (NewLayout(m) && NewSize(m) <= varsize)
  }

  /** The answer of a check: how valid, or that it read beyond the memory of the value. */
  datatype Verdict = Validity(level: int) | ReadBeyond

  /** hstoreValidNewFormat: 0 not valid, 1 valid with slop behind, 2 exactly valid or flagged as new. The last
      entry is read before anything is checked. */
  method ValidNewFormat(mem: array<Byte>, varsize: nat) returns (r: Verdict)
    requires HSHRDSIZE <= mem.Length
    ensures r == ReadBeyond <==> mem.Length < CalcDataSize(Count(mem[..]), 0)
    ensures r != ReadBeyond ==>
            && 0 <= r.level <= 2
            && (HS_FLAG_NEWVERSION <= U32(mem[..], 4) ==> r.level == 2)
            && (U32(mem[..], 4) < HS_FLAG_NEWVERSION ==> (r.level != 0 <==> NewOk(mem[..], varsize)))
            && (U32(mem[..], 4) < HS_FLAG_NEWVERSION && r.level == 2 ==>
                  Count(mem[..]) == 0 || varsize == NewSize(mem[..]))
            && (r.level == 1 ==> NewSize(mem[..]) < varsize)
  {
    hide Entry;
    hide IsFirst;
    hide EndPos;
    hide EntryFollows;
    hide KeyFollows;
    var m := mem[..];
    var count := Count(m);
    if |m| < CalcDataSize(count, 0) { return ReadBeyond; }
    var buflen := if count != 0 then EndPos(Entry(m, 2 * count - 1)) else 0;
    var vsize := CalcDataSize(count, buflen);
    if U32(m, 4) >= HS_FLAG_NEWVERSION { return Validity(2); }
    if count == 0 { return Validity(2); }
    if !IsFirst(Entry(m, 0)) { return Validity(0); }
    if vsize > varsize { return Validity(0); }
    var ok := EntriesFollow(m, count);
    if !ok { return Validity(0); }
    ok := KeysFollow(m, count);
    if !ok { return Validity(0); }
    if vsize != varsize { return Validity(1); }
    return Validity(2);
  }

  method EntriesFollow(m: Data, count: nat) returns (ok: bool)
    requires 0 < count && CalcDataSize(count, 0) <= |m|
    ensures ok <==> forall k :: 1 <= k < 2 * count ==> EntryFollows(m, k)
  {
    hide Entry;
    hide IsFirst;
    hide EndPos;
    for i := 1 to 2 * count
      invariant forall k :: 1 <= k < i ==> EntryFollows(m, k)
    {
      if IsFirst(Entry(m, i)) || EndPos(Entry(m, i)) < EndPos(Entry(m, i - 1)) {
        assert !EntryFollows(m, i);
        return false;
      }
    }
    return true;
  }

  method KeysFollow(m: Data, count: nat) returns (ok: bool)
    requires 0 < count && CalcDataSize(count, 0) <= |m|
    requires IsFirst(Entry(m, 0)) && forall k :: 1 <= k < 2 * count ==> EntryFollows(m, k)
    ensures ok <==> forall i :: 1 <= i < count ==> KeyFollows(m, i)
  {
    hide Entry;
    hide IsFirst;
    hide IsNull;
    hide KeyLen;
    for i := 1 to count
      invariant forall k :: 1 <= k < i ==> KeyFollows(m, k)
    {
      if KeyLen(m, i) < KeyLen(m, i - 1) || IsNull(Entry(m, 2 * i)) {
        assert !KeyFollows(m, i);
        return false;
      }
    }
    return true;
  }

  /** What passing the checks means: the first entry alone is marked as such, no string has a negative length
      or ends beyond the value, and no key is shorter than the one in front of it; none but the first can be
      marked as null. */
  ghost predicate Readable(m: Data, varsize: nat)
    requires HSHRDSIZE <= |m| && CalcDataSize(Count(m), 0) <= |m|
  {
    && (forall k :: 0 <= k < 2 * Count(m) ==>
          && (IsFirst(Entry(m, k)) <==> k == 0)
          && 0 <= Len(m, k) && StrPtr(m) + Off(m, k) + Len(m, k) <= varsize)
    && (forall i :: 1 <= i < Count(m) ==> !IsNull(Entry(m, 2 * i)) && Len(m, 2 * (i - 1)) <= Len(m, 2 * i))
  }

  lemma NewOkIff(m: Data, varsize: nat)
    requires HSHRDSIZE <= |m| && CalcDataSize(Count(m), 0) <= |m|
    ensures NewOk(m, varsize) <==> Count(m) == 0 || Readable(m, varsize)
    ensures 0 < Count(m) && Readable(m, varsize) ==>
              NewSize(m) == StrPtr(m) + Off(m, 2 * Count(m) - 1) + Len(m, 2 * Count(m) - 1)
  {
    hide Entry;
    hide IsFirst;
    hide IsNull;
    hide EndPos;
    var n := Count(m);
    if 0 < n && NewOk(m, varsize) {
      forall k | 0 <= k < 2 * n
        ensures IsFirst(Entry(m, k)) <==> k == 0
        ensures 0 <= Len(m, k) && StrPtr(m) + Off(m, k) + Len(m, k) <= varsize
      {
        if 0 < k { assert EntryFollows(m, k); }
        EndsGrow(m, k, 2 * n - 1);
      }
      forall i | 1 <= i < n ensures !IsNull(Entry(m, 2 * i)) && Len(m, 2 * (i - 1)) <= Len(m, 2 * i) {
        assert KeyFollows(m, i);
      }
    }
    if 0 < n && Readable(m, varsize) {
      forall k | 1 <= k < 2 * n ensures EntryFollows(m, k) {
        assert 0 <= Len(m, k);
      }
      forall i | 1 <= i < n ensures KeyFollows(m, i) {
        assert Len(m, 2 * (i - 1)) <= Len(m, 2 * i);
      }
      var last := 2 * n - 1;
      assert Off(m, last) + Len(m, last) == EndPos(Entry(m, last));
    }
  }

  // One pair, key "a" marked as null, with an empty value.
  const NULL_KEY: Data := [0, 0, 0, 0, 1, 0, 0, 0, 1, 0, 0, 0xC0, 1, 0, 0, 0, 97]

  lemma NullKeyWords()
    ensures U32(NULL_KEY, 4) == 1 && Entry(NULL_KEY, 0) == 0xC000_0001 && Entry(NULL_KEY, 1) == 1
  {
  }

  lemma NullKeyBits()
    ensures IsFirst(0xC000_0001) && IsNull(0xC000_0001) && EndPos(0xC000_0001) == 1
    ensures !IsFirst(1) && EndPos(1) == 1
  {
  }

  /** The first key may be marked as null: these bytes pass with exact length. */
  lemma NullKeyPasses()
    ensures NewOk(NULL_KEY, |NULL_KEY|) && Count(NULL_KEY) == 1 && NewSize(NULL_KEY) == |NULL_KEY|
    ensures IsNull(Entry(NULL_KEY, 0))
  {
    hide U32;
    hide Entry;
    hide IsFirst;
    hide IsNull;
    hide EndPos;
    hide KeyFollows;
    NullKeyWords();
    NullKeyBits();
  }

  lemma {:induction false} EndsGrow(m: Data, j: nat, k: nat)
    requires j <= k && HSHRDSIZE + 4 * k + 4 <= |m| && forall i :: j < i <= k ==> EntryFollows(m, i)
    ensures EndPos(Entry(m, j)) <= EndPos(Entry(m, k))
    decreases k
  {
    hide Entry;
    hide IsFirst;
    hide EndPos;
    if j < k {
      assert EntryFollows(m, k);
      EndsGrow(m, j, k - 1);
    }
  }

  /** A value that passes reads as a list of pairs with keys that do not get shorter. */
  lemma NewOkDecodes(m: Data, varsize: nat) returns (ps: seq<Pair>)
    requires HSHRDSIZE <= varsize <= |m| && CalcDataSize(Count(m), 0) <= |m|
    requires 0 < Count(m) && NewOk(m, varsize)
    ensures IsFirst(Entry(m, 0)) && |ps| == Count(m) && KeysAscend(ps)
    ensures forall i :: 0 <= i < |ps| ==> Delivers(m, i, ps[i])
  {
    hide IsFirst;
    hide Readable;
    hide Delivers;
    hide NewOk;
    NewOkIff(m, varsize);
    ps := FirstPairs(m, varsize, Count(m));
    forall i | 1 <= i < |ps| ensures |ps[i - 1].key| <= |ps[i].key| {
      KeysGrowAt(m, varsize, i, ps[i - 1], ps[i]);
    }
  }

  lemma InValue(m: Data, varsize: nat, k: nat)
    requires HSHRDSIZE <= |m| && CalcDataSize(Count(m), 0) <= |m| && Readable(m, varsize) && k < 2 * Count(m)
    ensures (IsFirst(Entry(m, k)) <==> k == 0) && IsFirst(Entry(m, 0))
    ensures 0 <= Len(m, k) && StrPtr(m) + Off(m, k) + Len(m, k) <= varsize
  {
    assert IsFirst(Entry(m, 0)) <==> 0 == 0;
  }

  lemma KeysGrowAt(m: Data, varsize: nat, i: nat, p: Pair, q: Pair)
    requires HSHRDSIZE <= |m| && CalcDataSize(Count(m), 0) <= |m| && Readable(m, varsize) && 1 <= i < Count(m)
    requires IsFirst(Entry(m, 0)) && Delivers(m, i - 1, p) && Delivers(m, i, q)
    ensures |p.key| <= |q.key|
  {
    hide IsFirst;
    hide IsNull;
    hide Slice;
    hide Off;
    hide Len;
    InValue(m, varsize, 2 * (i - 1));
    assert Len(m, 2 * (i - 1)) <= Len(m, 2 * i);
  }

  lemma {:induction false} FirstPairs(m: Data, varsize: nat, n: nat) returns (ps: seq<Pair>)
    requires HSHRDSIZE <= varsize <= |m| && CalcDataSize(Count(m), 0) <= |m|
    requires n <= Count(m) && 0 < Count(m) && Readable(m, varsize)
    ensures IsFirst(Entry(m, 0)) && |ps| == n && forall i :: 0 <= i < n ==> Delivers(m, i, ps[i])
  {
    hide IsFirst;
    hide Readable;
    hide Delivers;
    InValue(m, varsize, 0);
    if n == 0 {
      ps := [];
    } else {
      ps := FirstPairs(m, varsize, n - 1);
      var p := OnePair(m, varsize, n - 1);
      ps := ps + [p];
    }
  }

  lemma OnePair(m: Data, varsize: nat, i: nat) returns (p: Pair)
    requires HSHRDSIZE <= varsize <= |m| && CalcDataSize(Count(m), 0) <= |m|
    requires i < Count(m) && Readable(m, varsize)
    ensures IsFirst(Entry(m, 0)) && Delivers(m, i, p)
  {
    hide Entry;
    hide IsFirst;
    hide IsNull;
    hide Readable;
    hide StrPtr;
    hide Count;
    hide Off;
    hide Len;
    var k, v := 2 * i, 2 * i + 1;
    InValue(m, varsize, k);
    InValue(m, varsize, v);
    p := Pair(Slice(m, StrPtr(m) + Off(m, k), Len(m, k)).value,
              if IsNull(Entry(m, v)) then None else Slice(m, StrPtr(m) + Off(m, v), Len(m, v)));
  }

  // ---------------------------------------------------------------------------------------------
  // The rewrite in place
  // ---------------------------------------------------------------------------------------------

  /** Halfway through: pairs below i are new, the others still old. */
  ghost predicate Halfway(was: Data, m: Data, ps: seq<Pair>, i: nat) {
    && |m| == |was| && CalcDataSize(|ps|, 0) <= |m| && i <= |ps|
    && (forall k :: 0 <= k < i ==> PairFits(m, ps, k, false))
    && Agree(was, m, HSHRDSIZE + 8 * i, |m|) && Agree(was, m, 0, HSHRDSIZE)
  }

  lemma RewroteOne(was: Data, before: Data, m: Data, ps: seq<Pair>, i: nat)
    requires Halfway(was, before, ps, i) && i < |ps| && |m| == |before|
    requires Agree(before, m, 0, HSHRDSIZE + 8 * i) && Agree(before, m, HSHRDSIZE + 8 * (i + 1), |m|)
    requires PairFits(m, ps, i, false)
    ensures Halfway(was, m, ps, i + 1)
  {
    forall k | 0 <= k < i + 1 ensures PairFits(m, ps, k, false) {
      if k < i {
        assert PairFits(before, ps, k, false);
        SameWord(before, m, HSHRDSIZE + 4 * (2 * k));
        SameWord(before, m, HSHRDSIZE + 4 * (2 * k + 1));
      }
    }
  }

  lemma SameOldSlot(was: Data, m: Data, i: nat)
    requires CalcDataSize(i + 1, 0) <= |was| && Agree(was, m, CalcDataSize(i, 0), CalcDataSize(i + 1, 0))
    ensures OldPos(m, i) == OldPos(was, i) && OldKeyLen(m, i) == OldKeyLen(was, i)
    ensures OldSize(m, i) == OldSize(was, i) && OldIsNull(m, i) == OldIsNull(was, i)
  {
    SameWord(was, m, HSHRDSIZE + 4 * (2 * i));
    SameWord(was, m, HSHRDSIZE + 4 * (2 * i + 1));
  }

  /** What slot i must become, in terms of what it was. */
  lemma NewFromOld(was: Data, base: nat, n: nat, i: nat)
    requires CalcDataSize(n, 0) <= |was| && OldLayout(was, n) && base + OldStart(was, n) <= |was| && i < n
    ensures OldPos(was, i) + OldSize(was, i) <= OldStart(was, n)
    ensures var ps := OldPairs(was, base, n);
            && KeyEntry(ps, i, false) == Pack(OldPos(was, i) + OldKeyLen(was, i), false, false)
            && ValueEntry(ps, i) == Pack(OldPos(was, i) + OldSize(was, i), false, OldIsNull(was, i))
  {
    hide OldKeyLen;
    hide OldValLen;
    hide OldIsNull;
    hide OldPos;
    hide Pack;
    OldPairsAt(was, base, n, i);
    OldPairsStart(was, base, n, i);
    OldPairsStart(was, base, n, i + 1);
  }

  /** The loop of hstoreUpgrade. Each slot is read from memory that has not been written yet. */
  method Rewrite(mem: array<Byte>, count: nat, ghost was: Data, ghost ps: seq<Pair>)
    requires mem[..] == was && CalcDataSize(count, 0) <= |was| && OldLayout(was, count)
    requires CalcDataSize(count, OldStart(was, count)) <= |was|
    requires ps == OldPairs(was, CalcDataSize(count, 0), count) && OldStart(was, count) <= HENTRY_POSMASK
    modifies mem
    ensures Halfway(was, mem[..], ps, count)
  {
    hide Entry;
    hide Pack;
    hide OldKeyLen;
    hide OldSize;
    hide OldIsNull;
    hide OldPos;
    for i := 0 to count
      invariant Halfway(was, mem[..], ps, i)
    {
      ghost var before := mem[..];
      SameOldSlot(was, before, i);
      NewFromOld(was, CalcDataSize(count, 0), count, i);
      RewriteSlot(mem, i);
      RewroteOne(was, before, mem[..], ps, i);
    }
  }

  /** One turn of that loop. */
  method RewriteSlot(mem: array<Byte>, i: nat)
    requires CalcDataSize(i + 1, 0) <= mem.Length
    requires OldPos(mem[..], i) + OldSize(mem[..], i) <= HENTRY_POSMASK
    modifies mem
    ensures Entry(mem[..], 2 * i) == old(Pack(OldPos(mem[..], i) + OldKeyLen(mem[..], i), false, false))
    ensures Entry(mem[..], 2 * i + 1)
         == old(Pack(OldPos(mem[..], i) + OldSize(mem[..], i), false, OldIsNull(mem[..], i)))
    ensures forall k | 0 <= k < mem.Length :: (HSHRDSIZE + 8 * i <= k < HSHRDSIZE + 8 * (i + 1)) || mem[k] == old(mem[k])
  {
    hide Word;
    hide EndPos;
    hide Pack;
    hide OldPos;
    hide OldKeyLen;
    hide OldValLen;
    hide OldIsNull;
    var m := mem[..];
    var pos := OldPos(m, i);
    var keylen := OldKeyLen(m, i);
    var vallen := OldValLen(m, i);
    var isNull := OldIsNull(m, i);
    if isNull {
      vallen := 0;
    }
    PlainEntry(pos + keylen);
    PlainEntry(pos + keylen + vallen);
    PutEntry(mem, 2 * i, EndPos(pos + keylen));
    ghost var half := mem[..];
    PutEntry(mem, 2 * i + 1, EndPos(pos + keylen + vallen) + if isNull then HENTRY_ISNULL else 0);
    SameWord(half, mem[..], HSHRDSIZE + 4 * (2 * i));
  }

  // ---------------------------------------------------------------------------------------------
  // hstoreUpgrade
  // ---------------------------------------------------------------------------------------------

  /** A finished new value with its flag and exact length, holding the given pairs. */
  ghost predicate Finished(m: Data, varsize: nat, ps: seq<Pair>) {
    && HSHRDSIZE <= |m| && Encodes(m, ps) && U32(m, 4) == |ps| + HS_FLAG_NEWVERSION
    && varsize == CalcDataSize(|ps|, Total(ps))
  }

  /** The pairs of a valid old value. */
  ghost function PairsOf(m: Data, varsize: nat): seq<Pair>
    requires HSHRDSIZE <= |m| && varsize <= |m| && OldOk(m, varsize)
  {
    OldPairs(m, CalcDataSize(U32(m, 4), 0), U32(m, 4))
  }

  /** The tail of hstoreUpgrade: turns an old value into a new one over the same bytes. */
  method Convert(hs: HStore)
    requires HSHRDSIZE <= hs.mem.Length && hs.varsize <= hs.mem.Length && hs.varsize <= HENTRY_POSMASK
    requires OldOk(hs.mem[..], hs.varsize)
    modifies hs`varsize, hs.mem
    ensures Finished(hs.mem[..], hs.varsize, old(PairsOf(hs.mem[..], hs.varsize)))
    ensures Agree(old(hs.mem[..]), hs.mem[..], CalcDataSize(old(U32(hs.mem[..], 4)), 0), hs.mem.Length)
  {
    hide OldLayout;
    hide OldStart;
    hide EntriesFit;
    hide TextFits;
    hide Entry;
    ghost var was, ps := hs.mem[..], PairsOf(hs.mem[..], hs.varsize);
    var count := U32(hs.mem[..], 4);
    OldPairsText(was, CalcDataSize(count, 0), count);
    Rewrite(hs.mem, count, was, ps);
    RewroteAll(was, hs.mem[..], ps);
    Finish(hs, count, ps);
  }

  /** Marks the first entry, sets the flag and the exact length. */
  method Finish(hs: HStore, count: nat, ghost ps: seq<Pair>)
    requires count == |ps| < 0x1000_0000 && CalcDataSize(count, 0) <= hs.mem.Length
    requires EntriesFit(hs.mem[..], ps, false)
    requires TextFits(hs.mem[..], CalcDataSize(count, 0), ps) && Total(ps) <= HENTRY_POSMASK
    modifies hs`varsize, hs.mem
    ensures Finished(hs.mem[..], hs.varsize, ps)
    ensures Agree(old(hs.mem[..]), hs.mem[..], CalcDataSize(count, 0), hs.mem.Length)
  {
    hide EntriesFit;
    hide TextFits;
    hide Entry;
    hide Pack;
    ghost var base, rewritten := CalcDataSize(count, 0), hs.mem[..];
    if count != 0 {
      hs.MarkFirst(ps);
      PutEntry(hs.mem, 0, Entry(hs.mem[..], 0) + HENTRY_ISFIRST);
    }
    FirstMarked(rewritten, hs.mem[..], base, ps);
    ghost var marked := hs.mem[..];
    hs.SetCount(count);
    SameEntries(marked, hs.mem[..], ps, true);
    SameText(marked, hs.mem[..], base, ps);
    hs.FixSize(count);
    if count != 0 { EntryFacts(hs.mem[..], ps, count - 1); }
  }

  lemma RewroteAll(was: Data, m: Data, ps: seq<Pair>)
    requires Halfway(was, m, ps, |ps|) && TextFits(was, CalcDataSize(|ps|, 0), ps)
    ensures EntriesFit(m, ps, false) && TextFits(m, CalcDataSize(|ps|, 0), ps)
  {
    SameText(was, m, CalcDataSize(|ps|, 0), ps);
  }

  /** No conversion is looked into: flagged as new, empty, or short and starting like a new value. */
  predicate PassesThrough(m: Data, varsize: nat)
    requires HSHRDSIZE <= |m|
  {
    || U32(m, 4) >= HS_FLAG_NEWVERSION || U32(m, 4) == 0
    || (varsize < 32768 && HSHRDSIZE + 4 <= |m| && IsFirst(Entry(m, 0)))
  }

  /** The header announces entries beyond the memory of the value, and the source reads one of them. */
  predicate ReadsBeyond(m: Data, varsize: nat)
    requires HSHRDSIZE <= |m|
  {
    !PassesThrough(m, varsize) && (|m| < HSHRDSIZE + 4 || |m| < CalcDataSize(Count(m), 0))
  }

  /** What becomes of a value: it is returned, an error is raised because it is valid in neither format, or
      memory beyond it is read, after which anything may happen. */
  datatype Outcome = Value(hs: HStore) | Invalid | Undefined

  /** hstoreUpgrade. writable says that hs is the caller's own copy; otherwise an old value is copied first. */
  method Upgrade(hs: HStore, writable: bool) returns (r: Outcome)
    requires HSHRDSIZE <= hs.varsize <= hs.mem.Length && hs.varsize <= HENTRY_POSMASK
    modifies hs`varsize, hs.mem
    ensures var m, v := old(hs.mem[..]), old(hs.varsize);
            if PassesThrough(m, v) then r == Value(hs) && hs.mem[..] == m && hs.varsize == v
            else if ReadsBeyond(m, v) then r == Undefined
            else if OldOk(m, v) then
              && r.Value? && Finished(r.hs.mem[..], r.hs.varsize, PairsOf(m, v))
              && Agree(m, r.hs.mem[..], CalcDataSize(U32(m, 4), 0), |m|)
              && (if writable then r == Value(hs) else fresh(r.hs) && hs.mem[..] == m && hs.varsize == v)
            else if NewOk(m, v) then
              && r == Value(hs) && Agree(m, hs.mem[..], HSHRDSIZE, |m|)
              && (if writable then U32(hs.mem[..], 4) == Count(m) + HS_FLAG_NEWVERSION && hs.varsize == NewSize(m)
                  else hs.mem[..] == m && hs.varsize == v)
            else r == Invalid && hs.mem[..] == m && hs.varsize == v
    ensures hs.mem == old(hs.mem)
  {
    hide OldOk;
    hide NewOk;
    hide Finished;
    hide Entry;
    hide IsFirst;
    ghost var m, v := hs.mem[..], hs.varsize;
    if PassesThrough(hs.mem[..], hs.varsize) {
      return Value(hs);
    }
    if hs.mem.Length < HSHRDSIZE + 4 {
      return Undefined;
    }
    var validNew := ValidNewFormat(hs.mem, hs.varsize);
    if validNew == ReadBeyond {
      return Undefined;
    }
    var validOld := ValidOldFormat(hs.mem, hs.varsize);
    if validOld == 0 {
      if validNew.level != 0 {
        if writable {
          var count := Count(hs.mem[..]);
          hs.SetCount(count);
          SameNewSize(m, hs.mem[..]);
          hs.FixSize(count);
        }
        return Value(hs);
      }
      return Invalid;
    }
    var own := hs;
    if !writable {
      own := new HStore(hs.mem.Length);
      own.CopyFrom(hs);
      assert own.mem[..] == m;
    }
    Convert(own);
    return Value(own);
  }

  lemma SameNewSize(m: Data, m': Data)
    requires HSHRDSIZE <= |m| && CalcDataSize(Count(m), 0) <= |m|
    requires Agree(m, m', HSHRDSIZE, |m|) && Count(m) == Count(m')
    ensures NewSize(m) == NewSize(m')
  {
    hide Count;
    hide U32;
    hide EndPos;
    var c := Count(m);
    if c != 0 { SameWord(m, m', HSHRDSIZE + 4 * (2 * c - 1)); }
  }

  /** The image of a list in the old format, in a value of the given size: its length and keys in order, for
      every pair an entry with its lengths and its start, and all text behind the entries. */
  ghost predicate OldEncodes(m: Data, varsize: nat, ps: seq<Pair>) {
    && CalcDataSize(|ps|, Total(ps)) <= varsize <= |m| && U32(m, 4) == |ps| <= 0xFFF_FFFF
    && KeysAscend(ps) && TextFits(m, CalcDataSize(|ps|, 0), ps)
    && forall i :: 0 <= i < |ps| ==> OldFits(m, ps, i)
  }

  ghost predicate OldFits(m: Data, ps: seq<Pair>, i: nat)
    requires i < |ps| && CalcDataSize(|ps|, 0) <= |m|
  {
    && OldKeyLen(m, i) == |ps[i].key| && OldPos(m, i) == Start(ps, i)
    && (OldIsNull(m, i) <==> ps[i].value.None?)
    && (ps[i].value.Some? ==> OldValLen(m, i) == |ps[i].value.value|)
  }

  /** A value is valid in the old format exactly if it is the image of some list, and then of its pairs. */
  lemma OldOkIff(m: Data, varsize: nat)
    requires HSHRDSIZE <= varsize <= |m|
    ensures OldOk(m, varsize) <==> exists ps :: OldEncodes(m, varsize, ps)
    ensures OldOk(m, varsize) ==> OldEncodes(m, varsize, PairsOf(m, varsize))
  {
    if OldOk(m, varsize) { PairsAreEncoded(m, varsize); }
    if ps :| OldEncodes(m, varsize, ps) { EncodedIsOld(m, varsize, ps); }
  }

  lemma PairsAreEncoded(m: Data, varsize: nat)
    requires HSHRDSIZE <= varsize <= |m| && OldOk(m, varsize)
    ensures OldEncodes(m, varsize, PairsOf(m, varsize))
  {
    hide OldKeyLen;
    hide OldValLen;
    hide OldIsNull;
    hide OldPos;
    hide TextFits;
    hide KeysAscend;
    var ps, n := PairsOf(m, varsize), U32(m, 4);
    var base := CalcDataSize(n, 0);
    OldPairsText(m, base, n);
    OldKeysGrow(m, base, n);
    forall i | 0 <= i < n ensures OldFits(m, ps, i) {
      OldPairsAt(m, base, n, i);
      OldPairsStart(m, base, n, i);
    }
  }

  lemma EncodedIsOld(m: Data, varsize: nat, ps: seq<Pair>)
    requires HSHRDSIZE <= varsize <= |m| && OldEncodes(m, varsize, ps)
    ensures OldOk(m, varsize)
  {
    hide OldKeyLen;
    hide OldValLen;
    hide OldIsNull;
    hide OldPos;
    hide TextFits;
    var n := |ps|;
    EncodedStart(m, ps, n);
    forall i | 0 <= i < n ensures OldPos(m, i) == OldStart(m, i) {
      assert OldFits(m, ps, i);
      EncodedStart(m, ps, i);
    }
    forall i | 1 <= i < n ensures OldKeyLen(m, i - 1) <= OldKeyLen(m, i) {
      assert OldFits(m, ps, i - 1) && OldFits(m, ps, i);
    }
  }

  lemma {:induction false} EncodedStart(m: Data, ps: seq<Pair>, k: nat)
    requires k <= |ps| && CalcDataSize(|ps|, 0) <= |m| && forall i :: 0 <= i < |ps| ==> OldFits(m, ps, i)
    ensures OldStart(m, k) == Start(ps, k)
  {
    hide OldKeyLen;
    hide OldValLen;
    hide OldIsNull;
    hide OldPos;
    if 0 < k {
      EncodedStart(m, ps, k - 1);
      assert OldFits(m, ps, k - 1);
    }
  }

  /** A finished value is never looked into again. */
  lemma FinishedPassesThrough(m: Data, varsize: nat, ps: seq<Pair>, size: nat)
    requires Finished(m, varsize, ps)
    ensures PassesThrough(m, size)
  {
  }

  /** A converted value reads back as the pairs of the old one, and passes every check of the new format. */
  lemma ConvertedReadsBack(was: Data, varsize: nat, m: Data, newSize: nat)
    requires HSHRDSIZE <= |was| && varsize <= |was| && OldOk(was, varsize)
    requires Finished(m, newSize, PairsOf(was, varsize))
    ensures forall i :: 0 <= i < U32(was, 4) ==> ReadsBack(m, i, PairsOf(was, varsize)[i])
    ensures WellFormed(m, newSize)
  {
    hide OldKeyLen;
    hide OldLayout;
    hide OldStart;
    hide EntriesFit;
    hide ReadsBack;
    hide WellFormed;
    hide KeysAscend;
    var ps := PairsOf(was, varsize);
    forall i | 0 <= i < |ps| ensures ReadsBack(m, i, ps[i]) {
      EncodedReadsBack(m, ps, i);
    }
    OldKeysGrow(was, CalcDataSize(|ps|, 0), |ps|);
    EncodedWellFormed(m, ps);
  }

  lemma OldKeysGrow(m: Data, base: nat, n: nat)
    requires CalcDataSize(n, 0) <= |m| && OldLayout(m, n) && base + OldStart(m, n) <= |m|
    ensures KeysAscend(OldPairs(m, base, n))
  {
    hide OldKeyLen;
    var ps := OldPairs(m, base, n);
    forall i | 1 <= i < n ensures |ps[i - 1].key| <= |ps[i].key| {
      OldKeys(m, base, n, i - 1);
      OldKeys(m, base, n, i);
    }
  }

  lemma OldKeys(m: Data, base: nat, n: nat, i: nat)
    requires CalcDataSize(n, 0) <= |m| && OldLayout(m, n) && base + OldStart(m, n) <= |m| && i < n
    ensures |OldPairs(m, base, n)[i].key| == OldKeyLen(m, i)
  {
    OldPairsAt(m, base, n, i);
  }

  /** No valid old value makes the source read beyond its memory. */
  lemma OldStaysInside(m: Data, varsize: nat)
    requires HSHRDSIZE <= varsize <= |m| && OldOk(m, varsize)
    ensures !ReadsBeyond(m, varsize)
  {
    hide OldLayout;
    hide OldStart;
    hide Word;
  }

  /** A valid old value passes through unconverted exactly if it is short and its first value length has its
      top bit set. Then the first value is null, and to a reader of the new format it is not: the key seems
      longer by the low bits of that length, and the length of the value comes out as one less that of the
      key, negative as soon as the key has two bytes. */
  lemma OldPassesThroughIff(m: Data, varsize: nat)
    requires HSHRDSIZE <= varsize <= |m| && 0 < U32(m, 4) && OldOk(m, varsize)
    ensures PassesThrough(m, varsize) <==> varsize < 32768 && 32768 <= OldValLen(m, 0)
    ensures PassesThrough(m, varsize) ==>
            && OldIsNull(m, 0) && !IsNull(Entry(m, 1)) && IsFirst(Entry(m, 0)) && !IsFirst(Entry(m, 1))
            && Len(m, 0) == OldKeyLen(m, 0) + 0x1_0000 * (OldValLen(m, 0) % 0x4000)
            && Len(m, 1) == 1 - Len(m, 0)
  {
    hide OldStart;
    hide IsFirst;
    hide IsNull;
    hide EndPos;
    hide Word;
    WordBound(m, HSHRDSIZE);
    FirstBit(Entry(m, 0));
    if PassesThrough(m, varsize) {
      OldStartCovers(m, U32(m, 4));
      FirstStart(m);
      assert OldPos(m, 0) == OldStart(m, 0);
      assert Entry(m, 1) == 1;
      NullMark();
      PosBits(Entry(m, 0));
    }
  }

  lemma FirstStart(m: Data)
    requires HSHRDSIZE <= |m|
    ensures OldStart(m, 0) == 0
  {
  }

  lemma WordBound(m: Data, o: nat)
    requires o + 4 <= |m|
    ensures U32(m, o) < 0x1_0000_0000
  {
  }

  /** The null bit of the old format is not that of the new one: it counts as an end position. */
  lemma NullMark()
    ensures !IsNull(1) && !IsFirst(1) && EndPos(1) == 1
  {
  }

  /** The end position of the new format in terms of the two lengths of the old one. */
  lemma PosBits(e: nat)
    ensures EndPos(e) == e % 0x1_0000 + 0x1_0000 * (e / 0x1_0000 % 0x4000)
  {
    var h := e / 0x1_0000;
    assert e == e % 0x1_0000 + 0x1_0000 * (h % 0x4000) + 0x4000_0000 * (h / 0x4000);
  }

  // One pair, key "a" and null, with a stale value length of 32768.
  const STALE: Data := [0, 0, 0, 0, 1, 0, 0, 0, 1, 0, 0, 0x80, 1, 0, 0, 0, 97]

  lemma StaleWords()
    ensures U32(STALE, 4) == 1 && Entry(STALE, 0) == 0x8000_0001 && Entry(STALE, 1) == 1
  {
  }

  /** The old format reads key "a" and null. */
  lemma StaleIsOld()
    ensures OldOk(STALE, |STALE|) && PairsOf(STALE, |STALE|) == [Pair([97], None)]
  {
    StaleWords();
    hide U32;
    hide Entry;
    var m := STALE;
    assert OldKeyLen(m, 0) == 1 && OldIsNull(m, 0) && OldPos(m, 0) == 0;
    hide OldKeyLen;
    hide OldIsNull;
    hide OldPos;
    assert OldStart(m, 0) == 0 && OldStart(m, 1) == 1;
    assert m[16..17] == [97];
    assert OldPairs(m, 16, 0) == [];
  }

  /** Such values exist: this one is exactly valid in the old format, is not converted, and its null is then
      read as an empty string. */
  lemma StaleLengthMisread()
    ensures OldOk(STALE, |STALE|) && PairsOf(STALE, |STALE|) == [Pair([97], None)]
    ensures PassesThrough(STALE, |STALE|)
    ensures Count(STALE) == 1 && ReadsBack(STALE, 0, Pair([97], Some([])))
  {
    StaleIsOld();
    StaleWords();
    hide U32;
    hide Entry;
    hide OldOk;
    hide PairsOf;
    assert IsFirst(0x8000_0001) && EndPos(0x8000_0001) == 1 && !IsFirst(1) && !IsNull(1) && EndPos(1) == 1;
    hide IsFirst;
    hide IsNull;
    hide EndPos;
    assert STALE[16..17] == [97] && STALE[17..17] == [];
  }

  lemma FirstBit(e: nat)
    requires e < 0x1_0000_0000
    ensures IsFirst(e) <==> 32768 <= e / 0x1_0000
  {
  }

  lemma {:induction false} OldStartCovers(m: Data, n: nat)
    requires 0 < n && CalcDataSize(n, 0) <= |m|
    ensures OldSize(m, 0) <= OldStart(m, n)
  {
    if 1 < n { OldStartCovers(m, n - 1); }
  }
}
