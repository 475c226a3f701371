/** The binary layout of an hstore value (hstore.h): a header, two entries per pair, then all keys and
    values end to end. Words are little-endian; the varlena header is kept apart. */
module Hstore {
  import opened Bytes
  import opened Words
  import opened Options

  /** A key with its value, or with null. */
  datatype Pair = Pair(key: Data, value: Option<Data>) {
    function Size(): nat {
      |key| + if value.None? then 0 else |value.value|
    }
    function Flat(): (d: Data)
      ensures |d| == Size()
    {
      key + if value.None? then [] else value.value
    }
  }

  const HENTRY_ISFIRST := 0x8000_0000
  const HENTRY_ISNULL := 0x4000_0000
  const HENTRY_POSMASK := 0x3FFF_FFFF
  const HS_FLAG_NEWVERSION := 0x8000_0000
  const HSHRDSIZE := 8

  // ---------------------------------------------------------------------------------------------
  // Words
  // ---------------------------------------------------------------------------------------------

  method PutU32(mem: array<Byte>, o: nat, v: nat)
    requires o + 4 <= mem.Length && v < 0x1_0000_0000
    modifies mem
    ensures U32(mem[..], o) == v
    ensures forall k :: 0 <= k < mem.Length && !(o <= k < o + 4) ==> mem[k] == old(mem[k])
  {
    WordOf(v);
    hide Word;
    mem[o], mem[o + 1] := v % 0x100, v / 0x100 % 0x100;
    mem[o + 2], mem[o + 3] := v / 0x1_0000 % 0x100, v / 0x100_0000;
  }

  // ---------------------------------------------------------------------------------------------
  // Entries
  // ---------------------------------------------------------------------------------------------

  /** HSE_ISFIRST, HSE_ISNULL, HSE_ENDPOS. */
  predicate IsFirst(e: nat) {
    e / HENTRY_ISFIRST % 2 == 1
  }
  predicate IsNull(e: nat) {
    e / HENTRY_ISNULL % 2 == 1
  }
  function EndPos(e: nat): nat {
    e % (HENTRY_POSMASK + 1)
  }

  /** The entry with the given end position and flags. */
  function Pack(pos: nat, first: bool, isNull: bool): nat {
    pos + (if first then HENTRY_ISFIRST else 0) + if isNull then HENTRY_ISNULL else 0
  }

  lemma PackParts(pos: nat, first: bool, isNull: bool)
    requires pos <= HENTRY_POSMASK
    ensures var e := Pack(pos, first, isNull);
            IsFirst(e) == first && IsNull(e) == isNull && EndPos(e) == pos && e < 0x1_0000_0000
  {
  }

  /** Entry number k of the array behind the header. */
  function Entry(m: Data, k: nat): nat
    requires HSHRDSIZE + 4 * k + 4 <= |m|
  {
    U32(m, HSHRDSIZE + 4 * k)
  }

  method PutEntry(mem: array<Byte>, k: nat, e: nat)
    requires HSHRDSIZE + 4 * k + 4 <= mem.Length && e < 0x1_0000_0000
    modifies mem
    ensures Entry(mem[..], k) == e
    ensures forall i :: 0 <= i < mem.Length && !(HSHRDSIZE + 4 * k <= i < HSHRDSIZE + 4 * k + 4) ==>
              mem[i] == old(mem[i])
  {
    PutU32(mem, HSHRDSIZE + 4 * k, e);
  }

  /** A masked position is an entry without flags. */
  lemma PlainEntry(pos: nat)
    requires pos <= HENTRY_POSMASK
    ensures EndPos(pos) == pos == Pack(pos, false, false)
    ensures EndPos(pos) + HENTRY_ISNULL == Pack(pos, false, true)
  {
  }

  /** HSE_OFF and HSE_LEN. */
  function Off(m: Data, k: nat): nat
    requires HSHRDSIZE + 4 * k + 4 <= |m|
    requires !IsFirst(Entry(m, k)) ==> 0 < k
  {
    if IsFirst(Entry(m, k)) then 0 else EndPos(Entry(m, k - 1))
  }
  function Len(m: Data, k: nat): int
    requires HSHRDSIZE + 4 * k + 4 <= |m|
    requires !IsFirst(Entry(m, k)) ==> 0 < k
  {
    if IsFirst(Entry(m, k)) then EndPos(Entry(m, k)) else EndPos(Entry(m, k)) - EndPos(Entry(m, k - 1))
  }

  function Count(m: Data): nat
    requires HSHRDSIZE <= |m|
  {
    U32(m, 4) % 0x1000_0000
  }

  function CalcDataSize(count: nat, lenstr: nat): nat {
    HSHRDSIZE + 8 * count + lenstr
  }

  function StrPtr(m: Data): nat
    requires HSHRDSIZE <= |m|
  {
    CalcDataSize(Count(m), 0)
  }

  // ---------------------------------------------------------------------------------------------
  // Lists of pairs laid out end to end
  // ---------------------------------------------------------------------------------------------

  /** Where pair k starts. */
  ghost function Start(ps: seq<Pair>, k: nat): nat
    requires k <= |ps|
  {
    if k == 0 then 0 else Start(ps, k - 1) + ps[k - 1].Size()
  }

  ghost function Total(ps: seq<Pair>): nat {
    Start(ps, |ps|)
  }

  ghost function Blob(ps: seq<Pair>): Data {
    if ps == [] then [] else Blob(ps[..|ps| - 1]) + ps[|ps| - 1].Flat()
  }

  lemma {:induction false} StartOfPrefix(ps: seq<Pair>, n: nat, k: nat)
    requires k <= n <= |ps|
    ensures Start(ps[..n], k) == Start(ps, k)
  {
    if 0 < k { StartOfPrefix(ps, n, k - 1); }
  }

  lemma {:induction false} StartMonotone(ps: seq<Pair>, j: nat, k: nat)
    requires j <= k <= |ps|
    ensures Start(ps, j) <= Start(ps, k)
  {
    if j < k { StartMonotone(ps, j, k - 1); }
  }

  /** Pair k lies in the blob from its start to the next. */
  lemma {:induction false} BlobAt(ps: seq<Pair>, k: nat)
    requires k < |ps|
    ensures |Blob(ps)| == Total(ps)
    ensures Start(ps, k + 1) <= Total(ps)
    ensures Blob(ps)[Start(ps, k)..Start(ps, k + 1)] == ps[k].Flat()
    decreases |ps|
  {
    var init, last := ps[..|ps| - 1], ps[|ps| - 1];
    StartOfPrefix(ps, |init|, |init|);
    BlobLength(init);
    if k < |init| {
      BlobAt(init, k);
      StartOfPrefix(ps, |init|, k);
      StartOfPrefix(ps, |init|, k + 1);
    }
  }

  lemma {:induction false} BlobLength(ps: seq<Pair>)
    ensures |Blob(ps)| == Total(ps)
  {
    if ps != [] {
      BlobLength(ps[..|ps| - 1]);
      StartOfPrefix(ps, |ps| - 1, |ps| - 1);
    }
  }

  /** The entries of pair k; the first entry of all carries a flag once the value is finished. */
  ghost function KeyEntry(ps: seq<Pair>, k: nat, finished: bool): nat
    requires k < |ps|
  {
    Pack(Start(ps, k) + |ps[k].key|, finished && k == 0, false)
  }
  ghost function ValueEntry(ps: seq<Pair>, k: nat): nat
    requires k < |ps|
  {
    Pack(Start(ps, k + 1), false, ps[k].value.None?)
  }

  ghost predicate EntriesFit(m: Data, ps: seq<Pair>, finished: bool) {
    && CalcDataSize(|ps|, 0) <= |m|
    && forall k :: 0 <= k < |ps| ==> PairFits(m, ps, k, finished)
  }

  ghost predicate PairFits(m: Data, ps: seq<Pair>, k: nat, finished: bool)
    requires k < |ps| && CalcDataSize(|ps|, 0) <= |m|
  {
    Entry(m, 2 * k) == KeyEntry(ps, k, finished) && Entry(m, 2 * k + 1) == ValueEntry(ps, k)
  }

  ghost predicate TextFits(m: Data, base: nat, ps: seq<Pair>) {
    base + Total(ps) <= |m| && m[base..base + Total(ps)] == Blob(ps)
  }

  /** A finished value: right count, right entries, text directly behind the entries. */
  ghost predicate Encodes(m: Data, ps: seq<Pair>) {
    && HSHRDSIZE <= |m| && Count(m) == |ps| && Total(ps) <= HENTRY_POSMASK
    && EntriesFit(m, ps, true) && TextFits(m, StrPtr(m), ps)
  }

  // ---------------------------------------------------------------------------------------------
  // Reading back
  // ---------------------------------------------------------------------------------------------

  /** HS_KEY with HS_KEYLEN, HS_VALISNULL, HS_VAL with HS_VALLEN: what they deliver for pair i. */
  ghost predicate Delivers(m: Data, i: nat, p: Pair)
    requires HSHRDSIZE <= |m| && i < Count(m) && StrPtr(m) <= |m|
    requires i == 0 ==> IsFirst(Entry(m, 0))
  {
    && (IsNull(Entry(m, 2 * i + 1)) <==> p.value.None?)
    && Len(m, 2 * i) == |p.key|
    && Slice(m, StrPtr(m) + Off(m, 2 * i), |p.key|) == Some(p.key)
    && (p.value.Some? ==>
          && Len(m, 2 * i + 1) == |p.value.value|
          && Slice(m, StrPtr(m) + Off(m, 2 * i + 1), |p.value.value|) == p.value)
  }

  /** They deliver pair i as the build macros leave it. */
  ghost predicate ReadsBack(m: Data, i: nat, p: Pair)
    requires HSHRDSIZE <= |m| && i < Count(m) && StrPtr(m) <= |m|
  {
    && (IsFirst(Entry(m, 2 * i)) <==> i == 0) && !IsFirst(Entry(m, 2 * i + 1))
    && Delivers(m, i, p) && (p.value.None? ==> Len(m, 2 * i + 1) == 0)
  }

  function Slice(m: Data, o: nat, n: nat): Option<Data> {
    if o + n <= |m| then Some(m[o..o + n]) else None
  }

  /** The flags and positions of the entries of pair i. */
  lemma EntryFacts(m: Data, ps: seq<Pair>, i: nat)
    requires Encodes(m, ps) && i < |ps|
    ensures (IsFirst(Entry(m, 2 * i)) <==> i == 0) && !IsNull(Entry(m, 2 * i))
    ensures EndPos(Entry(m, 2 * i)) == Start(ps, i) + |ps[i].key|
    ensures !IsFirst(Entry(m, 2 * i + 1)) && (IsNull(Entry(m, 2 * i + 1)) <==> ps[i].value.None?)
    ensures EndPos(Entry(m, 2 * i + 1)) == Start(ps, i + 1)
  {
    assert PairFits(m, ps, i, true);
    StartMonotone(ps, i + 1, |ps|);
    PairFacts(ps, i, Entry(m, 2 * i), Entry(m, 2 * i + 1));
  }

  lemma PairFacts(ps: seq<Pair>, i: nat, e1: nat, e2: nat)
    requires i < |ps| && Start(ps, i + 1) <= HENTRY_POSMASK
    requires e1 == KeyEntry(ps, i, true) && e2 == ValueEntry(ps, i)
    ensures (IsFirst(e1) <==> i == 0) && !IsNull(e1) && EndPos(e1) == Start(ps, i) + |ps[i].key|
    ensures !IsFirst(e2) && (IsNull(e2) <==> ps[i].value.None?) && EndPos(e2) == Start(ps, i + 1)
  {
    hide IsFirst;
    hide IsNull;
    hide EndPos;
    hide Pack;
    PackParts(Start(ps, i) + |ps[i].key|, i == 0, false);
    PackParts(Start(ps, i + 1), false, ps[i].value.None?);
  }

  lemma PriorEnd(m: Data, ps: seq<Pair>, i: nat)
    requires Encodes(m, ps) && 0 < i < |ps|
    ensures EndPos(Entry(m, 2 * i - 1)) == Start(ps, i)
  {
    hide EndPos;
    hide Entry;
    EntryFacts(m, ps, i - 1);
  }

  /** A finished value reads back as the list it encodes. */
  lemma EncodedReadsBack(m: Data, ps: seq<Pair>, i: nat)
    requires Encodes(m, ps) && i < |ps|
    ensures ReadsBack(m, i, ps[i])
  {
    hide IsFirst;
    hide IsNull;
    hide EndPos;
    hide Entry;
    hide EntriesFit;
    hide Slice;
    EntryFacts(m, ps, i);
    if 0 < i { PriorEnd(m, ps, i); }
    FlatParts(m, StrPtr(m), ps, i);
  }

  lemma FlatParts(m: Data, base: nat, ps: seq<Pair>, i: nat)
    requires i < |ps| && TextFits(m, base, ps)
    ensures Start(ps, i + 1) <= Total(ps)
    ensures Slice(m, base + Start(ps, i), |ps[i].key|) == Some(ps[i].key)
    ensures ps[i].value.Some? ==>
              Slice(m, base + Start(ps, i) + |ps[i].key|, |ps[i].value.value|) == ps[i].value
  {
    hide Slice;
    BlobAt(ps, i);
    assert Start(ps, i + 1) == Start(ps, i) + ps[i].Size();
    SubSlice(m, base, Total(ps), Start(ps, i), Start(ps, i + 1));
    FlatSplit(m, base + Start(ps, i), ps[i]);
  }

  lemma FlatSplit(m: Data, a: nat, p: Pair)
    requires a + p.Size() <= |m| && m[a..a + p.Size()] == p.Flat()
    ensures Slice(m, a, |p.key|) == Some(p.key)
    ensures p.value.Some? ==> Slice(m, a + |p.key|, |p.value.value|) == p.value
  {
    SubSlice(m, a, p.Size(), 0, |p.key|);
    SubSlice(m, a, p.Size(), |p.key|, p.Size());
  }

  lemma SubSlice(m: Data, o: nat, n: nat, s: nat, e: nat)
    requires o + n <= |m| && s <= e <= n
    ensures m[o..o + n][s..e] == m[o + s..o + e]
  {
    var x, y := m[o..o + n][s..e], m[o + s..o + e];
    assert |x| == |y| && forall k :: 0 <= k < |x| ==> x[k] == m[o + s + k] == y[k];
  }

  /** The structural checks of the new format, and the exact length. */
  ghost predicate WellFormed(m: Data, varsize: nat)
    requires HSHRDSIZE <= |m|
  {
    var count := Count(m);
    && CalcDataSize(count, 0) <= |m|
    && varsize == CalcDataSize(count, if count == 0 then 0 else EndPos(Entry(m, 2 * count - 1)))
    && (0 < count ==> IsFirst(Entry(m, 0)))
    && (forall k :: 1 <= k < 2 * count ==> EntryFollows(m, k))
    && (forall i :: 1 <= i < count ==> KeyFollows(m, i))
  }

  /** Entry k is not a first one and does not end before the entry in front of it. */
  predicate EntryFollows(m: Data, k: nat)
    requires 0 < k && HSHRDSIZE + 4 * k + 4 <= |m|
  {
    !IsFirst(Entry(m, k)) && EndPos(Entry(m, k - 1)) <= EndPos(Entry(m, k))
  }

  /** Key i is not null and not shorter than the key in front of it. */
  predicate KeyFollows(m: Data, i: nat)
    requires 0 < i && HSHRDSIZE + 8 * i + 4 <= |m|
  {
    !IsNull(Entry(m, 2 * i)) && KeyLen(m, i - 1) <= KeyLen(m, i)
  }

  /** HS_KEYLEN. */
  function KeyLen(m: Data, i: nat): int
    requires HSHRDSIZE + 8 * i + 4 <= |m|
  {
    if i == 0 && !IsFirst(Entry(m, 0)) then 0 else Len(m, 2 * i)
  }

  ghost predicate KeysAscend(ps: seq<Pair>) {
    forall i :: 1 <= i < |ps| ==> |ps[i - 1].key| <= |ps[i].key|
  }

  /** An encoded list whose keys do not get shorter passes all checks. */
  lemma EncodedWellFormed(m: Data, ps: seq<Pair>)
    requires Encodes(m, ps) && KeysAscend(ps)
    ensures WellFormed(m, CalcDataSize(|ps|, Total(ps)))
  {
    hide IsFirst;
    hide IsNull;
    hide EndPos;
    hide Entry;
    hide EntryFollows;
    hide KeyFollows;
    forall k | 1 <= k < 2 * |ps| ensures EntryFollows(m, k) {
      EntryFollowsAt(m, ps, k);
    }
    forall i | 1 <= i < |ps| ensures KeyFollows(m, i) {
      KeyFollowsAt(m, ps, i);
    }
    if ps != [] {
      EntryFacts(m, ps, 0);
      EntryFacts(m, ps, |ps| - 1);
    }
  }

  lemma EntryFollowsAt(m: Data, ps: seq<Pair>, k: nat)
    requires Encodes(m, ps) && 1 <= k < 2 * |ps|
    ensures EntryFollows(m, k)
  {
    hide IsFirst;
    hide IsNull;
    hide EndPos;
    hide Entry;
    hide EntriesFit;
    var i := k / 2;
    EntryFacts(m, ps, i);
    if k == 2 * i { PriorEnd(m, ps, i); }
  }

  lemma KeyFollowsAt(m: Data, ps: seq<Pair>, i: nat)
    requires Encodes(m, ps) && 1 <= i < |ps| && |ps[i - 1].key| <= |ps[i].key|
    ensures KeyFollows(m, i)
  {
    hide IsFirst;
    hide IsNull;
    hide EndPos;
    hide Entry;
    hide EntriesFit;
    EntryFacts(m, ps, i);
    EncodedReadsBack(m, ps, i);
    EntryFacts(m, ps, i - 1);
    EncodedReadsBack(m, ps, i - 1);
  }

  // Key "a" with value "b", and key "c" with null, byte by byte.
  const SAMPLE: Data := [0, 0, 0, 0, 2, 0, 0, 0x80, 1, 0, 0, 0x80, 2, 0, 0, 0, 3, 0, 0, 0, 3, 0, 0, 0x40, 97, 98, 99]
  const SAMPLE_PAIRS := [Pair([97], Some([98])), Pair([99], None)]

  lemma SampleWords()
    ensures U32(SAMPLE, 4) == 0x8000_0002
    ensures Entry(SAMPLE, 0) == 0x8000_0001 && Entry(SAMPLE, 1) == 2
    ensures Entry(SAMPLE, 2) == 3 && Entry(SAMPLE, 3) == 0x4000_0003
  {
  }

  lemma SampleStarts()
    ensures Start(SAMPLE_PAIRS, 0) == 0 && Start(SAMPLE_PAIRS, 1) == 2 && Start(SAMPLE_PAIRS, 2) == 3
    ensures Blob(SAMPLE_PAIRS) == [97, 98, 99]
  {
    assert SAMPLE_PAIRS[..1] == [Pair([97], Some([98]))];
    assert Blob(SAMPLE_PAIRS[..1]) == [97, 98] by { assert SAMPLE_PAIRS[..1][..0] == []; }
  }

  /** These bytes are the image of that list. */
  lemma SampleEncoded()
    ensures Encodes(SAMPLE, SAMPLE_PAIRS) && U32(SAMPLE, 4) == |SAMPLE_PAIRS| + HS_FLAG_NEWVERSION
    ensures ReadsBack(SAMPLE, 0, SAMPLE_PAIRS[0]) && ReadsBack(SAMPLE, 1, SAMPLE_PAIRS[1])
  {
    SampleWords();
    SampleStarts();
    hide U32;
    hide Entry;
    hide Start;
    hide Blob;
    hide ReadsBack;
    assert PairFits(SAMPLE, SAMPLE_PAIRS, 0, true) && PairFits(SAMPLE, SAMPLE_PAIRS, 1, true);
    assert SAMPLE[24..27] == [97, 98, 99];
    EncodedReadsBack(SAMPLE, SAMPLE_PAIRS, 0);
    EncodedReadsBack(SAMPLE, SAMPLE_PAIRS, 1);
  }
}
