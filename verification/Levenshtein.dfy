/** levenshtein.cpp, both compilations: two rows of the notional matrix, filled and swapped; the
    bounded one keeps only the columns that can still matter. */
module Levenshtein {
  import opened Bytes
  import opened BandedRun
  import opened EditDistance
  import opened Multibyte

  const MAX_LEVENSHTEIN_STRLEN := 255

  datatype Outcome = Result(distance: int) | TooLong

  /** The bytes of s and t, how they split into characters, and the cached lengths; no cache means
      that all characters of both strings are single bytes. */
  datatype Strings = Strings(mblen: CharLength, s: seq<Byte>, t: seq<Byte>, lengths: seq<nat>) {
    ghost predicate Spell(p: Problem) {
      && WellEncoded(mblen, s) && p.s == Chars(mblen, s)
      && WellEncoded(mblen, t) && p.t == Chars(mblen, t)
      && if lengths == [] then |p.s| == |s| && |p.t| == |t|
         else |lengths| == |p.s| + 1 && forall k :: 0 <= k < |p.s| ==> lengths[k] == |p.s[k]|
    }

    /** Are the character of s at byte x, number i, and the character of t at byte y, number j, equal?
        Lengths and last bytes are compared before the rest. */
    method SameChar(x: nat, i: nat, y: nat, yLength: nat, ghost j: nat, ghost p: Problem) returns (same: bool)
      requires Spell(p) && i < |p.s| && x == Offset(p.s, i)
      requires j < |p.t| && y == Offset(p.t, j) && yLength == |p.t[j]|
      ensures same <==> p.s[i] == p.t[j]
    {
      CharAt(mblen, s, i);
      CharAt(mblen, t, j);
      if lengths != [] {
        var xLength := lengths[i];
        assert p.s[i][xLength - 1] == s[x + xLength - 1] && p.t[j][yLength - 1] == t[y + yLength - 1];
        same := s[x + xLength - 1] == t[y + yLength - 1] && xLength == yLength;
        if same && xLength != 1 {
          same := RestOfCharSame(s, x, t, y, xLength);
        }
      } else {
        SingleBytes(mblen, s, i);
        SingleBytes(mblen, t, j);
        same := s[x] == t[y];
      }
    }

    /** Length of the character of t at byte y, number j. */
    method TargetLength(y: nat, ghost j: nat, n: nat, ghost p: Problem) returns (length: nat)
      requires Spell(p) && j < |p.t| == n && y == Offset(p.t, j)
      ensures length == |p.t[j]| && y + length == Offset(p.t, j + 1)
    {
      CharAt(mblen, t, j);
      if n == |t| { SingleBytes(mblen, t, j); }
      length := if n != |t| then mblen(t[y..]) else 1;
    }

    /** How far the pointer into s moves past character number i. */
    method Advance(i: nat, ghost p: Problem) returns (step: nat)
      requires Spell(p) && i < |p.s|
      ensures step == |p.s[i]|
    {
      if lengths != [] {
        step := lengths[i];
      } else {
        SingleBytes(mblen, s, i);
        step := 1;
      }
    }
  }

  /** The inner loop: columns [first, stop) of row j from row j - 1. */
  method FillRow(prev: array<Slot>, curr: array<Slot>, text: Strings, ins: int, del: int, sub: int,
                 first: nat, stop: nat, sData: nat, y: nat, yLength: nat, ghost p: Problem, ghost j: nat)
    requires prev != curr && prev.Length == curr.Length == |p.s| + 1
    requires text.Spell(p) && Charges(p, ins, del, sub)
    requires 0 < j <= |p.t| && y == Offset(p.t, j - 1) && yLength == |p.t[j - 1]|
    requires 0 < first <= stop <= |p.s| + 1 && sData == Offset(p.s, first - 1)
    requires Filled(prev[..], stop) && Filled(curr[..], first)
    modifies curr
    ensures curr[..] == Fill(p, prev[..], old(curr[..]), first, stop, j)
  {
    hide Strings.Spell;
    hide Chars;
    var i, x := first, sData;
    while i < stop
      invariant first <= i <= stop && x == Offset(p.s, i - 1)
      invariant Filled(curr[..], i)
      invariant Fill(p, prev[..], curr[..], i, stop, j) == Fill(p, prev[..], old(curr[..]), first, stop, j)
    {
      ghost var before := curr[..];
      assert prev[..][i] == prev[i] && prev[..][i - 1] == prev[i - 1] && before[i - 1] == curr[i - 1];
      var above := prev[i].value + ins;
      var left := curr[i - 1].value + del;
      var same := text.SameChar(x, i - 1, y, yLength, j - 1, p);
      var corner := if same then prev[i - 1].value else prev[i - 1].value + sub;
      curr[i] := Written(Min(Min(above, left), corner));
      assert curr[..] == before[i := Written(Entry(p, prev[..], before[i - 1], i, j))];
      var step := text.Advance(i - 1, p);
      x := x + step;
      i := i + 1;
    }
  }

  /** levenshtein_internal without its length cap: the whole matrix, two rows at a time. */
  method FullDistance(mblen: CharLength, s: seq<Byte>, t: seq<Byte>, ins: int, del: int, sub: int)
    returns (d: int)
    requires WellEncoded(mblen, s) && WellEncoded(mblen, t)
    ensures d == Problem(Chars(mblen, s), Chars(mblen, t), ins, del, sub).Distance()
    ensures IsLeastCost(Problem(Chars(mblen, s), Chars(mblen, t), ins, del, sub), d)
  {
    var m, n := |Chars(mblen, s)|, |Chars(mblen, t)|;
    ghost var p := Problem(Chars(mblen, s), Chars(mblen, t), ins, del, sub);
    DistanceIsLeastCost(p);
    EdgeCell(p, m);
    EdgeCell(p, n);
    if m == 0 { return n * ins; }
    if n == 0 { return m * del; }
    d := RunFull(mblen, s, t, ins, del, sub, p);
  }

  /** The outer loop of the unbounded compilation. */
  method RunFull(mblen: CharLength, s: seq<Byte>, t: seq<Byte>, ins: int, del: int, sub: int, ghost p: Problem)
    returns (d: int)
    requires WellEncoded(mblen, s) && WellEncoded(mblen, t) && s != [] && t != []
    requires p == Problem(Chars(mblen, s), Chars(mblen, t), ins, del, sub)
    ensures d == p.Distance()
  {
    var m, n := |Chars(mblen, s)|, |Chars(mblen, t)|;
    hide Problem.Live;
    hide Stands;
    var text := Prepare(mblen, s, t, p);
    var prev, curr := FirstRow(m, m + 1, del, p);
    FirstBandDone(p, -1, m + 1);
    var j, y := 1, 0;
    while j < n + 1
      invariant 1 <= j <= n + 1 && y == Offset(p.t, j - 1)
      invariant prev != curr && fresh(prev) && fresh(curr) && curr.Length == m + 1
      invariant Holds(p, -1, prev[..], m + 1, j - 1)
    {
      var yLength := text.TargetLength(y, j - 1, n, p);
      EdgeStands(p, -1, j);
      curr[0] := Written(j * ins);
      FillHolds(p, -1, prev[..], curr[..], 1, m + 1, j, m + 1);
      FillRow(prev, curr, text, ins, del, sub, 1, m + 1, 0, y, yLength, p, j);
      prev, curr := curr, prev;
      y := y + yLength;
      j := j + 1;
    }
    UnboundedRow(p, prev[..]);
    assert prev[..][m] == prev[m];
    return prev[m].value;
  }

  lemma UnboundedRow(p: Problem, row: seq<Slot>)
    requires Holds(p, -1, row, |p.s| + 1, |p.t|)
    ensures row[|p.s|] == Written(p.Distance())
  {
  }

  /** Caches the character lengths of s unless both strings are single-byte throughout. */
  method Prepare(mblen: CharLength, s: seq<Byte>, t: seq<Byte>, ghost p: Problem) returns (text: Strings)
    requires WellEncoded(mblen, s) && WellEncoded(mblen, t) && p.s == Chars(mblen, s) && p.t == Chars(mblen, t)
    ensures text.mblen == mblen && text.s == s && text.t == t && text.Spell(p)
  {
    if |Chars(mblen, s)| != |s| || |Chars(mblen, t)| != |t| {
      var lengths := CacheLengths(mblen, s);
      text := Strings(mblen, s, t, lengths);
    } else {
      text := Strings(mblen, s, t, []);
    }
  }

  /** Allocates both rows and fills the first stop columns of the first: deletions only. */
  method FirstRow(m: nat, stop: nat, del: int, ghost p: Problem) returns (prev: array<Slot>, curr: array<Slot>)
    requires m == |p.s| && 0 < stop <= m + 1 && 0 < p.NetInserts(stop, 0) && del == p.del
    ensures prev != curr && fresh(prev) && fresh(curr)
    ensures Band(prev[..], curr[..], 0, stop) == FirstBand(p, stop)
  {
    prev := new Slot[m + 1](_ => Unwritten);
    curr := new Slot[m + 1](_ => Unwritten);
    for i := 0 to stop
      invariant prev != curr && fresh(prev) && fresh(curr) && prev.Length == curr.Length == m + 1
      invariant forall c :: 0 <= c <= m ==> prev[c] == if c < i then Written(c * del) else Unwritten
      invariant forall c :: 0 <= c <= m ==> curr[c] == Unwritten
    {
      prev[i] := Written(i * del);
    }
  }

  /** Slides the stop column left past entries that fail the test. */
  method SlideStop(prev: array<Slot>, stop: nat, zeroPoint: int, ins: int, del: int, maxD: int,
                   ghost p: Problem, ghost j: nat)
    returns (newStop: nat)
    requires p.ins == ins && p.del == del && zeroPoint == j - (|p.t| - |p.s|) && Filled(prev[..], stop)
    ensures newStop == LastPass(p, maxD, prev[..], stop, j)
  {
    newStop := stop;
    while 0 < newStop
      invariant newStop <= stop
      invariant LastPass(p, maxD, prev[..], newStop, j) == LastPass(p, maxD, prev[..], stop, j)
    {
      var ii := newStop - 1;
      var net := ii - zeroPoint;
      assert prev[..][ii] == prev[ii] && net == p.NetInserts(ii, j);
      if prev[ii].value + (if net > 0 then net * ins else -net * del) <= maxD {
        break;
      }
      newStop := newStop - 1;
    }
  }

  /** Measured from the zero point, the residual is what the pruning test adds. */
  lemma PassTest(p: Problem, c: nat, j: nat)
    ensures var net := c - (j - (|p.t| - |p.s|));
            p.Residual(c, j) == if net > 0 then net * p.ins else -net * p.del
  {
  }

  /** Slides the start column right past entries that fail the test, spoiling them in both rows and
      moving the pointer into s along. */
  method SlideStart(prev: array<Slot>, curr: array<Slot>, start: nat, stop: nat, sData: nat, zeroPoint: int,
                    text: Strings, ins: int, del: int, maxD: int, ghost p: Problem, ghost j: nat)
    returns (newStart: nat, newData: nat)
    requires p.ins == ins && p.del == del && text.Spell(p) && zeroPoint == j - (|p.t| - |p.s|)
    requires prev != curr && prev.Length == curr.Length == |p.s| + 1 && start <= |p.s|
    requires Filled(prev[..], stop) && sData == Offset(p.s, if start == 0 then 0 else start - 1)
    modifies prev, curr
    ensures newStart == FirstPass(p, maxD, old(prev[..]), start, stop, j)
    ensures prev[..] == Spoilt(old(prev[..]), start, newStart, maxD)
    ensures curr[..] == Spoilt(old(curr[..]), start, newStart, maxD)
    ensures newStart < stop ==> newData == Offset(p.s, if newStart == 0 then 0 else newStart - 1)
  {
    hide Strings.Spell;
    hide Problem.Residual;
    newStart, newData := start, sData;
    while newStart < stop
      invariant start <= newStart <= |p.s| + 1 && (newStart == start || newStart <= stop)
      invariant newData == Offset(p.s, if newStart == 0 then 0 else newStart - 1)
      invariant FirstPass(p, maxD, old(prev[..]), newStart, stop, j) == FirstPass(p, maxD, old(prev[..]), start, stop, j)
      invariant prev[..] == Spoilt(old(prev[..]), start, newStart, maxD)
      invariant curr[..] == Spoilt(old(curr[..]), start, newStart, maxD)
    {
      var net := newStart - zeroPoint;
      assert old(prev[..])[newStart] == prev[..][newStart] == prev[newStart];
      PassTest(p, newStart, j);
      if prev[newStart].value + (if net > 0 then net * ins else -net * del) <= maxD {
        break;
      }
      prev[newStart] := Written(maxD + 1);
      curr[newStart] := Written(maxD + 1);
      if newStart != 0 {
        var step := text.Advance(newStart - 1, p);
        newData := newData + step;
      }
      newStart := newStart + 1;
    }
  }

  /** One turn of the outer loop of the bounded compilation. The finished row ends up in curr, as the
      caller is about to swap; crossed says that the two ends of the band met. */
  method NextRow(prev: array<Slot>, curr: array<Slot>, start: nat, stop: nat, sData: nat, j: nat, y: nat,
                 yLength: nat, text: Strings, ins: int, del: int, sub: int, maxD: int, m: nat, n: nat,
                 ghost p: Problem)
    returns (newStart: nat, newStop: nat, newData: nat, crossed: bool)
    requires text.Spell(p) && Charges(p, ins, del, sub) && m == |p.s| && n == |p.t| && prev != curr
    requires 0 < j <= n && y == Offset(p.t, j - 1) && yLength == |p.t[j - 1]|
    requires Band(prev[..], curr[..], start, stop).Ready(p, j - 1)
    requires sData == Offset(p.s, if start == 0 then 0 else start - 1)
    modifies prev, curr
    ensures Band(curr[..], prev[..], newStart, newStop)
         == Turn(p, maxD, Band(old(prev[..]), old(curr[..]), start, stop), j)
    ensures crossed <==> 0 <= maxD && newStart >= newStop
    ensures !crossed ==> newStart <= m && newData == Offset(p.s, if newStart == 0 then 0 else newStart - 1)
  {
    var first;
    newStop, first := OpenRow(prev, curr, start, stop, j, ins, maxD, m, p);
    FillRow(prev, curr, text, ins, del, sub, first, newStop, sData, y, yLength, p, j);
    newStart, newData, crossed := start, sData, false;
    if 0 <= maxD {
      newStop := SlideStop(curr, newStop, j - (n - m), ins, del, maxD, p, j);
      newStart, newData :=
        SlideStart(curr, prev, start, newStop, sData, j - (n - m), text, ins, del, maxD, p, j);
      crossed := newStart >= newStop;
    }
  }

  /** Makes room for one more column on the right and sets the left edge of row j. */
  method OpenRow(prev: array<Slot>, curr: array<Slot>, start: nat, stop: nat, j: nat, ins: int, maxD: int,
                 m: nat, ghost p: Problem)
    returns (newStop: nat, first: nat)
    requires p.ins == ins && m == |p.s| && prev != curr
    requires 0 < j <= |p.t| && Band(prev[..], curr[..], start, stop).Ready(p, j - 1)
    modifies prev, curr
    ensures Band(prev[..], curr[..], start, newStop)
         == Opened(p, maxD, Band(old(prev[..]), old(curr[..]), start, stop), j)
    ensures first == FirstColumn(start)
  {
    newStop, first := stop, start;
    if newStop < m + 1 {
      prev[newStop] := Written(maxD + 1);
      newStop := newStop + 1;
    }
    if start == 0 {
      curr[0] := Written(j * ins);
      first := 1;
    }
  }

  /** The shortcuts on lengths and charges alone. */
  method Shortcuts(m: nat, n: nat, ins: int, del: int, sub: int, maxD: int, ghost p: Problem) returns (r: Setup)
    requires m == |p.s| && n == |p.t| && Charges(p, ins, del, sub)
    ensures r == SetUp(p, maxD)
  {
    if maxD < 0 {
      return Run(sub, maxD, m + 1);
    }
    var netInserts := n - m;
    var minTheoD := if netInserts < 0 then -netInserts * del else netInserts * ins;
    assert minTheoD == p.Residual(0, 0);
    hide Problem.Residual;
    hide FirstStop;
    if minTheoD > maxD {
      return Decided(maxD + 1);
    }
    var subC := if ins + del < sub then ins + del else sub;
    var maxTheoD := minTheoD + subC * Min(m, n);
    if maxD >= maxTheoD {
      return Run(subC, -1, m + 1);
    }
    var stop := m + 1;
    if ins + del > 0 {
      stop := InitialStop(m, netInserts, ins + del, maxD - minTheoD, maxD, p);
    }
    return Run(subC, maxD, stop);
  }

  /** The initial stop column. */
  method InitialStop(m: nat, netInserts: int, step: int, slackD: nat, ghost maxD: int, ghost p: Problem)
    returns (stop: nat)
    requires m == |p.s| && netInserts == |p.t| - |p.s| && step == p.ins + p.del > 0
    requires slackD == maxD - p.Residual(0, 0)
    ensures stop == FirstStop(p, maxD)
  {
    hide Problem.Residual;
    var bestColumn := if netInserts < 0 then -netInserts else 0;
    stop := bestColumn + slackD / step + 1;
    if stop > m {
      stop := m + 1;
    }
  }

  /** levenshtein_less_equal_internal without its length cap. */
  method BandedDistance(mblen: CharLength, s: seq<Byte>, t: seq<Byte>, ins: int, del: int, sub: int, maxD: int)
    returns (d: int)
    requires WellEncoded(mblen, s) && WellEncoded(mblen, t)
    ensures var p := Problem(Chars(mblen, s), Chars(mblen, t), ins, del, sub);
            && d == Banded(p, maxD)
            && (s == [] || t == [] ==> d == p.Distance())
            && (s != [] && t != [] && (maxD < 0 || Safe(ins, del, sub)) ==> d == Capped(p, maxD))
  {
    var m, n := |Chars(mblen, s)|, |Chars(mblen, t)|;
    ghost var p := Problem(Chars(mblen, s), Chars(mblen, t), ins, del, sub);
    EdgeCell(p, m);
    EdgeCell(p, n);
    if m == 0 { return n * ins; }
    if n == 0 { return m * del; }
    if maxD < 0 || Safe(ins, del, sub) { BandedExact(p, maxD); }
    var setup := Shortcuts(m, n, ins, del, sub, maxD, p);
    if setup.Decided? { return setup.distance; }
    d := RunBand(mblen, s, t, ins, del, setup.sub, setup.maxD, setup.stop, p.(sub := setup.sub));
  }

  /** The outer loop of the bounded compilation. */
  method RunBand(mblen: CharLength, s: seq<Byte>, t: seq<Byte>, ins: int, del: int, sub: int, maxD: int,
                 stopColumn: nat, ghost p: Problem)
    returns (d: int)
    requires WellEncoded(mblen, s) && WellEncoded(mblen, t)
    requires p == Problem(Chars(mblen, s), Chars(mblen, t), ins, del, sub)
    requires 0 < stopColumn <= |p.s| + 1 && 0 < p.NetInserts(stopColumn, 0)
    ensures d == Rest(p, maxD, FirstBand(p, stopColumn), 1)
  {
    hide Turn;
    hide FirstBand;
    hide Strings.Spell;
    hide Chars;
    hide WellEncoded;
    hide Rest;
    hide Band.Ready;
    var m, n := |Chars(mblen, s)|, |Chars(mblen, t)|;
    var text := Prepare(mblen, s, t, p);
    var prev, curr := FirstRow(m, stopColumn, del, p);
    var start: nat, stop: nat, sData, j, y := 0, stopColumn, 0, 1, 0;
    ghost var band := FirstBand(p, stopColumn);
    while j < n + 1
      invariant 1 <= j <= n + 1 && y == Offset(p.t, j - 1)
      invariant prev != curr && fresh(prev) && fresh(curr)
      invariant band == Band(prev[..], curr[..], start, stop) && band.Ready(p, j - 1)
      invariant start <= m && sData == Offset(p.s, if start == 0 then 0 else start - 1)
      invariant Rest(p, maxD, band, j) == Rest(p, maxD, FirstBand(p, stopColumn), 1)
    {
      var yLength := text.TargetLength(y, j - 1, n, p);
      var crossed;
      RestStep(p, maxD, band, j);
      band := Turn(p, maxD, band, j);
      start, stop, sData, crossed :=
        NextRow(prev, curr, start, stop, sData, j, y, yLength, text, ins, del, sub, maxD, m, n, p);
      if crossed {
        return maxD + 1;
      }
      prev, curr := curr, prev;
      y := y + yLength;
      j := j + 1;
    }
    RestDone(p, maxD, band);
    assert prev[m] == band.prev[m];
    return prev[m].value;
  }

  /** levenshtein_internal. */
  method LevenshteinInternal(mblen: CharLength, s: seq<Byte>, t: seq<Byte>, ins: int, del: int, sub: int)
    returns (r: Outcome)
    requires WellEncoded(mblen, s) && WellEncoded(mblen, t)
    ensures var p := Problem(Chars(mblen, s), Chars(mblen, t), ins, del, sub);
            && (r.TooLong? <==> s != [] && t != [] && 255 < Max(|p.s|, |p.t|))
            && (r.Result? ==> IsLeastCost(p, r.distance))
  {
    var m, n := |Chars(mblen, s)|, |Chars(mblen, t)|;
    if m != 0 && n != 0 && (m > MAX_LEVENSHTEIN_STRLEN || n > MAX_LEVENSHTEIN_STRLEN) {
      return TooLong;
    }
    var d := FullDistance(mblen, s, t, ins, del, sub);
    return Result(d);
  }

  /** levenshtein_less_equal_internal: agrees with the unbounded compilation up to the bound, for safe
      charges. */
  method LevenshteinLessEqualInternal(mblen: CharLength, s: seq<Byte>, t: seq<Byte>,
                                      ins: int, del: int, sub: int, maxD: int)
    returns (r: Outcome)
    requires WellEncoded(mblen, s) && WellEncoded(mblen, t)
    ensures var p := Problem(Chars(mblen, s), Chars(mblen, t), ins, del, sub);
            && (r.TooLong? <==> s != [] && t != [] && 255 < Max(|p.s|, |p.t|))
            && (r.Result? ==> r.distance == Banded(p, maxD))
            && (r.Result? && (s == [] || t == [] || maxD < 0) ==> IsLeastCost(p, r.distance))
            && (r.Result? && s != [] && t != [] && 0 <= maxD && Safe(ins, del, sub) ==>
                  if r.distance <= maxD then IsLeastCost(p, r.distance)
                  else r.distance == maxD + 1 && forall d :: IsLeastCost(p, d) ==> maxD < d)
  {
    var m, n := |Chars(mblen, s)|, |Chars(mblen, t)|;
    if m != 0 && n != 0 && (m > MAX_LEVENSHTEIN_STRLEN || n > MAX_LEVENSHTEIN_STRLEN) {
      return TooLong;
    }
    DistanceIsLeastCost(Problem(Chars(mblen, s), Chars(mblen, t), ins, del, sub));
    var d := BandedDistance(mblen, s, t, ins, del, sub, maxD);
    return Result(d);
  }

  function Max(a: int, b: int): int {
    if a < b then b else a
  }
}
