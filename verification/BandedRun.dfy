/** The bounded compilation of levenshtein.cpp as a function of the notional problem: what it does
    for charges of any sign, that no entry is read before it is written, and exactly for which
    charges its answers are right. */
module BandedRun {
  import opened EditDistance

  /** A row entry as allocated memory holds it: reading one that was never written is not allowed. */
  datatype Slot = Unwritten | Written(value: int)

  predicate Filled(row: seq<Slot>, columns: nat) {
    columns <= |row| && forall c :: 0 <= c < columns ==> row[c].Written?
  }

  /** Both rows and the ends of the band between two turns of the outer loop. */
  datatype Band = Band(prev: seq<Slot>, curr: seq<Slot>, start: nat, stop: nat) {

    predicate Shaped(p: Problem) {
      start <= stop <= |prev| == |curr| == |p.s| + 1 && Filled(prev, stop) && Filled(curr, start)
    }

    /** After row j: all that later turns read is written, and the band reaches past the column
        where the rests of the two strings are equally long. */
    predicate Ready(p: Problem, j: nat) {
      Shaped(p) && start < stop && 0 < p.NetInserts(stop, j)
    }
  }

  // ---------------------------------------------------------------------------------------------
  // The steps
  // ---------------------------------------------------------------------------------------------

  /** The recurrence over stored values. */
  function Entry(p: Problem, prev: seq<Slot>, left: Slot, i: nat, j: nat): int
    requires 0 < i <= |p.s| && 0 < j <= |p.t| && i < |prev|
    requires prev[i].Written? && prev[i - 1].Written? && left.Written?
  {
    Min(Min(prev[i].value + p.ins, left.value + p.del), prev[i - 1].value + p.PairCost(i - 1, j - 1))
  }

  /** The inner loop: columns [i, stop) of row j. */
  function Fill(p: Problem, prev: seq<Slot>, curr: seq<Slot>, i: nat, stop: nat, j: nat): (row: seq<Slot>)
    requires 0 < i <= stop <= |prev| == |curr| == |p.s| + 1 && 0 < j <= |p.t|
    requires Filled(prev, stop) && Filled(curr, i)
    ensures |row| == |curr| && Filled(row, stop)
    decreases stop - i
  {
    if i == stop then curr
    else Fill(p, prev, curr[i := Written(Entry(p, prev, curr[i - 1], i, j))], i + 1, stop, j)
  }

  /** Every column in range obeys the recurrence, and no other changes. */
  lemma {:induction false} FillEntries(p: Problem, prev: seq<Slot>, curr: seq<Slot>, i: nat, stop: nat, j: nat)
    requires 0 < i <= stop <= |prev| == |curr| == |p.s| + 1 && 0 < j <= |p.t|
    requires Filled(prev, stop) && Filled(curr, i)
    ensures var row := Fill(p, prev, curr, i, stop, j);
            && (forall c :: 0 <= c < |row| && !(i <= c < stop) ==> row[c] == curr[c])
            && (forall c :: i <= c < stop ==> row[c].value == Entry(p, prev, row[c - 1], c, j))
    decreases stop - i
  {
    hide Entry;
    if i < stop {
      FillEntries(p, prev, curr[i := Written(Entry(p, prev, curr[i - 1], i, j))], i + 1, stop, j);
    }
  }

  /** The pruning test: entry c of row j can still lead to an answer within the bound. */
  predicate Passes(p: Problem, bound: int, row: seq<Slot>, c: nat, j: nat)
    requires c < |row| && row[c].Written?
  {
    row[c].value + p.Residual(c, j) <= bound
  }

  /** Where the stop column comes to rest. */
  function LastPass(p: Problem, bound: int, row: seq<Slot>, stop: nat, j: nat): (r: nat)
    requires Filled(row, stop)
    ensures r <= stop && forall c :: r <= c < stop ==> !Passes(p, bound, row, c, j)
    ensures 0 < r ==> Passes(p, bound, row, r - 1, j)
  {
    if stop == 0 || Passes(p, bound, row, stop - 1, j) then stop else LastPass(p, bound, row, stop - 1, j)
  }

  /** Where the start column comes to rest. */
  function FirstPass(p: Problem, bound: int, row: seq<Slot>, start: nat, stop: nat, j: nat): (r: nat)
    requires Filled(row, stop)
    ensures start <= r && (r == start || r <= stop)
    ensures forall c :: start <= c < r ==> !Passes(p, bound, row, c, j)
    ensures r < stop ==> Passes(p, bound, row, r, j)
    decreases stop - start
  {
    if start >= stop || Passes(p, bound, row, start, j) then start
    else FirstPass(p, bound, row, start + 1, stop, j)
  }

  /** Entries the start column has passed are overwritten so that no later row is confused. */
  function Spoilt(row: seq<Slot>, start: nat, stop: nat, bound: int): (r: seq<Slot>)
    ensures |r| == |row|
  {
    seq(|row|, c requires 0 <= c < |row| => if start <= c < stop then Written(bound + 1) else row[c])
  }

  /** Room for one more column on the right, and the left edge of row j. */
  function Opened(p: Problem, bound: int, b: Band, j: nat): (r: Band)
    requires 0 < j <= |p.t| && b.Ready(p, j - 1)
    ensures r.start == b.start && r.stop == Min(b.stop + 1, |p.s| + 1) && 0 < p.NetInserts(r.stop, j)
    ensures r.Shaped(p) && Filled(r.curr, FirstColumn(b.start)) && FirstColumn(b.start) <= r.stop
  {
    Band(if b.stop <= |p.s| then b.prev[b.stop := Written(bound + 1)] else b.prev,
         if b.start == 0 then b.curr[0 := Written(j * p.ins)] else b.curr,
         b.start,
         if b.stop <= |p.s| then b.stop + 1 else b.stop)
  }

  function FirstColumn(start: nat): (r: nat) {
    if start == 0 then 1 else start
  }

  /** Both ends of the band slide inwards; b.prev is the row just filled. */
  function Narrowed(p: Problem, bound: int, b: Band, j: nat): (r: Band)
    requires b.Shaped(p) && Filled(b.curr, b.stop) && 0 < p.NetInserts(b.stop, j)
    requires forall c :: b.start < c < b.stop ==> b.prev[c].value <= b.prev[c - 1].value + p.del
    ensures r.start < r.stop ==> r.Ready(p, j)
  {
    var stop := LastPass(p, bound, b.prev, b.stop, j);
    var start := FirstPass(p, bound, b.prev, b.start, stop, j);
    assert b.start < stop < b.stop ==> 0 < p.NetInserts(stop, j) by {
      if b.start < stop < b.stop && p.NetInserts(stop, j) <= 0 { PassesOn(p, bound, b.prev, stop, j); }
    }
    Band(Spoilt(b.prev, b.start, start, bound), Spoilt(b.curr, b.start, start, bound), start, stop)
  }

  /** Left of the column where the rests are equally long, the test passes on to the right. */
  lemma PassesOn(p: Problem, bound: int, row: seq<Slot>, c: nat, j: nat)
    requires 0 < c < |row| && row[c].Written? && row[c - 1].Written?
    requires row[c].value <= row[c - 1].value + p.del
    requires p.NetInserts(c, j) <= 0 && Passes(p, bound, row, c - 1, j)
    ensures Passes(p, bound, row, c, j)
  {
    var net := p.NetInserts(c, j);
    assert -(net - 1) * p.del == -net * p.del + p.del;
  }

  /** One turn of the outer loop, the rows swapped; the ends of the result may have crossed. */
  function Turn(p: Problem, bound: int, b: Band, j: nat): (r: Band)
    requires 0 < j <= |p.t| && b.Ready(p, j - 1)
    ensures r.start < r.stop ==> r.Ready(p, j)
    ensures bound < 0 ==> r.start < r.stop
  {
    var open := Opened(p, bound, b, j);
    var row := Fill(p, open.prev, open.curr, FirstColumn(b.start), open.stop, j);
    var filled := Band(row, open.prev, open.start, open.stop);
    FillEntries(p, open.prev, open.curr, FirstColumn(b.start), open.stop, j);
    if bound < 0 then filled else Narrowed(p, bound, filled, j)
  }

  /** Rows j and on, and the answer. */
  function Rest(p: Problem, bound: int, b: Band, j: nat): int
    requires 0 < j <= |p.t| + 1 && b.Ready(p, j - 1)
    decreases |p.t| - j
  {
    if j > |p.t| then b.prev[|p.s|].value
    else
      var next := Turn(p, bound, b, j);
      if 0 <= bound && next.start >= next.stop then bound + 1 else Rest(p, bound, next, j + 1)
  }

  /** What one more row does to the answer. */
  lemma RestStep(p: Problem, bound: int, b: Band, j: nat)
    requires 0 < j <= |p.t| && b.Ready(p, j - 1)
    ensures var next := Turn(p, bound, b, j);
            Rest(p, bound, b, j) ==
            if 0 <= bound && next.start >= next.stop then bound + 1 else Rest(p, bound, next, j + 1)
  {
  }

  /** After the last row the answer is in the last column, which has been written. */
  lemma RestDone(p: Problem, bound: int, b: Band)
    requires b.Ready(p, |p.t|)
    ensures |b.prev| == |p.s| + 1 && b.prev[|p.s|].Written? && Rest(p, bound, b, |p.t| + 1) == b.prev[|p.s|].value
  {
  }

  /** The first row: deletions only, up to the initial stop column. */
  function FirstBand(p: Problem, stop: nat): (r: Band)
    requires 0 < stop <= |p.s| + 1 && 0 < p.NetInserts(stop, 0)
    ensures r.Ready(p, 0)
  {
    Band(seq(|p.s| + 1, c => if c < stop then Written(c * p.del) else Unwritten),
         seq(|p.s| + 1, _ => Unwritten), 0, stop)
  }

  /** What is settled before a single character is looked at. */
  datatype Setup = Decided(distance: int) | Run(sub: int, maxD: int, stop: nat)

  /** The initial stop column. */
  function FirstStop(p: Problem, maxD: int): (stop: nat)
    requires 0 < p.ins + p.del && p.Residual(0, 0) <= maxD
    ensures 0 < stop <= |p.s| + 1 && 0 < p.NetInserts(stop, 0)
  {
    var best := if |p.t| < |p.s| then |p.s| - |p.t| else 0;
    Min(best + (maxD - p.Residual(0, 0)) / (p.ins + p.del) + 1, |p.s| + 1)
  }

  /** The shortcuts on lengths and charges alone. */
  function SetUp(p: Problem, maxD: int): (r: Setup)
    ensures r.Run? ==> 0 < r.stop <= |p.s| + 1 && 0 < p.NetInserts(r.stop, 0)
  {
    if maxD < 0 then Run(p.sub, maxD, |p.s| + 1)
    else if p.Residual(0, 0) > maxD then Decided(maxD + 1)
    else
      var sub := Min(p.sub, p.ins + p.del);
      if maxD >= p.Residual(0, 0) + sub * Min(|p.s|, |p.t|) then Run(sub, -1, |p.s| + 1)
      else if p.ins + p.del > 0 then Run(sub, maxD, FirstStop(p, maxD))
      else Run(sub, maxD, |p.s| + 1)
  }

  /** The answer of the bounded compilation, without its length cap. */
  function Banded(p: Problem, maxD: int): int {
    if p.s == [] then |p.t| * p.ins
    else if p.t == [] then |p.s| * p.del
    else match SetUp(p, maxD)
      case Decided(distance) => distance
      case Run(sub, bound, stop) =>
        var q := p.(sub := sub);
        assert q.NetInserts(stop, 0) == p.NetInserts(stop, 0);
        Rest(q, bound, FirstBand(q, stop), 1)
  }

  // ---------------------------------------------------------------------------------------------
  // What every row keeps when no charge is negative
  // ---------------------------------------------------------------------------------------------

  ghost predicate Holds(p: Problem, bound: int, row: seq<Slot>, columns: nat, j: nat)
    requires j <= |p.t|
  {
    && columns <= |row| == |p.s| + 1
    && forall c :: 0 <= c < columns ==> row[c].Written? && Stands(p, bound, row[c].value, c, j)
  }

  /** What every finished row leaves behind. Live columns lie in [start, stop) and hold their cell
      exactly; every entry left of stop is written and cannot mislead; entries left of start are
      spoilt in both rows. */
  ghost predicate RowDone(p: Problem, bound: int, b: Band, j: nat)
    requires j <= |p.t|
  {
    && b.Ready(p, j)
    && Holds(p, bound, b.prev, b.stop, j)
    && (forall c :: 0 <= c < b.start ==> b.prev[c] == b.curr[c] == Written(bound + 1))
    && (forall c :: 0 <= c <= |p.s| && p.Live(bound, c, j) ==> b.start <= c < b.stop)
  }

  /** A column live in the next row was live one column to the left, or at the left edge. */
  lemma BandMoves(p: Problem, bound: int, b: Band, j: nat)
    requires (bound < 0 || p.Charged()) && 0 < j <= |p.t| && RowDone(p, bound, b, j - 1)
    ensures forall c :: 0 <= c <= |p.s| && p.Live(bound, c, j) ==> b.start <= c <= b.stop
    ensures bound < 0 ==> b.start == 0 && b.stop == |p.s| + 1
  {
    if bound < 0 {
      assert p.Live(bound, 0, j - 1) && p.Live(bound, |p.s|, j - 1);
    } else {
      forall c | 0 <= c <= |p.s| && p.Live(bound, c, j) ensures b.start <= c <= b.stop {
        LiveFromAbove(p, bound, c, j);
      }
    }
  }

  /** The column that opens on the right and the left edge are written before they are read. */
  lemma OpenedHolds(p: Problem, bound: int, b: Band, j: nat)
    requires (bound < 0 || p.Charged()) && 0 < j <= |p.t| && RowDone(p, bound, b, j - 1)
    ensures var open := Opened(p, bound, b, j);
            && Holds(p, bound, open.prev, open.stop, j - 1)
            && Holds(p, bound, open.curr, FirstColumn(b.start), j)
            && (forall c :: 0 <= c < b.start ==> open.prev[c] == open.curr[c] == Written(bound + 1))
            && (forall c :: 0 <= c <= |p.s| && p.Live(bound, c, j) ==> b.start <= c < open.stop)
  {
    BandMoves(p, bound, b, j);
    EdgeStands(p, bound, j);
    hide Problem.Cell;
    hide Problem.Residual;
  }

  /** The inner loop keeps every entry standing for its cell. */
  lemma {:induction false} FillHolds(p: Problem, bound: int, prev: seq<Slot>, curr: seq<Slot>, i: nat,
                                     stop: nat, j: nat, columns: nat)
    requires 0 < i <= columns <= stop <= |prev| == |curr| == |p.s| + 1 && 0 < j <= |p.t|
    requires (bound < 0 || p.Charged()) && Holds(p, bound, prev, stop, j - 1) && Holds(p, bound, curr, i, j)
    ensures Holds(p, bound, Fill(p, prev, curr, i, stop, j), columns, j)
    decreases columns
  {
    hide Stands;
    hide Fill;
    FillEntries(p, prev, curr, i, stop, j);
    if i < columns {
      var c := columns - 1;
      FillHolds(p, bound, prev, curr, i, stop, j, c);
      var row := Fill(p, prev, curr, i, stop, j);
      StandsStep(p, bound, prev[c].value, row[c - 1].value, prev[c - 1].value, c, j);
    }
  }

  /** The stop column passes dead columns only, and so does the start column. */
  lemma PassesIffLive(p: Problem, bound: int, row: seq<Slot>, columns: nat, j: nat)
    requires p.Charged() && 0 <= bound && j <= |p.t| && Holds(p, bound, row, columns, j)
    ensures forall c :: 0 <= c < columns ==> (Passes(p, bound, row, c, j) <==> p.Live(bound, c, j))
  {
    forall c | 0 <= c < columns ensures Passes(p, bound, row, c, j) <==> p.Live(bound, c, j) {
      StandsTest(p, bound, row[c].value, c, j);
    }
  }

  /** Sliding keeps every live column inside, or finds that there is none. */
  lemma NarrowedHolds(p: Problem, bound: int, b: Band, j: nat)
    requires p.Charged() && 0 <= bound && j <= |p.t| && Holds(p, bound, b.prev, b.stop, j)
    requires b.Shaped(p) && Filled(b.curr, b.stop) && 0 < p.NetInserts(b.stop, j)
    requires forall c :: b.start < c < b.stop ==> b.prev[c].value <= b.prev[c - 1].value + p.del
    requires forall c :: 0 <= c < b.start ==> b.prev[c] == b.curr[c] == Written(bound + 1)
    requires forall c :: 0 <= c <= |p.s| && p.Live(bound, c, j) ==> b.start <= c < b.stop
    ensures var r := Narrowed(p, bound, b, j);
            if r.start < r.stop then RowDone(p, bound, r, j) && p.Live(bound, r.start, j)
            else forall c :: 0 <= c <= |p.s| ==> !p.Live(bound, c, j)
  {
    PassesIffLive(p, bound, b.prev, b.stop, j);
    hide Problem.Live;
    hide Passes;
    var r := Narrowed(p, bound, b, j);
    if r.start < r.stop {
      forall c | 0 <= c < r.stop ensures Stands(p, bound, r.prev[c].value, c, j) {
        if b.start <= c < r.start { SpoiltStands(p, bound, c, j); }
      }
    }
  }

  lemma SpoiltStands(p: Problem, bound: int, i: nat, j: nat)
    requires i <= |p.s| && j <= |p.t| && !p.Live(bound, i, j)
    ensures Stands(p, bound, bound + 1, i, j)
  {
  }

  /** One turn keeps what a row leaves behind, or no cell of the row is live. */
  lemma TurnKeeps(p: Problem, bound: int, b: Band, j: nat)
    requires (bound < 0 || p.Charged()) && 0 < j <= |p.t| && RowDone(p, bound, b, j - 1)
    ensures var r := Turn(p, bound, b, j);
            if r.start < r.stop then RowDone(p, bound, r, j) && p.Live(bound, r.start, j)
            else 0 <= bound && forall c :: 0 <= c <= |p.s| ==> !p.Live(bound, c, j)
  {
    hide Problem.Live;
    hide Stands;
    hide Narrowed;
    var open, first := Opened(p, bound, b, j), FirstColumn(b.start);
    OpenedHolds(p, bound, b, j);
    FillHolds(p, bound, open.prev, open.curr, first, open.stop, j, open.stop);
    var row := Fill(p, open.prev, open.curr, first, open.stop, j);
    FillEntries(p, open.prev, open.curr, first, open.stop, j);
    hide Fill;
    if 0 <= bound {
      NarrowedHolds(p, bound, Band(row, open.prev, open.start, open.stop), j);
    } else {
      BandMoves(p, bound, b, j);
      Unbounded(p, bound, b.start, j);
    }
  }

  lemma Unbounded(p: Problem, bound: int, i: nat, j: nat)
    requires bound < 0 && i <= |p.s| && j <= |p.t|
    ensures p.Live(bound, i, j)
  {
  }

  /** After the last row, an open band means that its last entry is the distance, within the bound. */
  lemma AnswerInLastColumn(p: Problem, bound: int, b: Band)
    requires bound < 0 || p.Charged()
    requires RowDone(p, bound, b, |p.t|) && p.Live(bound, b.start, |p.t|)
    ensures b.prev[|p.s|] == Written(p.Distance()) && (bound < 0 || p.Distance() <= bound)
  {
    if 0 <= bound { LastRow(p, bound, b.start); }
    assert p.Live(bound, |p.s|, |p.t|);
  }

  /** Once a row has no live cell, the distance is over the bound. */
  lemma {:induction false} NothingLeft(p: Problem, bound: int, j: nat)
    requires p.Charged() && 0 <= bound && j <= |p.t|
    requires forall c :: 0 <= c <= |p.s| ==> !p.Live(bound, c, j)
    ensures bound < p.Distance()
    decreases |p.t| - j
  {
    if j < |p.t| {
      var k := j + 1;
      forall c | 0 <= c <= |p.s| ensures !p.Live(bound, c, k) {
        if p.Live(bound, c, k) { LiveFromAbove(p, bound, c, k); }
      }
      NothingLeft(p, bound, k);
    } else {
      assert !p.Live(bound, |p.s|, |p.t|);
    }
  }

  /** The answer a bounded distance should give. */
  ghost function Capped(p: Problem, maxD: int): int {
    if maxD < 0 || p.Distance() <= maxD then p.Distance() else maxD + 1
  }

  /** From any row on, the loop ends with the right answer. */
  lemma {:induction false} RestExact(p: Problem, bound: int, b: Band, j: nat)
    requires (bound < 0 || p.Charged()) && 0 < j <= |p.t| + 1 && RowDone(p, bound, b, j - 1)
    requires 1 < j ==> p.Live(bound, b.start, j - 1)
    requires p.t != []
    ensures Rest(p, bound, b, j) == Capped(p, bound)
    decreases |p.t| - j
  {
    hide Problem.Cell;
    hide Problem.Live;
    hide Holds;
    hide Turn;
    if j > |p.t| {
      AnswerInLastColumn(p, bound, b);
    } else {
      TurnKeeps(p, bound, b, j);
      var next := Turn(p, bound, b, j);
      if next.start < next.stop {
        RestExact(p, bound, next, j + 1);
      } else {
        NothingLeft(p, bound, j);
      }
    }
  }

  /** The first row leaves behind what every row does, if no live column lies beyond it. */
  lemma FirstBandDone(p: Problem, bound: int, stop: nat)
    requires 0 < stop <= |p.s| + 1 && 0 < p.NetInserts(stop, 0)
    requires forall c :: stop <= c <= |p.s| ==> !p.Live(bound, c, 0)
    ensures RowDone(p, bound, FirstBand(p, stop), 0)
  {
    var b := FirstBand(p, stop);
    forall c: nat | c < stop ensures Stands(p, bound, b.prev[c].value, c, 0) {
      EdgeCell(p, c);
    }
  }

  /** From the column on where the lengths agree, the initial stop column drops exactly the columns that lie
      on no path within the bound. */
  lemma FirstStopSound(p: Problem, maxD: int)
    requires 0 < p.ins + p.del && 0 <= maxD && p.Residual(0, 0) <= maxD
    ensures forall c: nat :: c <= |p.s| && 0 <= p.NetInserts(c, 0) ==> (p.Live(maxD, c, 0) <==> c < FirstStop(p, maxD))
  {
    forall c: nat | c <= |p.s| && 0 <= p.NetInserts(c, 0) ensures p.Live(maxD, c, 0) <==> c < FirstStop(p, maxD) {
      FirstRowBeyond(p, maxD, c);
    }
  }

  // ---------------------------------------------------------------------------------------------
  // Exactly which charges are safe
  // ---------------------------------------------------------------------------------------------

  /** Charges for which the bounded compilation can be trusted: none is negative, or neither insertion
      nor deletion costs anything, or pairing two characters is free once insertion and deletion are
      considered. */
  predicate Safe(ins: int, del: int, sub: int) {
    || (0 <= ins && 0 <= del && 0 <= sub)
    || (ins <= 0 && del <= 0)
    || Min(sub, ins + del) == 0
  }

  /** Charges under which a distance is never below the cost of the difference in lengths. */
  predicate LengthsCount(ins: int, del: int, sub: int) {
    (ins <= 0 && del <= 0) || (0 <= ins + del && 0 <= sub)
  }

  /** With nothing to pay for, deleting all of s and inserting all of t is free. */
  lemma {:induction false} NothingToPay(p: Problem, i: nat, j: nat)
    requires p.ins <= 0 && p.del <= 0 && i <= |p.s| && j <= |p.t|
    ensures p.Cell(i, j) <= 0
    decreases i + j
  {
    hide Problem.Cell;
    if i + j == 0 {
      EdgeCell(p, 0);
    } else if 0 < j {
      NothingToPay(p, i, j - 1);
      CellByInsert(p, i, j);
    } else {
      NothingToPay(p, i - 1, j);
      CellByDelete(p, i, j);
    }
  }

  lemma NoLengthsToPay(p: Problem)
    requires p.ins <= 0 && p.del <= 0
    ensures p.Residual(0, 0) <= 0
  {
  }

  /** The shortcut on lengths never claims too much, whatever the strings and the bound, for exactly
      these charges. */
  lemma LengthShortcutIff(ins: int, del: int, sub: int)
    ensures LengthsCount(ins, del, sub) <==>
            forall p: Problem, maxD: nat | Charges(p, ins, del, sub) && p.s != [] && p.t != [] ::
              SetUp(p, maxD).Decided? ==> maxD < p.Distance()
  {
    if LengthsCount(ins, del, sub) {
      forall p: Problem, maxD: nat | Charges(p, ins, del, sub) && p.s != [] && p.t != []
        ensures SetUp(p, maxD).Decided? ==> maxD < p.Distance()
      {
        if ins <= 0 && del <= 0 { NoLengthsToPay(p); } else { TheoreticalBounds(p); }
      }
    } else {
      var p, maxD := LengthsMislead(ins, del, sub);
    }
  }

  predicate Charges(p: Problem, ins: int, del: int, sub: int) {
    p.ins == ins && p.del == del && p.sub == sub
  }

  /** Two strings over different characters, one of them longer by one. */
  lemma LengthsMislead(ins: int, del: int, sub: int) returns (p: Problem, maxD: nat)
    requires !LengthsCount(ins, del, sub)
    ensures Charges(p, ins, del, sub) && p.s != [] && p.t != []
    ensures SetUp(p, maxD).Decided? && p.Distance() <= maxD
  {
    var a, b := [97], [98];
    if 0 < ins {
      p, maxD := Problem([a], [b, b], ins, del, sub), ins - 1;
      CellByPair(p, 1, 1);
      CellByDelete(p, 1, 0);
      CellByInsert(p, 1, 1);
      CellByInsert(p, 1, 2);
    } else {
      p, maxD := Problem([a, a], [b], ins, del, sub), del - 1;
      CellByPair(p, 1, 1);
      CellByDelete(p, 1, 1);
      CellByInsert(p, 0, 1);
      CellByDelete(p, 2, 1);
    }
    assert p.Residual(0, 0) == maxD + 1;
  }

  /** The shortcuts are sound for safe charges: a decided answer is over the bound; otherwise the lowered
      charge keeps the distance, a bound that is kept meets charges that are not negative, one that is
      dropped could not have been exceeded, and the columns beyond stop are dead in the first row. */
  lemma SetUpSound(p: Problem, maxD: int)
    requires maxD < 0 || Safe(p.ins, p.del, p.sub)
    ensures var r := SetUp(p, maxD);
            if r.Decided? then 0 <= maxD && r.distance == maxD + 1 && maxD < p.Distance()
            else
              var q := p.(sub := r.sub);
              && q.Distance() == p.Distance()
              && ((r.maxD == maxD && (maxD < 0 || q.Charged())) || (r.maxD == -1 && p.Distance() <= maxD))
              && forall c :: r.stop <= c <= |p.s| ==> !q.Live(r.maxD, c, 0)
  {
    hide Problem.Cell;
    if 0 <= maxD {
      var sub, k := Min(p.sub, p.ins + p.del), Min(|p.s|, |p.t|);
      var q := p.(sub := sub);
      CheaperSubstitution(p, |p.s|, |p.t|);
      if p.ins <= 0 && p.del <= 0 {
        NoLengthsToPay(p);
        NothingToPay(p, |p.s|, |p.t|);
        NotPositive(sub, k);
      } else {
        TheoreticalBounds(p);
        TheoreticalBounds(q);
        if p.Residual(0, 0) <= maxD < p.Residual(0, 0) + sub * k { FirstStopSound(q, maxD); }
      }
    }
  }

  lemma NotPositive(a: int, k: nat)
    requires a <= 0
    ensures a * k <= 0
  {
  }

  /** For safe charges the bounded compilation gives the distance up to the bound, and one more than the
      bound beyond it. */
  lemma BandedExact(p: Problem, maxD: int)
    requires p.s != [] && p.t != [] && (maxD < 0 || Safe(p.ins, p.del, p.sub))
    ensures Banded(p, maxD) == Capped(p, maxD)
  {
    hide Problem.Cell;
    hide Problem.Residual;
    SetUpSound(p, maxD);
    var r := SetUp(p, maxD);
    if r.Run? {
      var q := p.(sub := r.sub);
      FirstBandDone(q, r.maxD, r.stop);
      RestExact(q, r.maxD, FirstBand(q, r.stop), 1);
    }
  }

  /** Insertions that pay: the entry written ahead of the band comes down as if it were a distance. */
  lemma NegativeInsertionMisleads(ins: int, del: int, sub: int) returns (p: Problem)
    requires ins < 0 < Min(sub, ins + del)
    ensures Charges(p, ins, del, sub) && p.s != [] && p.t != []
    ensures Banded(p, 0) == 1 + ins && Capped(p, 0) == 1
  {
    p := Problem([[97]], [[98]], ins, del, sub);
    OneDifferent(p);
    hide Problem.Cell;
    hide Turn;
    assert SetUp(p, 0) == Run(Min(sub, ins + del), 0, 1);
    EntryAheadReturns(p.(sub := Min(sub, ins + del)));
  }

  /** The only row takes the entry of column 1 for a distance, and inserts from there. */
  lemma EntryAheadReturns(q: Problem)
    requires q.s == [[97]] && q.t == [[98]] && q.ins < 0 < q.sub <= q.ins + q.del
    ensures 0 < q.NetInserts(1, 0) && Rest(q, 0, FirstBand(q, 1), 1) == 1 + q.ins
  {
    var b := FirstBand(q, 1);
    assert b.prev == [Written(0), Unwritten];
    var open := Opened(q, 0, b, 1);
    assert open.prev == [Written(0), Written(1)] && open.stop == 2;
    var row := Fill(q, open.prev, open.curr, 1, 2, 1);
    FillEntries(q, open.prev, open.curr, 1, 2, 1);
    hide Fill;
    assert row[0] == Written(q.ins);
    assert row[1] == Written(1 + q.ins);
    assert Passes(q, 0, row, 1, 1) && !Passes(q, 0, row, 0, 1);
    var last := Turn(q, 0, b, 1);
    assert last.start < last.stop && last.prev[1] == row[1];
    assert Rest(q, 0, last, 2) == row[1].value;
  }

  lemma OneDifferent(p: Problem)
    requires p.s == [[97]] && p.t == [[98]]
    ensures p.Distance() == Min(p.sub, p.ins + p.del)
  {
    EdgeCell(p, 1);
  }

  /** Deletions that pay: the entry spoilt behind the band comes along as if it were a distance. */
  lemma NegativeDeletionMisleads(ins: int, del: int, sub: int) returns (p: Problem)
    requires del < 0 < Min(sub, ins + del)
    ensures Charges(p, ins, del, sub) && p.s != [] && p.t != []
    ensures Banded(p, 0) == 1 + 2 * del && Capped(p, 0) == 0
  {
    p := Problem([[97], [97]], [[97], [97]], ins, del, sub);
    var q := p.(sub := Min(sub, ins + del));
    TwoEqual(p);
    hide Problem.Cell;
    hide Turn;
    assert SetUp(p, 0) == Run(q.sub, 0, 1);
    SpoiltOnce(q);
    SpoiltValueReturns(q);
  }

  lemma TwoEqual(p: Problem)
    requires p.s == p.t == [[97], [97]] && 0 <= p.ins + p.del && 0 <= p.sub
    ensures p.Distance() == 0
  {
    TheoreticalBounds(p);
    CellByPair(p, 1, 1);
    CellByPair(p, 2, 2);
  }

  ghost const OnceSpoilt := Band([Written(1), Written(0), Unwritten], [Written(1), Written(1), Unwritten], 1, 2)

  /** The first row drops column 0. */
  lemma SpoiltOnce(q: Problem)
    requires q.s == q.t == [[97], [97]] && q.del < 0 < q.ins + q.del
    ensures Turn(q, 0, FirstBand(q, 1), 1) == OnceSpoilt
  {
    var b := FirstBand(q, 1);
    assert b.prev == [Written(0), Unwritten, Unwritten];
    var open := Opened(q, 0, b, 1);
    assert open.prev == [Written(0), Written(1), Unwritten] && open.stop == 2;
    var row := Fill(q, open.prev, open.curr, 1, 2, 1);
    FillEntries(q, open.prev, open.curr, 1, 2, 1);
    hide Fill;
    assert row == [Written(q.ins), Written(0), Unwritten];
    assert Passes(q, 0, row, 1, 1) && !Passes(q, 0, row, 0, 1);
  }

  /** The second row takes column 0 for a distance, and deletes from there. */
  lemma SpoiltValueReturns(q: Problem)
    requires q.s == q.t == [[97], [97]] && q.del < 0 < q.ins + q.del
    ensures OnceSpoilt.Ready(q, 1) && Rest(q, 0, OnceSpoilt, 2) == 1 + 2 * q.del
  {
    var open := Opened(q, 0, OnceSpoilt, 2);
    assert open.prev == [Written(1), Written(0), Written(1)] && open.stop == 3;
    var row := Fill(q, open.prev, open.curr, 1, 3, 2);
    FillEntries(q, open.prev, open.curr, 1, 3, 2);
    hide Fill;
    assert row[0] == Written(1);
    assert row[1] == Written(1 + q.del);
    assert row[2] == Written(1 + 2 * q.del);
    assert Passes(q, 0, row, 2, 2) && Passes(q, 0, row, 1, 2);
    var last := Turn(q, 0, OnceSpoilt, 2);
    assert last.start < last.stop && last.prev[2] == row[2];
    assert Rest(q, 0, last, 3) == row[2].value;
  }

  /** The bounded compilation agrees with the unbounded one up to every bound and on all strings exactly
      for safe charges. */
  lemma BandedExactIff(ins: int, del: int, sub: int)
    ensures Safe(ins, del, sub) <==>
            forall p: Problem, maxD: nat | Charges(p, ins, del, sub) && p.s != [] && p.t != [] ::
              Banded(p, maxD) == Capped(p, maxD)
  {
    if Safe(ins, del, sub) {
      forall p: Problem, maxD: nat | Charges(p, ins, del, sub) && p.s != [] && p.t != []
        ensures Banded(p, maxD) == Capped(p, maxD)
      {
        BandedExact(p, maxD);
      }
    } else if Min(sub, ins + del) < 0 {
      var p, maxD := LengthsMislead(ins, del, sub);
      assert Banded(p, maxD) != Capped(p, maxD);
    } else if ins < 0 {
      var p := NegativeInsertionMisleads(ins, del, sub);
      assert Banded(p, 0) != Capped(p, 0);
    } else {
      var p := NegativeDeletionMisleads(ins, del, sub);
      assert Banded(p, 0) != Capped(p, 0);
    }
  }
}
