/** What gms_output promises its callers: a bounded queue of lines that is filled, then read, and starts
    afresh with the first write after a read. */
module LineQueue {
  import opened Bytes
  import opened Options

  type Text = seq<Byte>

  predicate NoNul(t: Text) {
    0 !in t
  }

  const BUFSIZE_DEFAULT := 20000
  const BUFSIZE_MIN := 2000
  const BUFSIZE_MAX := 1000000

  /** Off, or on with a capacity in bytes, the bytes used since the queue was last emptied, whether a line
      was read since, the complete lines still to be read, and the text not yet ended by a line end. */
  datatype Queue = Off | On(capacity: nat, used: nat, reading: bool, lines: seq<Text>, open: Text) {

    /** What successive reads will return: an unfinished line counts as a line of its own. */
    function Pending(): seq<Text> {
      if Off? then [] else lines + if open == [] then [] else [open]
    }

    /** What the next write starts from. */
    function Fresh(): Queue {
      if On? && reading then On(capacity, 0, false, [], []) else this
    }

    ghost predicate Valid() {
      On? ==>
        && used <= capacity && (forall i :: 0 <= i < |lines| ==> NoNul(lines[i])) && NoNul(open)
        && (if reading then Space(lines) + |open| < used else Space(lines) + |open| == used)
    }
  }

  /** Buffer space taken by complete lines. */
  ghost function Space(lines: seq<Text>): nat {
    if lines == [] then 0 else |lines[0]| + 1 + Space(lines[1..])
  }

  datatype Cmd = Put(text: Text) | PutLine(text: Text) | NewLine | GetLine | GetLines(max: int)
               | Enable(size: Option<int>) | EnableDefault | Disable

  datatype Reply = Done | Overflow | Lines(lines: seq<Text>)

  function Emptied(q: Queue): Queue
    requires q.On?
  {
    On(q.capacity, 0, false, [], [])
  }

  /** Adds text to the unfinished line; without room everything is lost. */
  function AddText(q: Queue, t: Text): (Queue, Reply)
    requires q.On?
  {
    var f := q.Fresh();
    if f.used + |t| > f.capacity then (Emptied(f), Overflow)
    else (f.(used := f.used + |t|, open := f.open + t), Done)
  }

  /** Ends the unfinished line, which takes one byte. */
  function AddNewLine(q: Queue): (Queue, Reply)
    requires q.On?
  {
    var f := q.Fresh();
    if f.used + 1 > f.capacity then (Emptied(f), Overflow)
    else (f.(used := f.used + 1, lines := f.lines + [f.open], open := []), Done)
  }

  function Next(q: Queue): (Queue, seq<Text>) {
    if q.Pending() == [] then (q, [])
    else if q.lines != [] then (q.(reading := true, lines := q.lines[1..]), [q.lines[0]])
    else (q.(reading := true, open := []), [q.open])
  }

  function NextN(q: Queue, max: int): (Queue, seq<Text>)
    decreases max
  {
    if max <= 0 || Next(q).1 == [] then (q, []) else
      var (q1, line) := Next(q);
      var (q2, rest) := NextN(q1, max - 1);
      (q2, line + rest)
  }

  function Clamp(size: Option<int>): int {
    match size
    case None => BUFSIZE_MAX
    case Some(n) => if n > BUFSIZE_MAX then BUFSIZE_MAX else if n < BUFSIZE_MIN then BUFSIZE_MIN else n
  }

  /** Switches on, or changes the capacity as long as what was used still fits strictly. */
  function Resize(q: Queue, n: nat): Queue {
    match q
    case Off => On(n, 0, false, [], [])
    case On(_, used, _, _, _) => if n > used then q.(capacity := n) else q
  }

  function Step(q: Queue, c: Cmd): (Queue, Reply) {
    match c
    case Put(t) => if q.Off? then (q, Done) else AddText(q, t)
    case PutLine(t) =>
      if q.Off? then (q, Done) else
        var (q1, r) := AddText(q, t);
        if r == Overflow then (q1, r) else AddNewLine(q1)
    case NewLine => if q.Off? then (q, Done) else AddNewLine(q)
    case GetLine => (Next(q).0, Lines(Next(q).1))
    case GetLines(max) => (NextN(q, max).0, Lines(NextN(q, max).1))
    case Enable(size) => (Resize(q, Clamp(size)), Done)
    case EnableDefault => (Resize(q, BUFSIZE_DEFAULT), Done)
    case Disable => (Off, Done)
  }

  function Run(q: Queue, cmds: seq<Cmd>): (Queue, seq<Reply>)
    decreases cmds
  {
    if cmds == [] then (q, []) else
      var (q1, r) := Step(q, cmds[0]);
      var (q2, rs) := Run(q1, cmds[1..]);
      (q2, [r] + rs)
  }

  // ---------------------------------------------------------------------------------------------
  // What every run keeps
  // ---------------------------------------------------------------------------------------------

  predicate TextOk(c: Cmd) {
    (c.Put? || c.PutLine?) ==> NoNul(c.text)
  }

  lemma {:induction false} SpaceOfMore(lines: seq<Text>, line: Text)
    ensures Space(lines + [line]) == Space(lines) + |line| + 1
  {
    if lines == [] {
      assert lines + [line] == [line];
    } else {
      SpaceOfMore(lines[1..], line);
      assert (lines + [line])[1..] == lines[1..] + [line];
    }
  }

  lemma AddTextValid(q: Queue, t: Text)
    requires q.On? && q.Valid() && NoNul(t)
    ensures AddText(q, t).0.Valid() && AddText(q, t).0.On?
  {
  }

  lemma AddNewLineValid(q: Queue)
    requires q.On? && q.Valid()
    ensures AddNewLine(q).0.Valid()
  {
    var f := q.Fresh();
    SpaceOfMore(f.lines, f.open);
  }

  lemma NextValid(q: Queue)
    requires q.Valid()
    ensures Next(q).0.Valid()
  {
  }

  lemma {:induction false} NextNValid(q: Queue, max: int)
    requires q.Valid()
    ensures NextN(q, max).0.Valid()
    decreases max
  {
    if 0 < max && Next(q).1 != [] {
      NextValid(q);
      NextNValid(Next(q).0, max - 1);
    }
  }

  /** Every command keeps the books: used bytes never exceed the capacity. */
  lemma StepValid(q: Queue, c: Cmd)
    requires q.Valid() && TextOk(c)
    ensures Step(q, c).0.Valid()
  {
    match c
    case Put(t) => if q.On? { AddTextValid(q, t); }
    case PutLine(t) =>
      if q.On? {
        AddTextValid(q, t);
        AddNewLineValid(AddText(q, t).0);
      }
    case NewLine => if q.On? { AddNewLineValid(q); }
    case GetLine => NextValid(q);
    case GetLines(max) => NextNValid(q, max);
    case _ =>
  }

  lemma {:induction false} RunValid(q: Queue, cmds: seq<Cmd>)
    requires q.Valid() && forall i :: 0 <= i < |cmds| ==> TextOk(cmds[i])
    ensures Run(q, cmds).0.Valid()
    decreases cmds
  {
    if cmds != [] {
      StepValid(q, cmds[0]);
      RunValid(Step(q, cmds[0]).0, cmds[1..]);
    }
  }

  // ---------------------------------------------------------------------------------------------
  // Reading
  // ---------------------------------------------------------------------------------------------

  lemma NextPops(q: Queue)
    requires q.Pending() != []
    ensures Next(q).1 == [q.Pending()[0]] && Next(q).0.Pending() == q.Pending()[1..]
  {
  }

  lemma NextNUnfold(q: Queue, max: int)
    ensures NextN(q, max) ==
            if max <= 0 || Next(q).1 == [] then (q, [])
            else (NextN(Next(q).0, max - 1).0, Next(q).1 + NextN(Next(q).0, max - 1).1)
    ensures Next(q).1 == [] ==> Next(q).0 == q
  {
  }

  /** Reading several lines returns the first of those pending and leaves the others. */
  lemma {:induction false} NextNPops(q: Queue, max: int)
    ensures var n := Taken(max, |q.Pending()|);
            NextN(q, max).1 == q.Pending()[..n] && NextN(q, max).0.Pending() == q.Pending()[n..]
    decreases max
  {
    hide NextN;
    hide Next;
    hide Queue.Pending;
    hide Taken;
    var p := q.Pending();
    NextNUnfold(q, max);
    TakenUnfold(max, |p|);
    if p == [] {
      NextEmpty(q);
    } else if 0 < max {
      NextPops(q);
      NextNPops(Next(q).0, max - 1);
      SliceSplit(p, 1, Taken(max - 1, |p| - 1));
      assert p[..1] == [p[0]];
    }
  }

  lemma NextEmpty(q: Queue)
    requires q.Pending() == []
    ensures Next(q) == (q, [])
  {
  }

  lemma TakenUnfold(max: int, n: nat)
    ensures max <= 0 || n == 0 ==> Taken(max, n) == 0
    ensures 0 < max && 0 < n ==> Taken(max, n) == 1 + Taken(max - 1, n - 1) <= n
  {
  }

  function Taken(max: int, available: nat): nat {
    if max <= 0 then 0 else if max < available then max else available
  }

  predicate IsRead(c: Cmd) {
    c.GetLine? || c.GetLines?
  }

  function Asked(c: Cmd): nat
    requires IsRead(c)
  {
    if c.GetLine? then 1 else if c.max <= 0 then 0 else c.max
  }

  function AskedAll(cmds: seq<Cmd>): nat
    requires forall i :: 0 <= i < |cmds| ==> IsRead(cmds[i])
  {
    if cmds == [] then 0 else Asked(cmds[0]) + AskedAll(cmds[1..])
  }

  /** All lines in a list of replies, in order. */
  function Received(rs: seq<Reply>): seq<Text> {
    if rs == [] then [] else (if rs[0].Lines? then rs[0].lines else []) + Received(rs[1..])
  }

  lemma ReadStep(q: Queue, c: Cmd)
    requires IsRead(c)
    ensures var n := Taken(Asked(c), |q.Pending()|);
            Step(q, c).1 == Lines(q.Pending()[..n]) && Step(q, c).0.Pending() == q.Pending()[n..]
  {
    hide Next;
    hide NextN;
    hide Queue.Pending;
    if c.GetLine? {
      if q.Pending() == [] {
        NextEmpty(q);
      } else {
        NextPops(q);
        assert q.Pending()[..1] == [q.Pending()[0]];
      }
    } else {
      NextNPops(q, c.max);
    }
  }

  /** However reads are mixed, they return the pending lines in order, each once and unchanged, until as
      many came out as were asked for or none is left. */
  lemma {:induction false} ReadPhase(q: Queue, cmds: seq<Cmd>)
    requires forall i :: 0 <= i < |cmds| ==> IsRead(cmds[i])
    ensures var n := Taken(AskedAll(cmds), |q.Pending()|);
            Received(Run(q, cmds).1) == q.Pending()[..n] && Run(q, cmds).0.Pending() == q.Pending()[n..]
    decreases cmds
  {
    hide Step;
    hide Taken;
    hide Queue.Pending;
    hide Run;
    hide Received;
    if cmds == [] {
      TakenSplit(0, 0, |q.Pending()|);
      NothingRun(q);
    } else {
      var p, rest := q.Pending(), cmds[1..];
      ReadStep(q, cmds[0]);
      ReadPhase(Step(q, cmds[0]).0, rest);
      var k := Taken(Asked(cmds[0]), |p|);
      TakenSplit(Asked(cmds[0]), AskedAll(rest), |p|);
      SliceSplit(p, k, Taken(AskedAll(rest), |p| - k));
      ReceivedMore(q, cmds);
    }
  }

  lemma NothingRun(q: Queue)
    ensures Run(q, []) == (q, []) && Received(Run(q, []).1) == []
  {
  }

  lemma SliceSplit<T>(p: seq<T>, k: nat, m: nat)
    requires k + m <= |p|
    ensures p[..k + m] == p[..k] + p[k..][..m] && p[k + m..] == p[k..][m..]
  {
  }

  lemma ReceivedMore(q: Queue, cmds: seq<Cmd>)
    requires cmds != []
    ensures var (q1, r) := Step(q, cmds[0]);
            && Run(q, cmds).0 == Run(q1, cmds[1..]).0
            && Received(Run(q, cmds).1) == (if r.Lines? then r.lines else []) + Received(Run(q1, cmds[1..]).1)
  {
    hide Step;
    var (q1, r) := Step(q, cmds[0]);
    var (q2, rs) := Run(q1, cmds[1..]);
    assert ([r] + rs)[0] == r && ([r] + rs)[1..] == rs;
  }

  lemma TakenSplit(a: nat, b: nat, n: nat)
    ensures Taken(a, n) <= n && Taken(0, n) == 0 && Taken(a + b, n) <= n
    ensures Taken(a + b, n) == Taken(a, n) + Taken(b, n - Taken(a, n))
  {
  }

  // ---------------------------------------------------------------------------------------------
  // Writing
  // ---------------------------------------------------------------------------------------------

  predicate IsWrite(c: Cmd) {
    c.Put? || c.PutLine? || c.NewLine?
  }

  /** What one more write makes of finished lines and an unfinished one. */
  function SpeltMore(lines: seq<Text>, open: Text, c: Cmd): (seq<Text>, Text)
    requires IsWrite(c)
  {
    match c
    case Put(t) => (lines, open + t)
    case PutLine(t) => (lines + [open + t], [])
    case _ => (lines + [open], [])
  }

  /** The lines that a list of writes spells out, and the text it leaves unfinished. */
  function Spelt(cmds: seq<Cmd>): (seq<Text>, Text)
    requires forall i :: 0 <= i < |cmds| ==> IsWrite(cmds[i])
  {
    if cmds == [] then ([], []) else
      var (lines, open) := Spelt(cmds[..|cmds| - 1]);
      SpeltMore(lines, open, cmds[|cmds| - 1])
  }

  /** A queue holding exactly these lines, none of them read. */
  ghost function Holding(capacity: nat, lines: seq<Text>, open: Text): Queue {
    On(capacity, Space(lines) + |open|, false, lines, open)
  }

  lemma StepWrite(q: Queue, t: Text)
    ensures Step(q, Cmd.Put(t)) == if q.Off? then (q, Done) else AddText(q, t)
    ensures Step(q, Cmd.PutLine(t)) ==
            if q.Off? then (q, Done)
            else if AddText(q, t).1 == Overflow then AddText(q, t) else AddNewLine(AddText(q, t).0)
    ensures Step(q, Cmd.NewLine) == if q.Off? then (q, Done) else AddNewLine(q)
  {
  }

  lemma AddTextHolding(capacity: nat, lines: seq<Text>, open: Text, t: Text)
    requires Space(lines) + |open + t| <= capacity
    ensures AddText(Holding(capacity, lines, open), t) == (Holding(capacity, lines, open + t), Done)
  {
  }

  lemma AddNewLineHolding(capacity: nat, lines: seq<Text>, open: Text)
    requires Space(lines + [open]) <= capacity
    ensures AddNewLine(Holding(capacity, lines, open)) == (Holding(capacity, lines + [open], []), Done)
    ensures Space(lines + [open]) == Space(lines) + |open| + 1
  {
    SpaceOfMore(lines, open);
  }

  lemma WriteOne(capacity: nat, lines: seq<Text>, open: Text, c: Cmd)
    requires IsWrite(c)
    requires Space(SpeltMore(lines, open, c).0) + |SpeltMore(lines, open, c).1| <= capacity
    ensures Space(lines) + |open| <= capacity
    ensures Step(Holding(capacity, lines, open), c)
         == (Holding(capacity, SpeltMore(lines, open, c).0, SpeltMore(lines, open, c).1), Done)
  {
    hide Step;
    hide AddText;
    hide AddNewLine;
    hide Space;
    match c
    case Put(t) =>
      StepWrite(Holding(capacity, lines, open), t);
      AddTextHolding(capacity, lines, open, t);
    case PutLine(t) =>
      StepWrite(Holding(capacity, lines, open), t);
      AddNewLineHolding(capacity, lines, open + t);
      AddTextHolding(capacity, lines, open, t);
    case NewLine =>
      StepWrite(Holding(capacity, lines, open), []);
      AddNewLineHolding(capacity, lines, open);
  }

  /** A write overflows exactly if it does not fit behind what is kept, and then nothing at all is kept. */
  lemma OverflowIff(q: Queue, c: Cmd)
    requires q.On? && IsWrite(c)
    ensures var need := if c.Put? then |c.text| else if c.PutLine? then |c.text| + 1 else 1;
            Step(q, c).1 == Overflow <==> (if q.reading then 0 else q.used) + need > q.capacity
    ensures Step(q, c).1 != Overflow ==> Step(q, c).1 == Done
    ensures Step(q, c).1 == Overflow ==> Step(q, c).0 == On(q.capacity, 0, false, [], [])
  {
  }

  lemma {:induction false} RunSnoc(q: Queue, cmds: seq<Cmd>, c: Cmd)
    ensures Run(q, cmds + [c]).0 == Step(Run(q, cmds).0, c).0
    ensures Run(q, cmds + [c]).1 == Run(q, cmds).1 + [Step(Run(q, cmds).0, c).1]
    decreases cmds
  {
    if cmds == [] {
      assert cmds + [c] == [c] && [c][1..] == [];
      assert Run(Step(q, c).0, [c][1..]) == (Step(q, c).0, []);
    } else {
      assert (cmds + [c])[0] == cmds[0] && (cmds + [c])[1..] == cmds[1..] + [c];
      RunSnoc(Step(q, cmds[0]).0, cmds[1..], c);
    }
  }

  /** Writes into an empty queue, or into one that is being read, leave exactly the lines they spell out if
      these fit; what was pending before is gone. */
  lemma {:induction false} WritePhase(q: Queue, cmds: seq<Cmd>)
    requires q.On? && (q.reading || q == Emptied(q)) && cmds != []
    requires forall i :: 0 <= i < |cmds| ==> IsWrite(cmds[i])
    requires Space(Spelt(cmds).0) + |Spelt(cmds).1| <= q.capacity
    ensures Run(q, cmds).0 == Holding(q.capacity, Spelt(cmds).0, Spelt(cmds).1)
    ensures forall r :: r in Run(q, cmds).1 ==> r == Done
    decreases cmds
  {
    var n := |cmds| - 1;
    var init, last := cmds[..n], cmds[n];
    assert cmds == init + [last];
    RunSnoc(q, init, last);
    WriteOne(q.capacity, Spelt(init).0, Spelt(init).1, last);
    if init == [] {
      NothingRun(q);
      FirstWrite(q, last);
    } else {
      hide Step;
      hide Run;
      WritePhase(q, init);
    }
  }

  lemma FirstWrite(q: Queue, c: Cmd)
    requires q.On? && (q.reading || q == Emptied(q)) && IsWrite(c)
    ensures Step(q, c) == Step(Holding(q.capacity, [], []), c)
  {
  }

  /** A batch of writes followed by any reads: the reads return the lines written, first come first served. */
  lemma FirstInFirstOut(q: Queue, writes: seq<Cmd>, gets: seq<Cmd>)
    requires q.On? && (q.reading || q == Emptied(q)) && writes != []
    requires forall i :: 0 <= i < |writes| ==> IsWrite(writes[i])
    requires forall i :: 0 <= i < |gets| ==> IsRead(gets[i])
    requires Space(Spelt(writes).0) + |Spelt(writes).1| <= q.capacity
    ensures var all := Spelt(writes).0 + if Spelt(writes).1 == [] then [] else [Spelt(writes).1];
            Received(Run(Run(q, writes).0, gets).1) == all[..Taken(AskedAll(gets), |all|)]
  {
    WritePhase(q, writes);
    ReadPhase(Run(q, writes).0, gets);
  }

  /** A read that delivers a line marks the queue as being read, so that the first write afterwards drops
      what is left; a read that delivers none changes nothing. Neither gives space back. */
  lemma ReadMarks(q: Queue, c: Cmd)
    requires IsRead(c)
    ensures Step(q, c).1.lines != [] ==> Step(q, c).0.On? && Step(q, c).0.reading
    ensures Step(q, c).1.lines == [] ==> Step(q, c).0 == q
    ensures q.On? ==> Step(q, c).0.On? && Step(q, c).0.capacity == q.capacity && Step(q, c).0.used == q.used
  {
    hide NextN;
    if c.GetLines? { NextNMarks(q, c.max); }
  }

  lemma {:induction false} NextNMarks(q: Queue, max: int)
    ensures var (r, lines) := NextN(q, max);
            && (lines != [] ==> r.On? && r.reading) && (lines == [] ==> r == q)
            && (q.On? ==> r.On? && r.capacity == q.capacity && r.used == q.used)
    decreases max
  {
    if 0 < max && Next(q).1 != [] { NextNMarks(Next(q).0, max - 1); }
  }

  /** A read that delivers a line, then a batch of writes, then any reads: only the lines written after the
      first read come out. */
  lemma WriteAfterRead(q: Queue, get: Cmd, writes: seq<Cmd>, gets: seq<Cmd>)
    requires q.On? && IsRead(get) && Step(q, get).1.lines != [] && writes != []
    requires forall i :: 0 <= i < |writes| ==> IsWrite(writes[i])
    requires forall i :: 0 <= i < |gets| ==> IsRead(gets[i])
    requires Space(Spelt(writes).0) + |Spelt(writes).1| <= q.capacity
    ensures var all := Spelt(writes).0 + if Spelt(writes).1 == [] then [] else [Spelt(writes).1];
            Received(Run(Run(Step(q, get).0, writes).0, gets).1) == all[..Taken(AskedAll(gets), |all|)]
  {
    ReadMarks(q, get);
    FirstInFirstOut(Step(q, get).0, writes, gets);
  }

  // ---------------------------------------------------------------------------------------------
  // Switching on and off
  // ---------------------------------------------------------------------------------------------

  predicate IsEnable(c: Cmd) {
    c.Enable? || c.EnableDefault?
  }

  /** The buffer size asked for: the largest without an argument, and an argument brought into range. */
  function SizeAsked(c: Cmd): nat
    requires IsEnable(c)
  {
    if c.EnableDefault? then 20000
    else if c.size == None || 1000000 <= c.size.value then 1000000
    else if c.size.value <= 2000 then 2000
    else c.size.value
  }

  /** Enabling a queue that is on keeps everything in it, and where it is being read; its capacity becomes
      the size asked for exactly if that exceeds what was used. Enabling one that is off starts an empty one. */
  lemma EnableKeeps(q: Queue, c: Cmd)
    requires IsEnable(c)
    ensures var r := Step(q, c).0;
            && r.On? && Step(q, c).1 == Done
            && (q.On? ==>
                  && r.lines == q.lines && r.open == q.open && r.used == q.used && r.reading == q.reading
                  && r.capacity == (if q.used < SizeAsked(c) then SizeAsked(c) else q.capacity))
            && (q.Off? ==> r.capacity == SizeAsked(c) && r.lines == [] && r.open == [] && r.used == 0 && !r.reading)
  {
  }

  /** Disabling drops everything, and while the queue is off only enabling has any effect. */
  lemma OffStaysOff(q: Queue, c: Cmd)
    ensures Step(q, Disable) == (Off, Done)
    ensures !IsEnable(c) ==> Step(Off, c) == (Off, if IsRead(c) then Lines([]) else Done)
  {
  }

  /** Enabling before any reads changes nothing of what they deliver. */
  lemma EnableBetween(q: Queue, c: Cmd, gets: seq<Cmd>)
    requires q.On? && IsEnable(c) && forall i :: 0 <= i < |gets| ==> IsRead(gets[i])
    ensures Received(Run(Step(q, c).0, gets).1) == Received(Run(q, gets).1)
    ensures Run(Step(q, c).0, gets).0.Pending() == Run(q, gets).0.Pending()
  {
    EnableKeeps(q, c);
    assert Step(q, c).0.Pending() == q.Pending();
    ReadPhase(q, gets);
    ReadPhase(Step(q, c).0, gets);
  }
}
