/** The edit distance of contrib/fuzzystrmatch as mathematics: the notional matrix, the scripts
    whose least cost it holds, and the facts that make pruning by a residual bound sound. */
module EditDistance {
  import opened Bytes

  /** One character: the bytes that encode it. */
  type Char = seq<Byte>

  /** Two strings, already split into characters, and what each kind of edit is charged. */
  datatype Problem = Problem(s: seq<Char>, t: seq<Char>, ins: int, del: int, sub: int) {

    /** No edit is rewarded. */
    predicate Charged() {
      0 <= ins && 0 <= del && 0 <= sub
    }

    /** Charge for lining up character i of s with character j of t. */
    function PairCost(i: nat, j: nat): int
      requires i < |s| && j < |t|
    {
      if s[i] == t[j] then 0 else sub
    }

    /** Cell (i, j) of the notional matrix: first i characters of s into first j characters of t. */
    ghost function Cell(i: nat, j: nat): int
      requires i <= |s| && j <= |t|
      decreases i + j
    {
      if i == 0 then (if j == 0 then 0 else Cell(0, j - 1) + ins)
      else if j == 0 then Cell(i - 1, 0) + del
      else Min(Min(Cell(i, j - 1) + ins, Cell(i - 1, j) + del), Cell(i - 1, j - 1) + PairCost(i - 1, j - 1))
    }

    ghost function Distance(): int {
      Cell(|s|, |t|)
    }

    /** Insertions (when positive) or deletions (when negative) still needed after cell (i, j)
        merely to make the two lengths agree. */
    function NetInserts(i: int, j: int): int {
      (|t| - j) - (|s| - i)
    }

    /** The cheapest conceivable way from cell (i, j) to the last cell. */
    function Residual(i: int, j: int): int {
      var net := NetInserts(i, j);
      if net > 0 then net * ins else -net * del
    }

    /** A path through cell (i, j) may still end within the bound; with no bound every cell counts. */
    ghost predicate Live(bound: int, i: nat, j: nat)
      requires i <= |s| && j <= |t|
    {
      bound < 0 || Cell(i, j) + Residual(i, j) <= bound
    }
  }

  function Min(a: int, b: int): int {
    if a < b then a else b
  }

  // ---------------------------------------------------------------------------------------------
  // Scripts
  // ---------------------------------------------------------------------------------------------

  /** One step of a left-to-right edit script. */
  datatype Edit = Pair(from: Char, to: Char) | Insert(to: Char) | Delete(from: Char)

  /** The characters a script consumes, in order. */
  ghost function Source(script: seq<Edit>): seq<Char> {
    if script == [] then [] else
      var last := script[|script| - 1];
      Source(script[..|script| - 1]) + if last.Insert? then [] else [last.from]
  }

  /** The characters a script produces, in order. */
  ghost function Target(script: seq<Edit>): seq<Char> {
    if script == [] then [] else
      var last := script[|script| - 1];
      Target(script[..|script| - 1]) + if last.Delete? then [] else [last.to]
  }

  ghost function EditCost(p: Problem, e: Edit): int {
    match e
    case Pair(a, b) => if a == b then 0 else p.sub
    case Insert(_) => p.ins
    case Delete(_) => p.del
  }

  ghost function ScriptCost(p: Problem, script: seq<Edit>): int {
    if script == [] then 0 else
      ScriptCost(p, script[..|script| - 1]) + EditCost(p, script[|script| - 1])
  }

  ghost predicate Turns(p: Problem, script: seq<Edit>, i: nat, j: nat)
    requires i <= |p.s| && j <= |p.t|
  {
    Source(script) == p.s[..i] && Target(script) == p.t[..j]
  }

  /** No script beats the matrix, whatever the sign of the charges. */
  lemma {:induction false} NoCheaperScript(p: Problem, script: seq<Edit>, i: nat, j: nat)
    requires i <= |p.s| && j <= |p.t| && Turns(p, script, i, j)
    ensures p.Cell(i, j) <= ScriptCost(p, script)
    decreases |script|
  {
    hide Problem.Cell;
    if script == [] {
      EdgeCell(p, 0);
    } else {
      var init, last := script[..|script| - 1], script[|script| - 1];
      match last
      case Pair(a, b) =>
        assert Source(init) == p.s[..i - 1] && Target(init) == p.t[..j - 1];
        NoCheaperScript(p, init, i - 1, j - 1);
        CellByPair(p, i, j);
      case Insert(b) =>
        assert Target(init) == p.t[..j - 1];
        NoCheaperScript(p, init, i, j - 1);
        CellByInsert(p, i, j);
      case Delete(a) =>
        assert Source(init) == p.s[..i - 1];
        NoCheaperScript(p, init, i - 1, j);
        CellByDelete(p, i, j);
    }
  }

  lemma CellByInsert(p: Problem, i: nat, j: nat)
    requires i <= |p.s| && 0 < j <= |p.t|
    ensures p.Cell(i, j) <= p.Cell(i, j - 1) + p.ins
  {
  }

  lemma CellByDelete(p: Problem, i: nat, j: nat)
    requires 0 < i <= |p.s| && j <= |p.t|
    ensures p.Cell(i, j) <= p.Cell(i - 1, j) + p.del
  {
  }

  lemma CellByPair(p: Problem, i: nat, j: nat)
    requires 0 < i <= |p.s| && 0 < j <= |p.t|
    ensures p.Cell(i, j) <= p.Cell(i - 1, j - 1) + p.PairCost(i - 1, j - 1)
  {
  }

  /** Any last step bounds its cell from above. */
  lemma CellByEdit(p: Problem, e: Edit, i: nat, j: nat, i': nat, j': nat)
    requires i' <= i <= |p.s| && j' <= j <= |p.t|
    requires p.s[i'..i] == (if e.Insert? then [] else [e.from])
    requires p.t[j'..j] == (if e.Delete? then [] else [e.to])
    ensures p.Cell(i, j) <= p.Cell(i', j') + EditCost(p, e)
  {
    hide Problem.Cell;
    match e
    case Pair(a, b) =>
      assert p.s[i'..i][0] == p.s[i'] && p.t[j'..j][0] == p.t[j'];
      CellByPair(p, i, j);
    case Insert(b) => CellByInsert(p, i, j);
    case Delete(a) => CellByDelete(p, i, j);
  }

  /** Some script costs exactly what the matrix says. */
  lemma {:induction false} CheapestScript(p: Problem, i: nat, j: nat) returns (script: seq<Edit>)
    requires i <= |p.s| && j <= |p.t|
    ensures Turns(p, script, i, j) && ScriptCost(p, script) == p.Cell(i, j)
    decreases i + j
  {
    if i == 0 && j == 0 {
      script := [];
    } else {
      var e, i', j' := LastEdit(p, i, j);
      var init := CheapestScript(p, i', j');
      script := init + [e];
      assert script[..|script| - 1] == init;
      assert p.s[..i] == p.s[..i'] + p.s[i'..i] && p.t[..j] == p.t[..j'] + p.t[j'..j];
    }
  }

  /** The last step of a cheapest script into cell (i, j), and the cell it comes from. */
  lemma LastEdit(p: Problem, i: nat, j: nat) returns (e: Edit, i': nat, j': nat)
    requires i <= |p.s| && j <= |p.t| && 0 < i + j
    ensures i' <= i <= i' + 1 && j' <= j <= j' + 1 && i' + j' < i + j
    ensures p.s[i'..i] == (if e.Insert? then [] else [e.from])
    ensures p.t[j'..j] == (if e.Delete? then [] else [e.to])
    ensures p.Cell(i, j) == p.Cell(i', j') + EditCost(p, e)
  {
    CellCases(p, i, j);
    hide Problem.Cell;
    assert 0 < i ==> p.s[i - 1..i] == [p.s[i - 1]];
    assert 0 < j ==> p.t[j - 1..j] == [p.t[j - 1]];
    assert p.s[i..i] == [] && p.t[j..j] == [];
    if 0 < j && p.Cell(i, j) == p.Cell(i, j - 1) + p.ins {
      e, i', j' := Insert(p.t[j - 1]), i, j - 1;
    } else if 0 < i && p.Cell(i, j) == p.Cell(i - 1, j) + p.del {
      e, i', j' := Delete(p.s[i - 1]), i - 1, j;
    } else {
      e, i', j' := Pair(p.s[i - 1], p.t[j - 1]), i - 1, j - 1;
    }
  }

  lemma CellCases(p: Problem, i: nat, j: nat)
    requires i <= |p.s| && j <= |p.t| && 0 < i + j
    ensures || (0 < j && p.Cell(i, j) == p.Cell(i, j - 1) + p.ins)
            || (0 < i && p.Cell(i, j) == p.Cell(i - 1, j) + p.del)
            || (0 < i && 0 < j && p.Cell(i, j) == p.Cell(i - 1, j - 1) + p.PairCost(i - 1, j - 1))
  {
  }

  /** The last cell is the least cost over all left-to-right scripts that turn s into t. */
  ghost predicate IsLeastCost(p: Problem, d: int) {
    && (exists script :: Source(script) == p.s && Target(script) == p.t && ScriptCost(p, script) == d)
    && (forall script :: Source(script) == p.s && Target(script) == p.t ==> d <= ScriptCost(p, script))
  }

  lemma DistanceIsLeastCost(p: Problem)
    ensures IsLeastCost(p, p.Distance())
    ensures forall d :: IsLeastCost(p, d) ==> d == p.Distance()
  {
    assert p.s[..|p.s|] == p.s && p.t[..|p.t|] == p.t;
    var best := CheapestScript(p, |p.s|, |p.t|);
    assert Source(best) == p.s && Target(best) == p.t;
    forall script | Source(script) == p.s && Target(script) == p.t
      ensures p.Distance() <= ScriptCost(p, script)
    {
      NoCheaperScript(p, script, |p.s|, |p.t|);
    }
  }

  /** The edges of the matrix are plain multiples. */
  lemma {:induction false} EdgeCell(p: Problem, k: nat)
    ensures k <= |p.s| ==> p.Cell(k, 0) == k * p.del
    ensures k <= |p.t| ==> p.Cell(0, k) == k * p.ins
  {
    if 0 < k {
      EdgeCell(p, k - 1);
      assert k * p.del == (k - 1) * p.del + p.del && k * p.ins == (k - 1) * p.ins + p.ins;
    }
  }

  // ---------------------------------------------------------------------------------------------
  // How neighbouring cells compare
  // ---------------------------------------------------------------------------------------------

  /** Taking one character off s saves at most one insertion. */
  lemma {:induction false} ShorterSource(p: Problem, i: nat, j: nat)
    requires p.Charged() && 0 < i <= |p.s| && j <= |p.t|
    ensures p.Cell(i - 1, j) <= p.Cell(i, j) + p.ins
    decreases j
  {
    hide Problem.Cell;
    var e, i', j' := LastEdit(p, i, j);
    if e.Insert? { ShorterSource(p, i, j - 1); }
    if !e.Delete? { CellByInsert(p, i - 1, j); }
  }

  /** Taking one character off t saves at most one deletion. */
  lemma {:induction false} ShorterTarget(p: Problem, i: nat, j: nat)
    requires p.Charged() && i <= |p.s| && 0 < j <= |p.t|
    ensures p.Cell(i, j - 1) <= p.Cell(i, j) + p.del
    decreases i
  {
    hide Problem.Cell;
    var e, i', j' := LastEdit(p, i, j);
    if e.Delete? { ShorterTarget(p, i - 1, j); }
    if !e.Insert? { CellByDelete(p, i, j - 1); }
  }

  /** Values never fall along a diagonal. */
  lemma DiagonalGrows(p: Problem, i: nat, j: nat)
    requires p.Charged() && 0 < i <= |p.s| && 0 < j <= |p.t|
    ensures p.Cell(i - 1, j - 1) <= p.Cell(i, j)
  {
    hide Problem.Cell;
    var e, i', j' := LastEdit(p, i, j);
    ShorterSource(p, i, j - 1);
    ShorterTarget(p, i - 1, j);
  }

  lemma ResidualNonNegative(p: Problem, i: int, j: int)
    requires p.Charged()
    ensures 0 <= p.Residual(i, j)
  {
  }

  /** The residual bound is consistent: one step of the matrix never saves more than it charges. */
  lemma ResidualConsistent(p: Problem, i: int, j: int)
    requires 0 <= p.ins + p.del
    ensures p.Residual(i, j - 1) <= p.Residual(i, j) + p.ins
    ensures p.Residual(i - 1, j) <= p.Residual(i, j) + p.del
    ensures p.Residual(i - 1, j - 1) == p.Residual(i, j)
  {
    var net := p.NetInserts(i, j);
    assert (net + 1) * p.ins == net * p.ins + p.ins;
    assert -(net + 1) * p.del == -net * p.del - p.del;
    assert (net - 1) * p.ins == net * p.ins - p.ins;
    assert -(net - 1) * p.del == -net * p.del + p.del;
  }

  /** Every cell can be reached by fixing the lengths and pairing the rest. */
  lemma {:induction false} DistanceAtMost(p: Problem, i: nat, j: nat)
    requires 0 <= p.sub && i <= |p.s| && j <= |p.t|
    ensures p.Cell(i, j) <= (if i <= j then (j - i) * p.ins else (i - j) * p.del) + p.sub * Min(i, j)
    decreases i + j
  {
    hide Problem.Cell;
    if i == 0 || j == 0 {
      EdgeCell(p, i + j);
    } else {
      DistanceAtMost(p, i - 1, j - 1);
      CellByPair(p, i, j);
      var k := Min(i, j);
      assert p.sub * k == p.sub * (k - 1) + p.sub;
      assert Min(i - 1, j - 1) == k - 1;
    }
  }

  /** No cell and its residual together stay below the residual at the start. */
  lemma {:induction false} LengthDifferenceBelow(p: Problem, i: nat, j: nat)
    requires 0 <= p.ins + p.del && 0 <= p.sub && i <= |p.s| && j <= |p.t|
    ensures p.Residual(0, 0) <= p.Cell(i, j) + p.Residual(i, j)
    decreases i + j
  {
    hide Problem.Cell;
    if i + j == 0 {
      EdgeCell(p, 0);
    } else {
      var e, i', j' := LastEdit(p, i, j);
      LengthDifferenceBelow(p, i', j');
      ResidualConsistent(p, i, j);
    }
  }

  /** The distance lies between the cost of fixing the lengths and that plus one substitution for
      every character of the shorter string. */
  lemma TheoreticalBounds(p: Problem)
    requires 0 <= p.ins + p.del && 0 <= p.sub
    ensures p.Residual(0, 0) <= p.Distance() <= p.Residual(0, 0) + p.sub * Min(|p.s|, |p.t|)
  {
    hide Problem.Cell;
    LengthDifferenceBelow(p, |p.s|, |p.t|);
    DistanceAtMost(p, |p.s|, |p.t|);
  }

  /** Charging a substitution at most one deletion and one insertion changes no cell. */
  lemma {:induction false} CheaperSubstitution(p: Problem, i: nat, j: nat)
    requires i <= |p.s| && j <= |p.t|
    ensures p.(sub := Min(p.sub, p.ins + p.del)).Cell(i, j) == p.Cell(i, j)
    decreases i + j
  {
    hide Problem.Cell;
    var q := p.(sub := Min(p.sub, p.ins + p.del));
    if i + j == 0 {
      EdgeCell(p, 0);
      EdgeCell(q, 0);
    } else {
      var e, i', j' := LastEdit(p, i, j);
      CheaperSubstitution(p, i', j');
      CellByEdit(q, e, i, j, i', j');
      e, i', j' := LastEdit(q, i, j);
      CheaperSubstitution(p, i', j');
      CellByEdit(p, e, i, j, i', j');
      if e.Pair? {
        CellByInsert(p, i - 1, j);
        CellByDelete(p, i, j);
      }
    }
  }

  // ---------------------------------------------------------------------------------------------
  // Live cells
  // ---------------------------------------------------------------------------------------------

  /** Liveness comes down the diagonal, or down the left edge. */
  lemma LiveFromAbove(p: Problem, bound: int, i: nat, j: nat)
    requires p.Charged() && i <= |p.s| && 0 < j <= |p.t| && p.Live(bound, i, j)
    ensures p.Live(bound, if i == 0 then 0 else i - 1, j - 1)
  {
    ResidualConsistent(p, i, j);
    if 0 < i { DiagonalGrows(p, i, j); }
  }

  /** In the last row only the last column can decide: if any cell is live, so is the last one. */
  lemma {:induction false} LastRow(p: Problem, bound: int, i: nat)
    requires p.Charged() && i <= |p.s| && p.Live(bound, i, |p.t|)
    ensures p.Live(bound, |p.s|, |p.t|)
    decreases |p.s| - i
  {
    hide Problem.Cell;
    hide Problem.Residual;
    if i < |p.s| {
      CellByDelete(p, i + 1, |p.t|);
      ResidualInLastRow(p, i);
      LastRow(p, bound, i + 1);
    }
  }

  lemma ResidualInLastRow(p: Problem, i: nat)
    requires i < |p.s|
    ensures p.Residual(i, |p.t|) == p.Residual(i + 1, |p.t|) + p.del
  {
    var rest := |p.s| - i;
    assert rest * p.del == (rest - 1) * p.del + p.del;
  }

  /** From the column where the lengths agree on, columns of the first row are dead exactly beyond the initial
      stop column. */
  lemma FirstRowBeyond(p: Problem, bound: int, i: nat)
    requires 0 < p.ins + p.del && 0 <= bound && p.Residual(0, 0) <= bound
    requires (if |p.t| < |p.s| then |p.s| - |p.t| else 0) <= i <= |p.s|
    ensures var best := if |p.t| < |p.s| then |p.s| - |p.t| else 0;
            p.Live(bound, i, 0) <==> i <= best + (bound - p.Residual(0, 0)) / (p.ins + p.del)
  {
    var best := if |p.t| < |p.s| then |p.s| - |p.t| else 0;
    var step, slack, k := p.ins + p.del, bound - p.Residual(0, 0), i - best;
    FirstRowCost(p, i);
    hide Problem.Residual;
    hide Problem.Cell;
    if slack / step < k {
      DivBound(slack, step, k);
    } else {
      MulMonotone(k, slack / step, step);
      assert slack / step * step <= slack;
    }
  }

  /** Beyond the column where the lengths agree, each column of the first row costs one more
      deletion and one more insertion. */
  lemma FirstRowCost(p: Problem, i: nat)
    requires i <= |p.s|
    requires (if |p.t| < |p.s| then |p.s| - |p.t| else 0) <= i
    ensures p.Cell(i, 0) + p.Residual(i, 0)
         == p.Residual(0, 0) + (i - if |p.t| < |p.s| then |p.s| - |p.t| else 0) * (p.ins + p.del)
  {
    var net := |p.t| - |p.s|;
    EdgeCell(p, i);
    if net >= 0 {
      assert p.Residual(0, 0) == net * p.ins;
      assert p.Residual(i, 0) == (net + i) * p.ins;
      SplitProduct(p.ins, p.del, net, i);
    } else {
      assert p.Residual(0, 0) == -net * p.del;
      assert p.Residual(i, 0) == (net + i) * p.ins;
      SplitProduct(p.ins, p.del, -net, net + i);
    }
  }

  lemma SplitProduct(a: int, b: int, u: int, v: int)
    ensures v * (a + b) == v * a + v * b
    ensures (u + v) * a == u * a + v * a
    ensures (u + v) * b == u * b + v * b
  {
  }

  lemma DivBound(slack: int, step: int, k: int)
    requires 0 <= slack && 0 < step && slack / step < k
    ensures slack < k * step
  {
    MulMonotone(slack / step + 1, k, step);
    assert slack < (slack / step + 1) * step;
  }

  lemma MulMonotone(a: int, b: int, c: int)
    requires a <= b && 0 <= c
    ensures a * c <= b * c
  {
  }

  // ---------------------------------------------------------------------------------------------
  // Stored values
  // ---------------------------------------------------------------------------------------------

  /** What a stored value says about its cell: exact where the cell is live, and otherwise never so
      small that it could mislead. */
  ghost predicate Stands(p: Problem, bound: int, v: int, i: nat, j: nat)
    requires i <= |p.s| && j <= |p.t|
  {
    if p.Live(bound, i, j) then v == p.Cell(i, j) else Min(p.Cell(i, j), bound + 1) <= v
  }

  /** The recurrence on values that stand for their cells gives a value that stands for its cell. */
  lemma StandsStep(p: Problem, bound: int, above: int, left: int, corner: int, i: nat, j: nat)
    requires (bound < 0 || p.Charged()) && 0 < i <= |p.s| && 0 < j <= |p.t|
    requires Stands(p, bound, above, i, j - 1)
    requires Stands(p, bound, left, i - 1, j)
    requires Stands(p, bound, corner, i - 1, j - 1)
    ensures Stands(p, bound, Min(Min(above + p.ins, left + p.del), corner + p.PairCost(i - 1, j - 1)), i, j)
  {
    if 0 <= bound {
      ResidualConsistent(p, i, j);
      ResidualNonNegative(p, i, j - 1);
      ResidualNonNegative(p, i - 1, j);
      ResidualNonNegative(p, i, j);
    }
  }

  lemma EdgeStands(p: Problem, bound: int, j: nat)
    requires j <= |p.t|
    ensures Stands(p, bound, j * p.ins, 0, j)
  {
    EdgeCell(p, j);
  }

  /** A stored value passes the pruning test exactly when its cell is live. */
  lemma StandsTest(p: Problem, bound: int, v: int, i: nat, j: nat)
    requires p.Charged() && 0 <= bound && i <= |p.s| && j <= |p.t|
    requires Stands(p, bound, v, i, j)
    ensures v + p.Residual(i, j) <= bound <==> p.Live(bound, i, j)
  {
    ResidualNonNegative(p, i, j);
  }
}
